/** Byte strings as Python slices, searches, reads and packs them (struct format "<"). */
module Bytes {

  type Byte = x: int | 0 <= x < 256

  /** b[lo:hi]: bounds past the end are clamped and a reversed slice is empty. */
  function Slice(b: seq<Byte>, lo: nat, hi: nat): (s: seq<Byte>)
    ensures lo <= hi <= |b| ==> s == b[lo..hi]
  {
    var top := if hi <= |b| then hi else |b|;
    if lo <= top then b[lo..top] else []
  }

  function Read16(b: seq<Byte>, at: nat): (n: nat)
    requires at + 2 <= |b|
    ensures n < 0x1_0000
  {
    b[at] as int + 0x100 * (b[at + 1] as int)
  }

  function Read32(b: seq<Byte>, at: nat): (n: nat)
    requires at + 4 <= |b|
    ensures n < 0x1_0000_0000
  {
    Read16(b, at) + 0x1_0000 * Read16(b, at + 2)
  }

  function Pack16(n: nat): (b: seq<Byte>)
    requires n < 0x1_0000
    ensures |b| == 2 && Read16(b, 0) == n
  {
    [n % 0x100, n / 0x100]
  }

  function Pack32(n: nat): (b: seq<Byte>)
    requires n < 0x1_0000_0000
    ensures |b| == 4 && Read32(b, 0) == n
  {
    Pack16(n % 0x1_0000) + Pack16(n / 0x1_0000)
  }

  /** Reading a field back from the middle of a longer byte string. */
  lemma ReadBack16(before: seq<Byte>, n: nat, after: seq<Byte>)
    requires n < 0x1_0000
    ensures Read16(before + Pack16(n) + after, |before|) == n
  {
    var b := before + Pack16(n) + after;
    assert b[|before|] == Pack16(n)[0] && b[|before| + 1] == Pack16(n)[1];
  }

  lemma ReadBack32(before: seq<Byte>, n: nat, after: seq<Byte>)
    requires n < 0x1_0000_0000
    ensures Read32(before + Pack32(n) + after, |before|) == n
  {
    var b := before + Pack32(n) + after;
    assert forall i | 0 <= i < 4 :: b[|before| + i] == Pack32(n)[i];
  }

  lemma PackReads16(b: seq<Byte>, at: nat)
    requires at + 2 <= |b|
    ensures Pack16(Read16(b, at)) == b[at..at + 2]
  {}

  lemma PackReads32(b: seq<Byte>, at: nat)
    requires at + 4 <= |b|
    ensures Pack32(Read32(b, at)) == b[at..at + 4]
  {
    PackReads16(b, at);
    PackReads16(b, at + 2);
  }

  /** `part` stands in the byte string from `at` on. */
  predicate Holds(b: seq<Byte>, at: nat, part: seq<Byte>) {
    at + |part| <= |b| && forall i | 0 <= i < |part| :: b[at + i] == part[i]
  }

  lemma HoldsSplit(b: seq<Byte>, at: nat, first: seq<Byte>, rest: seq<Byte>)
    requires Holds(b, at, first + rest)
    ensures Holds(b, at, first) && Holds(b, at + |first|, rest)
  {
    var both := first + rest;
    forall i | 0 <= i < |first| ensures b[at + i] == first[i] {
      assert both[i] == first[i];
    }
    forall i | 0 <= i < |rest| ensures b[at + |first| + i] == rest[i] {
      assert both[|first| + i] == rest[i];
    }
  }

  /** The middle of three joined byte strings, and the last of them. */
  lemma SliceMiddle(first: seq<Byte>, middle: seq<Byte>, last: seq<Byte>)
    ensures Slice(first + middle + last, |first|, |first| + |middle|) == middle
    ensures (first + middle + last)[|first| + |middle|..] == last
    ensures Holds(first + middle + last, |first|, middle)
  {}

  /** b[at:at + 4] == marker, for a four-byte marker; a slice that runs off the end equals none. */
  predicate MarkerAt(b: seq<Byte>, at: nat, marker: seq<Byte>)
    requires |marker| == 4
  {
    && at + 4 <= |b|
    && b[at] == marker[0] && b[at + 1] == marker[1] && b[at + 2] == marker[2] && b[at + 3] == marker[3]
  }

  /** b.rfind(marker): the last position the marker is spelled at, or -1. */
  function LastMarker(b: seq<Byte>, marker: seq<Byte>): (r: int)
    requires |marker| == 4
    ensures r == -1 || (0 <= r && MarkerAt(b, r, marker))
    ensures forall i: nat | MarkerAt(b, i, marker) :: i <= r
  {
    LastMarkerUpTo(b, marker, |b|)
  }

  function LastMarkerUpTo(b: seq<Byte>, marker: seq<Byte>, bound: nat): (r: int)
    requires |marker| == 4 && bound <= |b|
    ensures r == -1 || (0 <= r && MarkerAt(b, r, marker))
    ensures forall i: nat | MarkerAt(b, i, marker) && i < bound :: i <= r
  {
    if bound == 0 then -1
    else if MarkerAt(b, bound - 1, marker) then bound - 1
    else LastMarkerUpTo(b, marker, bound - 1)
  }
}
