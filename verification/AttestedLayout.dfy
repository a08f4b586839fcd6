/**
  What the package check says about the bytes it accepts, to a program that unsigns them.

  The check never holds the end of the record walk to the directory size the end record states, nor the comment length
  to zero; `AcceptedReadsBack` says exactly which accepted archives unsigning can read. An accepted archive that also
  agrees with its own end record is the encoding of a well-formed archive. What signing makes of any accepted bytes is in
  AttestedSigning.
*/
module AttestedLayout {
  import opened Outcomes
  import opened Bytes
  import opened NupkgUnsign
  import opened NupkgSigning
  import Layout = SignableLayout

  // The fields of an end record that ends the file.

  function Disk(data: seq<Byte>): (n: nat)
    requires |data| >= END_SIZE
    ensures n < 0x1_0000
  {
    Read16(data, |data| - 18)
  }

  function CdDisk(data: seq<Byte>): (n: nat)
    requires |data| >= END_SIZE
    ensures n < 0x1_0000
  {
    Read16(data, |data| - 16)
  }

  function OnDisk(data: seq<Byte>): (n: nat)
    requires |data| >= END_SIZE
    ensures n < 0x1_0000
  {
    Read16(data, |data| - 14)
  }

  function Total(data: seq<Byte>): (n: nat)
    requires |data| >= END_SIZE
    ensures n < 0x1_0000
  {
    Read16(data, |data| - 12)
  }

  function CdSize(data: seq<Byte>): (n: nat)
    requires |data| >= END_SIZE
    ensures n < 0x1_0000_0000
  {
    Read32(data, |data| - 10)
  }

  function CdOffset(data: seq<Byte>): (n: nat)
    requires |data| >= END_SIZE
    ensures n < 0x1_0000_0000
  {
    Read32(data, |data| - 6)
  }

  function CommentLength(data: seq<Byte>): nat
    requires |data| >= END_SIZE
  {
    Read16(data, |data| - 2)
  }

  ghost predicate Accepted(data: seq<Byte>) {
    Layout.LayoutProblems(data) == Success([])
  }

  /** Where the record walk of a clean directory ends. */
  function DirectoryEnd(data: seq<Byte>, at: nat, left: nat): (end: nat)
    requires Layout.CleanDirectory(data, at, left)
    ensures end >= at
    decreases left
  {
    if left == 0 then at else DirectoryEnd(data, at + Layout.CentralSize(data, at), left - 1)
  }

  /** The file ends in an end record whose directory is made of clean records. */
  predicate InOneDirectory(data: seq<Byte>) {
    |data| >= END_SIZE && CdOffset(data) <= |data| && Layout.CleanDirectory(data, CdOffset(data), Total(data))
  }

  lemma AcceptedFacts(data: seq<Byte>)
    requires Accepted(data)
    ensures InOneDirectory(data) && LastMarker(data, END_MARKER) == |data| - END_SIZE
    ensures CdOffset(data) + CdSize(data) <= |data| - END_SIZE
    ensures OnDisk(data) < 0xFFFF && Total(data) < 0xFFFF
  {
    hide Layout.WalkProblems, Layout.CleanDirectory, MarkerAt;
    var end := LastMarker(data, END_MARKER);
    var at, left := Read32(data, end + 16), Read16(data, end + 10);
    Layout.WalkCleanIffNoProblem(data, at, left);
    if |data| > end + END_SIZE {
      Layout.ProblemsOnlyGrow(data, at, left, [Layout.BytesFollow(|data| - (end + END_SIZE))]);
    }
  }

  lemma SignatureNameIsLower()
    ensures Layout.LowerName(SIGNATURE_ENTRY) == SIGNATURE_ENTRY
  {}

  lemma CleanStep(data: seq<Byte>, at: nat, left: nat) returns (next: nat)
    requires Layout.CleanDirectory(data, at, left) && left > 0
    ensures Layout.HeaderAt(data, at) && Layout.CleanEntry(data, at) && next == at + Layout.CentralSize(data, at)
    ensures Layout.CleanDirectory(data, next, left - 1)
    ensures DirectoryEnd(data, at, left) == DirectoryEnd(data, next, left - 1)
  {
    hide Layout.CleanEntry, Layout.CentralSize;
    next := at + Layout.CentralSize(data, at);
  }

  lemma NothingLeft(data: seq<Byte>, at: nat, read: seq<Record>)
    ensures Layout.CleanDirectory(data, at, 0) && DirectoryEnd(data, at, 0) == at
    ensures Walk(data, at, 0, read) == Success(Directory(read, at))
  {}

  /** Unsigning reads a clean directory through, finds no signature in it, and stands where the records end. */
  lemma {:induction false} CleanWalk(data: seq<Byte>, at: nat, left: nat, read: seq<Record>)
    requires Layout.CleanDirectory(data, at, left)
    requires forall e | e in read :: e.name != SIGNATURE_ENTRY
    ensures var r := Walk(data, at, left, read);
            && r.Success? && r.value.end == DirectoryEnd(data, at, left)
            && forall e | e in r.value.records :: e.name != SIGNATURE_ENTRY
    decreases left
  {
    hide *;
    if left == 0 {
      NothingLeft(data, at, read);
    } else {
      var next := CleanStep(data, at, left);
      CleanNext(data, at);
      var record := NextRecord(data, at).value;
      WalkOne(data, at, left, read, record);
      CleanWalk(data, at + record.size, left - 1, read + [record]);
    }
  }

  lemma CleanNext(data: seq<Byte>, at: nat)
    requires Layout.HeaderAt(data, at) && Layout.CleanEntry(data, at)
    ensures NextRecord(data, at).Success?
    ensures NextRecord(data, at).value.size == Layout.CentralSize(data, at)
    ensures NextRecord(data, at).value.name != SIGNATURE_ENTRY
  {
    hide Layout.CentralZip64, Layout.CleanLocal, Layout.LowerName;
    SignatureNameIsLower();
  }

  lemma {:induction false} NoSignatureAmong(records: seq<Record>)
    requires forall e | e in records :: e.name != SIGNATURE_ENTRY
    ensures Signatures(records) == []
  {
    if records == [] {
    } else {
      NoSignatureAmong(records[1..]);
    }
  }

  /** The directory is the size its end record says, and no comment is announced. */
  predicate ReadsBack(data: seq<Byte>)
    requires InOneDirectory(data)
  {
    CommentLength(data) == 0 && DirectoryEnd(data, CdOffset(data), Total(data)) == CdOffset(data) + CdSize(data)
  }

  /** The end record the program reads when one ends the file. */
  function EndHere(data: seq<Byte>): EndRecord
    requires |data| >= END_SIZE
  {
    EndRecord(|data| - END_SIZE, Disk(data), CdDisk(data), OnDisk(data), Total(data), CdSize(data), CdOffset(data))
  }

  lemma EndReadHere(data: seq<Byte>)
    requires |data| >= END_SIZE && LastMarker(data, END_MARKER) == |data| - END_SIZE
    ensures ReadEnd(data) == if CommentLength(data) == 0 then Success(EndHere(data)) else Failure(BytesFollowEndRecord)
  {
    hide LastMarker, Read16, Read32;
  }

  lemma UnsignedNothing(data: seq<Byte>, end: EndRecord)
    requires ReadEnd(data) == Success(end) && Walk(data, end.cdOffset, end.total, []).Success?
    requires Signatures(Walk(data, end.cdOffset, end.total, []).value.records) == []
    ensures Unsigned(data) == if Walk(data, end.cdOffset, end.total, []).value.end == end.cdOffset + end.cdSize
                              then Success(data) else Failure(WrongDirectorySize)
  {
    hide ReadEnd, Walk, Signatures, Strip;
  }

  /** An accepted archive can be read by the verifier exactly when its end record describes it. */
  lemma AcceptedReadsBack(data: seq<Byte>)
    requires Accepted(data)
    ensures InOneDirectory(data)
    ensures Unsigned(data) == Success(data) <==> ReadsBack(data)
    ensures !ReadsBack(data) ==>
              Unsigned(data) == Failure(BytesFollowEndRecord) || Unsigned(data) == Failure(WrongDirectorySize)
  {
    hide Accepted, Layout.CleanDirectory, Walk, Signatures, DirectoryEnd, UnsignedRecords, LastMarker, ReadEnd, Disk, CdDisk;
    hide OnDisk, Total, CdSize, CdOffset, CommentLength;
    AcceptedFacts(data);
    EndReadHere(data);
    CleanWalk(data, CdOffset(data), Total(data), []);
    NoSignatureAmong(Walk(data, CdOffset(data), Total(data), []).value.records);
    if CommentLength(data) == 0 {
      UnsignedNothing(data, EndHere(data));
    }
  }

  /** A byte before an end record that counts it as a directory of no record. */
  const UNREADABLE: seq<Byte> := [0, 0x50, 0x4B, 5, 6, 0, 0, 0, 0, 0, 0, 0, 0, 1, 0, 0, 0, 0, 0, 0, 0, 0, 0]

  lemma UnreadableMarker()
    ensures LastMarker(UNREADABLE, END_MARKER) == 1
  {
    hide LastMarker;
    assert MarkerAt(UNREADABLE, 1, END_MARKER);
    assert forall i: nat | MarkerAt(UNREADABLE, i, END_MARKER) :: i <= 1;
  }

  /** The check accepts an archive that unsigning cannot read. */
  lemma SomeAcceptedArchiveIsUnreadable()
    ensures Accepted(UNREADABLE) && Unsigned(UNREADABLE) == Failure(WrongDirectorySize)
  {
    hide LastMarker;
    UnreadableMarker();
    UnreadableIsAccepted();
    UnreadableIsRefused();
  }

  lemma UnreadableIsAccepted()
    requires LastMarker(UNREADABLE, END_MARKER) == 1
    ensures Accepted(UNREADABLE)
  {
    hide LastMarker, Layout.RecordProblems, Layout.CentralSize, Layout.CleanDirectory;
  }

  lemma UnreadableIsRefused()
    requires LastMarker(UNREADABLE, END_MARKER) == 1
    ensures Unsigned(UNREADABLE) == Failure(WrongDirectorySize)
  {
    hide LastMarker, RecordAt, UnsignedRecords;
  }

  // ---------------------------------------------------------------- accepted bytes as an archive

  predicate LocalsBefore(data: seq<Byte>, at: nat, left: nat, bound: nat)
    requires Layout.CleanDirectory(data, at, left)
    decreases left
  {
    left > 0 ==> Read32(data, at + 42) <= bound && LocalsBefore(data, at + Layout.CentralSize(data, at), left - 1, bound)
  }

  /** What the check leaves open: the end record agrees with itself and the directory fills the room before it. */
  predicate Complete(data: seq<Byte>)
    requires InOneDirectory(data)
  {
    && ReadsBack(data)
    && OnDisk(data) == Total(data)
    && CdOffset(data) + CdSize(data) == |data| - END_SIZE
    && LocalsBefore(data, CdOffset(data), Total(data), CdOffset(data))
  }

  function SplitDirectory(data: seq<Byte>, at: nat, left: nat): seq<seq<Byte>>
    requires Layout.CleanDirectory(data, at, left)
    decreases left
  {
    if left == 0 then []
    else
      var next := at + Layout.CentralSize(data, at);
      [Slice(data, at, next)] + SplitDirectory(data, next, left - 1)
  }

  lemma SplitStep(data: seq<Byte>, at: nat, left: nat, next: nat)
    requires Layout.CleanDirectory(data, at, left) && left > 0 && Layout.HeaderAt(data, at)
    requires next == at + Layout.CentralSize(data, at) && Layout.CleanDirectory(data, next, left - 1)
    ensures SplitDirectory(data, at, left) == [Slice(data, at, next)] + SplitDirectory(data, next, left - 1)
  {
    hide Layout.CleanEntry;
  }

  lemma LocalsStep(data: seq<Byte>, at: nat, left: nat, next: nat, bound: nat)
    requires Layout.CleanDirectory(data, at, left) && left > 0 && Layout.HeaderAt(data, at)
    requires next == at + Layout.CentralSize(data, at) && Layout.CleanDirectory(data, next, left - 1)
    ensures LocalsBefore(data, at, left, bound) <==> Read32(data, at + 42) <= bound && LocalsBefore(data, next, left - 1, bound)
  {
    hide Layout.CleanEntry;
  }

  lemma SplitNone(data: seq<Byte>, at: nat)
    ensures Layout.CleanDirectory(data, at, 0) && SplitDirectory(data, at, 0) == [] && Flat([]) == []
    ensures forall bound :: LocalsBefore(data, at, 0, bound)
  {}

  /** The records of a clean directory, put together again, are its bytes. */
  lemma {:induction false} SplitRejoins(data: seq<Byte>, at: nat, left: nat, bound: nat)
    requires Layout.CleanDirectory(data, at, left) && DirectoryEnd(data, at, left) <= |data|
    ensures var records := SplitDirectory(data, at, left);
            && |records| == left
            && Flat(records) == data[at..DirectoryEnd(data, at, left)]
            && (forall r | r in records :: RecordBytes(r))
            && (LocalsBefore(data, at, left, bound) <==> forall r | r in records :: LocalOf(r) <= bound)
    decreases left
  {
    hide *;
    if left == 0 {
      NothingLeft(data, at, []);
      SplitNone(data, at);
    } else {
      var next := CleanStep(data, at, left);
      SplitStep(data, at, left, next);
      LocalsStep(data, at, left, next, bound);
      var rest := SplitDirectory(data, next, left - 1);
      SplitRejoins(data, next, left - 1, bound);
      SliceIsRecord(data, at);
      FlatOne(data[at..next], rest);
      SlicesJoin(data, at, next, DirectoryEnd(data, at, left));
      LocalsOfFirst(data[at..next], rest, bound);
    }
  }

  lemma LocalsOfFirst(first: seq<Byte>, rest: seq<seq<Byte>>, bound: nat)
    requires RecordBytes(first) && forall r | r in rest :: RecordBytes(r)
    ensures var records := [first] + rest;
            && (forall r | r in records :: RecordBytes(r))
            && ((forall r | r in records :: LocalOf(r) <= bound)
                  <==> LocalOf(first) <= bound && forall r | r in rest :: LocalOf(r) <= bound)
  {
    hide RecordBytes, LocalOf;
    assert first in [first] + rest;
    assert forall r | r in rest :: r in [first] + rest;
  }

  lemma SlicesJoin(data: seq<Byte>, i: nat, j: nat, k: nat)
    requires i <= j <= k <= |data|
    ensures data[i..j] + data[j..k] == data[i..k]
  {}

  lemma FlatOne(first: seq<Byte>, rest: seq<seq<Byte>>)
    ensures Flat([first] + rest) == first + Flat(rest)
  {
    assert ([first] + rest)[1..] == rest;
  }

  lemma SliceIsRecord(data: seq<Byte>, at: nat)
    requires Layout.HeaderAt(data, at) && at + Layout.CentralSize(data, at) <= |data|
    ensures RecordBytes(data[at..at + Layout.CentralSize(data, at)])
    ensures LocalOf(data[at..at + Layout.CentralSize(data, at)]) == Read32(data, at + 42)
  {
    var record := data[at..at + Layout.CentralSize(data, at)];
    assert Holds(data, at, record);
    HeaderReads(data, at, record);
  }

  /** The archive accepted bytes spell. */
  function Decode(data: seq<Byte>): Archive
    requires InOneDirectory(data)
  {
    Archive(data[..CdOffset(data)],
            SplitDirectory(data, CdOffset(data), Total(data)),
            Disk(data), CdDisk(data), [])
  }

  lemma EndRepacks(data: seq<Byte>)
    requires |data| >= END_SIZE && MarkerAt(data, |data| - END_SIZE, END_MARKER)
    requires CommentLength(data) == 0
    ensures PackEnd(Disk(data), CdDisk(data), OnDisk(data), Total(data), CdSize(data), CdOffset(data), 0)
         == data[|data| - END_SIZE..]
  {
    var e := |data| - END_SIZE;
    PackReads16(data, e + 4);
    PackReads16(data, e + 6);
    PackReads16(data, e + 8);
    PackReads16(data, e + 10);
    PackReads32(data, e + 12);
    PackReads32(data, e + 16);
    PackReads16(data, e + 20);
    hide Read16, Read32, Pack16, Pack32;
    assert data[e..e + 4] == END_MARKER;
    EightParts(data, e);
  }

  lemma EightParts(data: seq<Byte>, e: nat)
    requires e + END_SIZE == |data|
    ensures data[e..e + 4] + data[e + 4..e + 6] + data[e + 6..e + 8] + data[e + 8..e + 10] + data[e + 10..e + 12]
            + data[e + 12..e + 16] + data[e + 16..e + 20] + data[e + 20..e + 22] == data[e..]
  {
    SlicesJoin(data, e, e + 4, e + 6);
    SlicesJoin(data, e, e + 6, e + 8);
    SlicesJoin(data, e, e + 8, e + 10);
    SlicesJoin(data, e, e + 10, e + 12);
    SlicesJoin(data, e, e + 12, e + 16);
    SlicesJoin(data, e, e + 16, e + 20);
    SlicesJoin(data, e, e + 20, e + 22);
  }

  lemma CompleteFacts(data: seq<Byte>)
    requires InOneDirectory(data) && Complete(data)
    ensures CommentLength(data) == 0 && OnDisk(data) == Total(data)
    ensures CdOffset(data) + CdSize(data) == |data| - END_SIZE == DirectoryEnd(data, CdOffset(data), Total(data))
    ensures LocalsBefore(data, CdOffset(data), Total(data), CdOffset(data))
  {
    hide Layout.CleanDirectory, DirectoryEnd, LocalsBefore;
  }

  lemma DecodedRecords(data: seq<Byte>)
    requires InOneDirectory(data) && Complete(data)
    ensures var a := Decode(data); var to := |data| - END_SIZE;
            && Fits(a) && |a.records| == Total(data) && |a.locals| == CdOffset(data) && |Flat(a.records)| == CdSize(data)
            && a.locals == data[..CdOffset(data)] && CdOffset(data) <= to && Flat(a.records) == data[CdOffset(data)..to]
            && forall r | r in a.records :: RecordBytes(r) && LocalOf(r) <= CdOffset(data)
  {
    hide Layout.CleanDirectory, RecordBytes, Flat, SplitDirectory, LocalOf, DirectoryEnd, LocalsBefore, Complete;
    hide Disk, CdDisk, OnDisk, Total, CdSize, CdOffset, CommentLength;
    CompleteFacts(data);
    SplitRejoins(data, CdOffset(data), Total(data), CdOffset(data));
  }

  lemma DecodedTail(data: seq<Byte>)
    requires Accepted(data) && InOneDirectory(data) && Complete(data)
    ensures Fits(Decode(data)) && Tail(Decode(data)) == data[|data| - END_SIZE..]
  {
    hide *;
    AcceptedFacts(data);
    CompleteFacts(data);
    DecodedRecords(data);
    EndRepacks(data);
    DecodedFields(data);
    TailParts(Decode(data));
    assert data[|data| - END_SIZE..] + [] == data[|data| - END_SIZE..];
  }

  lemma DecodedFields(data: seq<Byte>)
    requires InOneDirectory(data)
    ensures Decode(data).disk == Disk(data) && Decode(data).cdDisk == CdDisk(data) && Decode(data).comment == []
  {}

  lemma TailParts(a: Archive)
    requires Fits(a)
    ensures Tail(a) == PackEnd(a.disk, a.cdDisk, |a.records|, |a.records|, |Flat(a.records)|, |a.locals|, |a.comment|)
                       + a.comment
  {}

  lemma EncodedParts(a: Archive)
    requires Fits(a)
    ensures Encode(a) == a.locals + Flat(a.records) + Tail(a)
  {}

  /** Accepted and complete bytes are the bytes of a well-formed archive with no comment. */
  lemma CompleteIsArchive(data: seq<Byte>)
    requires Accepted(data) && InOneDirectory(data) && Complete(data)
    ensures WellFormed(Decode(data)) && Decode(data).comment == [] && Encode(Decode(data)) == data
  {
    hide Accepted, Complete, InOneDirectory, RecordBytes, LocalOf, Fits, Encode, Flat, Tail, SplitDirectory;
    var to := |data| - END_SIZE;
    DecodedRecords(data);
    DecodedTail(data);
    EncodedParts(Decode(data));
    SlicesJoin(data, 0, CdOffset(data), to);
    SlicesJoin(data, 0, to, |data|);
  }

  lemma CleanNames(blob: seq<Byte>, at: nat, records: seq<seq<Byte>>)
    requires forall r | r in records :: RecordBytes(r)
    requires Holds(blob, at, Flat(records)) && Layout.CleanDirectory(blob, at, |records|)
    ensures forall r | r in records :: NameOf(r) != SIGNATURE_ENTRY
  {
    hide *;
    WalkReadsBack(blob, at, records);
    CleanWalk(blob, at, |records|, []);
    var infos := Infos(records, at);
    forall r | r in records ensures NameOf(r) != SIGNATURE_ENTRY {
      var i :| 0 <= i < |records| && records[i] == r;
      InfosAt(records, at, i);
      assert infos[i] in infos;
    }
  }

  /** An accepted archive carries no signature, and its tail spells the end marker once. */
  lemma AcceptedCarriesNone(a: Archive)
    requires WellFormed(a) && a.comment == [] && Accepted(Encode(a))
    ensures NoSignature(a) && !SecondMarker(Tail(a))
  {
    hide Accepted, SecondMarker, Tail, Flat, LastMarker, MarkerAt, Layout.CleanDirectory, Fits, RecordBytes, ReadEnd;
    hide Encode, NameOf, LocalOf, Disk, CdDisk, OnDisk, Total, CdSize, CdOffset, CommentLength;
    var blob := Encode(a);
    AcceptedFacts(blob);
    EncodedParts(a);
    SliceMiddle(a.locals, Flat(a.records), Tail(a));
    LastMarkerReadsBack(a);
    if !SecondMarker(Tail(a)) {
      ReadEndReadsBack(a);
      EndReadHere(blob);
      CleanNames(blob, |a.locals|, a.records);
    }
  }
}
