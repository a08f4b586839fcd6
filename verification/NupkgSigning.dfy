/**
  The archives nuget.org signs, the signer as NuGet defines it, and what undoing the signature gives back.

  An archive is its local entries, its central directory records and its end record. Signing adds one entry behind the
  last one in both places. The theorems say what `Unsigned` answers for the bytes of every such archive.
*/
module NupkgSigning {
  import opened Outcomes
  import opened Bytes
  import opened NupkgUnsign

  datatype Archive = Archive(locals: seq<Byte>, records: seq<seq<Byte>>, disk: nat, cdDisk: nat, comment: seq<Byte>)

  // ---------------------------------------------------------------- the format

  /** One central directory record: its header, then the name, extra field and comment the header measures. */
  predicate RecordBytes(record: seq<Byte>) {
    && |record| >= CENTRAL_SIZE
    && MarkerAt(record, 0, CENTRAL_MARKER)
    && |record| == CENTRAL_SIZE + Read16(record, 28) + Read16(record, 30) + Read16(record, 32)
  }

  function NameOf(record: seq<Byte>): seq<Byte>
    requires RecordBytes(record)
  {
    record[CENTRAL_SIZE..CENTRAL_SIZE + Read16(record, 28)]
  }

  function LocalOf(record: seq<Byte>): Word32
    requires RecordBytes(record)
  {
    Read32(record, 42)
  }

  function Flat(records: seq<seq<Byte>>): seq<Byte> {
    if records == [] then [] else records[0] + Flat(records[1..])
  }

  /** Every figure the end record states fits its field. */
  predicate Fits(a: Archive) {
    && |a.records| < 0x1_0000 && a.disk < 0x1_0000 && a.cdDisk < 0x1_0000 && |a.comment| < 0x1_0000
    && |Flat(a.records)| < 0x1_0000_0000 && |a.locals| < 0x1_0000_0000
  }

  predicate WellFormed(a: Archive) {
    && Fits(a)
    && (forall r | r in a.records :: RecordBytes(r))
    && (forall r | r in a.records :: LocalOf(r) <= |a.locals|)
  }

  /** The end record with the archive comment behind it. */
  function Tail(a: Archive): (t: seq<Byte>)
    requires Fits(a)
    ensures |t| == END_SIZE + |a.comment|
  {
    PackEnd(a.disk, a.cdDisk, |a.records|, |a.records|, |Flat(a.records)|, |a.locals|, |a.comment|) + a.comment
  }

  /** What the end record of the archive says, and where it stands. */
  function EndOf(a: Archive): EndRecord {
    EndRecord(|a.locals| + |Flat(a.records)|, a.disk, a.cdDisk, |a.records|, |a.records|, |Flat(a.records)|, |a.locals|)
  }

  function Encode(a: Archive): seq<Byte>
    requires Fits(a)
  {
    a.locals + Flat(a.records) + Tail(a)
  }

  /** The tail spells the end record's marker a second time, which is the one rfind would find. */
  ghost predicate SecondMarker(tail: seq<Byte>) {
    exists i: nat :: 0 < i && MarkerAt(tail, i, END_MARKER)
  }

  ghost predicate NoSignature(a: Archive)
    requires WellFormed(a)
  {
    forall r | r in a.records :: NameOf(r) != SIGNATURE_ENTRY
  }

  /** Record k is the one signature entry of the directory. */
  ghost predicate OneSignature(a: Archive, k: nat)
    requires WellFormed(a)
  {
    && k < |a.records|
    && NameOf(a.records[k]) == SIGNATURE_ENTRY
    && forall i | 0 <= i < |a.records| && i != k :: NameOf(a.records[i]) != SIGNATURE_ENTRY
  }

  /** No entry starts behind the signature's. */
  ghost predicate LastLocal(a: Archive, k: nat)
    requires WellFormed(a) && k < |a.records|
  {
    forall r | r in a.records :: LocalOf(r) <= LocalOf(a.records[k])
  }

  // ---------------------------------------------------------------- the signer

  /** A signature entry made for `a`: a local entry, and the record that names it and says where it starts. */
  predicate SignatureEntry(a: Archive, local: seq<Byte>, record: seq<Byte>) {
    RecordBytes(record) && NameOf(record) == SIGNATURE_ENTRY && LocalOf(record) == |a.locals|
  }

  function Sign(a: Archive, local: seq<Byte>, record: seq<Byte>): Archive {
    a.(locals := a.locals + local, records := a.records + [record])
  }

  /** The archive with record k and everything from its local header on taken out. */
  function Without(a: Archive, k: nat): Archive
    requires WellFormed(a) && k < |a.records|
  {
    a.(locals := a.locals[..LocalOf(a.records[k])], records := a.records[..k] + a.records[k + 1..])
  }

  // ---------------------------------------------------------------- the directory, read back

  lemma {:induction false} FlatConcat(a: seq<seq<Byte>>, b: seq<seq<Byte>>)
    ensures Flat(a + b) == Flat(a) + Flat(b)
  {
    if a == [] {
      assert a + b == b;
    } else {
      assert (a + b)[1..] == a[1..] + b;
      FlatConcat(a[1..], b);
    }
  }

  lemma FlatHead(records: seq<seq<Byte>>)
    requires records != []
    ensures Flat(records) == records[0] + Flat(records[1..])
  {}

  /** The directory split around record k. */
  lemma FlatAround(records: seq<seq<Byte>>, k: nat)
    requires k < |records|
    ensures Flat(records) == Flat(records[..k]) + records[k] + Flat(records[k + 1..])
    ensures Flat(records[..k] + records[k + 1..]) == Flat(records[..k]) + Flat(records[k + 1..])
  {
    hide Flat;
    FlatConcat(records[..k], records[k..]);
    assert records == records[..k] + records[k..];
    assert records[k..][1..] == records[k + 1..];
    FlatHead(records[k..]);
    FlatConcat(records[..k], records[k + 1..]);
    JoinThree(Flat(records[..k]), records[k], Flat(records[k + 1..]));
  }

  /** What the walk should keep of these records when the first one starts at `at`. */
  function Infos(records: seq<seq<Byte>>, at: nat): (infos: seq<Record>)
    requires forall r | r in records :: RecordBytes(r)
    ensures |infos| == |records|
  {
    if records == [] then []
    else [Record(NameOf(records[0]), at, |records[0]|, LocalOf(records[0]))] + Infos(records[1..], at + |records[0]|)
  }

  lemma {:induction false} InfosAt(records: seq<seq<Byte>>, at: nat, i: nat)
    requires forall r | r in records :: RecordBytes(r)
    requires i < |records|
    ensures Infos(records, at)[i]
         == Record(NameOf(records[i]), at + |Flat(records[..i])|, |records[i]|, LocalOf(records[i]))
  {
    if i == 0 {
    } else {
      InfosAt(records[1..], at + |records[0]|, i - 1);
      assert records[..i][1..] == records[1..][..i - 1];
    }
  }

  lemma RecordAtReads(blob: seq<Byte>, at: nat, record: seq<Byte>)
    requires RecordBytes(record) && Holds(blob, at, record)
    ensures NextRecord(blob, at) == Success(Record(NameOf(record), at, |record|, LocalOf(record)))
  {
    HeaderReads(blob, at, record);
    NameReads(blob, at, record);
  }

  lemma HeaderReads(blob: seq<Byte>, at: nat, record: seq<Byte>)
    requires |record| >= CENTRAL_SIZE && Holds(blob, at, record)
    ensures MarkerAt(blob, at, CENTRAL_MARKER) == MarkerAt(record, 0, CENTRAL_MARKER)
    ensures Read16(blob, at + 28) == Read16(record, 28) && Read16(blob, at + 30) == Read16(record, 30)
    ensures Read16(blob, at + 32) == Read16(record, 32) && Read32(blob, at + 42) == Read32(record, 42)
  {
  }

  lemma NameReads(blob: seq<Byte>, at: nat, record: seq<Byte>)
    requires RecordBytes(record) && Holds(blob, at, record)
    ensures Slice(blob, at + CENTRAL_SIZE, at + CENTRAL_SIZE + |NameOf(record)|) == NameOf(record)
  {
    var from, size := at + CENTRAL_SIZE, |NameOf(record)|;
    forall i | 0 <= i < size ensures blob[from + i] == NameOf(record)[i] {
      assert record[CENTRAL_SIZE + i] == NameOf(record)[i];
    }
    assert blob[from..from + size] == NameOf(record);
  }

  /** The walk, started at `at`, reads these records one after the other and stands at `end` behind them. */
  predicate Steps(blob: seq<Byte>, at: nat, infos: seq<Record>, end: nat)
    decreases |infos|
  {
    if infos == [] then at == end
    else NextRecord(blob, at) == Success(infos[0]) && Steps(blob, at + infos[0].size, infos[1..], end)
  }

  lemma {:induction false} StepsOfDirectory(blob: seq<Byte>, at: nat, records: seq<seq<Byte>>)
    requires forall r | r in records :: RecordBytes(r)
    requires Holds(blob, at, Flat(records))
    ensures Steps(blob, at, Infos(records, at), at + |Flat(records)|)
    decreases |records|
  {
    hide NextRecord, Holds, RecordBytes, NameOf, LocalOf;
    if records == [] {
    } else {
      HoldsSplit(blob, at, records[0], Flat(records[1..]));
      RecordAtReads(blob, at, records[0]);
      StepsOfDirectory(blob, at + |records[0]|, records[1..]);
      assert Infos(records, at)[1..] == Infos(records[1..], at + |records[0]|);
    }
  }

  lemma WalkOne(blob: seq<Byte>, at: nat, left: nat, read: seq<Record>, info: Record)
    requires left > 0 && NextRecord(blob, at) == Success(info)
    ensures Walk(blob, at, left, read) == Walk(blob, at + info.size, left - 1, read + [info])
  {
    hide NextRecord;
  }

  lemma {:induction false} WalkFollows(blob: seq<Byte>, at: nat, infos: seq<Record>, end: nat, read: seq<Record>)
    requires Steps(blob, at, infos, end)
    ensures Walk(blob, at, |infos|, read) == Success(Directory(read + infos, end))
    decreases |infos|
  {
    if infos == [] {
      assert read + infos == read;
    } else {
      var first, rest := infos[0], infos[1..];
      assert (read + [first]) + rest == read + infos;
      WalkFollows(blob, at + first.size, rest, end, read + [first]);
      WalkOne(blob, at, |infos|, read, first);
    }
  }

  /** The walk reads back exactly the records the directory was made of, in order. */
  lemma WalkReadsBack(blob: seq<Byte>, at: nat, records: seq<seq<Byte>>)
    requires forall r | r in records :: RecordBytes(r)
    requires Holds(blob, at, Flat(records))
    ensures Walk(blob, at, |records|, []) == Success(Directory(Infos(records, at), at + |Flat(records)|))
  {
    hide *;
    var infos, end := Infos(records, at), at + |Flat(records)|;
    assert Steps(blob, at, infos, end) by {
      StepsOfDirectory(blob, at, records);
    }
    WalkFollows(blob, at, infos, end, []);
    assert [] + infos == infos;
  }

  /** The last marker of what ends in a tail, when the tail spells it once, and when it spells it again. */
  lemma LastMarkerOfTail(front: seq<Byte>, tail: seq<Byte>)
    requires MarkerAt(tail, 0, END_MARKER)
    ensures !SecondMarker(tail) ==> LastMarker(front + tail, END_MARKER) == |front|
    ensures SecondMarker(tail) ==> LastMarker(front + tail, END_MARKER) > |front|
  {
    var blob := front + tail;
    assert forall i | 0 <= i < |tail| :: blob[|front| + i] == tail[i];
    assert forall i: nat :: MarkerAt(blob, |front| + i, END_MARKER) <==> MarkerAt(tail, i, END_MARKER);
    var last := LastMarker(blob, END_MARKER);
    assert MarkerAt(blob, |front| + 0, END_MARKER);
    if SecondMarker(tail) {
      var i: nat :| 0 < i && MarkerAt(tail, i, END_MARKER);
      assert MarkerAt(blob, |front| + i, END_MARKER);
    } else {
      assert MarkerAt(tail, last - |front|, END_MARKER);
    }
  }

  lemma TailMarker(a: Archive)
    requires Fits(a)
    ensures MarkerAt(Tail(a), 0, END_MARKER)
  {
    var packed := PackEnd(a.disk, a.cdDisk, |a.records|, |a.records|, |Flat(a.records)|, |a.locals|, |a.comment|);
    assert forall i | 0 <= i < 4 :: Tail(a)[i] == packed[..4][i];
  }

  lemma LastMarkerReadsBack(a: Archive)
    requires Fits(a)
    ensures !SecondMarker(Tail(a)) ==> LastMarker(Encode(a), END_MARKER) == |a.locals| + |Flat(a.records)|
    ensures SecondMarker(Tail(a)) ==> LastMarker(Encode(a), END_MARKER) > |a.locals| + |Flat(a.records)|
  {
    hide PackEnd, Flat, SecondMarker, MarkerAt, Tail, LastMarker;
    TailMarker(a);
    LastMarkerOfTail(a.locals + Flat(a.records), Tail(a));
  }

  /** rfind lands on the end record the archive was written with, unless the tail spells the marker again. */
  lemma ReadEndReadsBack(a: Archive)
    requires Fits(a) && !SecondMarker(Tail(a))
    ensures ReadEnd(Encode(a)) == Success(EndOf(a))
  {
    var blob, at, tail := Encode(a), |a.locals| + |Flat(a.records)|, Tail(a);
    LastMarkerReadsBack(a);
    var packed := PackEnd(a.disk, a.cdDisk, |a.records|, |a.records|, |Flat(a.records)|, |a.locals|, |a.comment|);
    assert blob[at..at + END_SIZE] == tail[..END_SIZE] == packed;
    EndFields(blob, at, packed);
  }

  lemma EndFields(blob: seq<Byte>, at: nat, packed: seq<Byte>)
    requires |packed| == END_SIZE && Holds(blob, at, packed)
    ensures MarkerAt(blob, at, END_MARKER) == MarkerAt(packed, 0, END_MARKER)
    ensures Read16(blob, at + 4) == Read16(packed, 4) && Read16(blob, at + 6) == Read16(packed, 6)
    ensures Read16(blob, at + 8) == Read16(packed, 8) && Read16(blob, at + 10) == Read16(packed, 10)
    ensures Read32(blob, at + 12) == Read32(packed, 12) && Read32(blob, at + 16) == Read32(packed, 16)
    ensures Read16(blob, at + 20) == Read16(packed, 20)
  {
  }

  /** Without a comment, a second marker always leaves less than an end record behind it: the archive is refused. */
  lemma SecondMarkerRefused(a: Archive)
    requires Fits(a) && a.comment == [] && SecondMarker(Tail(a))
    ensures Unsigned(Encode(a)) == Failure(NoEndRecord)
  {
    hide Walk, UnsignedRecords, PackEnd, LastMarker, SecondMarker;
    LastMarkerReadsBack(a);
  }

  // ---------------------------------------------------------------- which records are signatures

  lemma {:induction false} NoSignaturesFound(records: seq<seq<Byte>>, at: nat)
    requires forall r | r in records :: RecordBytes(r) && NameOf(r) != SIGNATURE_ENTRY
    ensures Signatures(Infos(records, at)) == []
  {
    if records == [] {
    } else {
      NoSignaturesFound(records[1..], at + |records[0]|);
      assert Infos(records, at)[1..] == Infos(records[1..], at + |records[0]|);
    }
  }

  lemma {:induction false} OneSignatureFound(records: seq<seq<Byte>>, at: nat, k: nat)
    requires forall r | r in records :: RecordBytes(r)
    requires k < |records| && NameOf(records[k]) == SIGNATURE_ENTRY
    requires forall i | 0 <= i < |records| && i != k :: NameOf(records[i]) != SIGNATURE_ENTRY
    ensures Signatures(Infos(records, at)) == [Infos(records, at)[k]]
  {
    var infos, rest := Infos(records, at), Infos(records[1..], at + |records[0]|);
    assert infos[1..] == rest;
    if k == 0 {
      forall r | r in records[1..] ensures NameOf(r) != SIGNATURE_ENTRY {
        var i :| 0 <= i < |records[1..]| && records[1..][i] == r;
        assert records[i + 1] == r;
      }
      NoSignaturesFound(records[1..], at + |records[0]|);
    } else {
      assert forall i | 0 <= i < |records[1..]| && i != k - 1 :: records[1..][i] == records[i + 1];
      OneSignatureFound(records[1..], at + |records[0]|, k - 1);
      assert rest[k - 1] == infos[k];
    }
  }

  lemma {:induction false} TwoSignaturesFound(records: seq<seq<Byte>>, at: nat, j: nat, k: nat)
    requires forall r | r in records :: RecordBytes(r)
    requires j < k < |records| && NameOf(records[j]) == NameOf(records[k]) == SIGNATURE_ENTRY
    ensures |Signatures(Infos(records, at))| > 1
  {
    assert Infos(records, at)[1..] == Infos(records[1..], at + |records[0]|);
    if j == 0 {
      SomeSignatureFound(records[1..], at + |records[0]|, k - 1);
    } else {
      TwoSignaturesFound(records[1..], at + |records[0]|, j - 1, k - 1);
    }
  }

  lemma {:induction false} SomeSignatureFound(records: seq<seq<Byte>>, at: nat, k: nat)
    requires forall r | r in records :: RecordBytes(r)
    requires k < |records| && NameOf(records[k]) == SIGNATURE_ENTRY
    ensures |Signatures(Infos(records, at))| > 0
  {
    assert Infos(records, at)[1..] == Infos(records[1..], at + |records[0]|);
    if k == 0 {
    } else {
      SomeSignatureFound(records[1..], at + |records[0]|, k - 1);
    }
  }

  // ---------------------------------------------------------------- what unsigning answers

  lemma {:induction false} InfosSize(records: seq<seq<Byte>>, at: nat)
    requires forall r | r in records :: RecordBytes(r)
    ensures forall e | e in Infos(records, at) :: e.size <= |Flat(records)|
    decreases |records|
  {
    if records == [] {
    } else {
      InfosSize(records[1..], at + |records[0]|);
    }
  }

  lemma UnsignedReads(a: Archive)
    requires WellFormed(a) && !SecondMarker(Tail(a))
    requires var infos := Infos(a.records, |a.locals|);
             ReadEnd(Encode(a)) == Success(EndOf(a)) && forall e | e in infos :: e.size <= |Flat(a.records)|
    ensures Unsigned(Encode(a)) == UnsignedRecords(Encode(a), EndOf(a), Infos(a.records, |a.locals|))
  {
    WalkReadsBack(Encode(a), |a.locals|, a.records);
  }

  lemma UnsignedWithoutSignature(a: Archive)
    requires WellFormed(a) && NoSignature(a) && !SecondMarker(Tail(a))
    ensures Unsigned(Encode(a)) == Success(Encode(a))
  {
    ReadEndReadsBack(a);
    InfosSize(a.records, |a.locals|);
    UnsignedReads(a);
    NoSignaturesFound(a.records, |a.locals|);
  }

  lemma UnsignedWithSeveral(a: Archive, j: nat, k: nat)
    requires WellFormed(a) && !SecondMarker(Tail(a))
    requires j < k < |a.records| && NameOf(a.records[j]) == NameOf(a.records[k]) == SIGNATURE_ENTRY
    ensures Unsigned(Encode(a)) == Failure(SeveralSignatures)
  {
    ReadEndReadsBack(a);
    InfosSize(a.records, |a.locals|);
    UnsignedReads(a);
    TwoSignaturesFound(a.records, |a.locals|, j, k);
  }

  /** The kept directory is the signed one without the bytes of record k. */
  lemma DirectoryKept(a: Archive, k: nat)
    requires WellFormed(a) && k < |a.records|
    ensures var (blob, cd, at) := (Encode(a), |a.locals|, |a.locals| + |Flat(a.records[..k])|);
            && Slice(blob, cd, at) + Slice(blob, at + |a.records[k]|, cd + |Flat(a.records)|) == Flat(Without(a, k).records)
    ensures |Flat(Without(a, k).records)| == |Flat(a.records)| - |a.records[k]|
  {
    hide PackEnd, Tail, Slice, RecordBytes, LocalOf, Flat, Fits;
    var before, record, after := Flat(a.records[..k]), a.records[k], Flat(a.records[k + 1..]);
    FlatAround(a.records, k);
    CutOut(a.locals, before, record, after, Tail(a));
  }

  lemma CutOut(a: seq<Byte>, b: seq<Byte>, c: seq<Byte>, d: seq<Byte>, e: seq<Byte>)
    ensures var all := a + (b + c + d) + e;
            && Slice(all, |a|, |a| + |b|) == b
            && Slice(all, |a| + |b| + |c|, |a| + |b + c + d|) == d
  {
    assert a + (b + c + d) + e == a + b + (c + d + e);
    SliceMiddle(a, b, c + d + e);
    assert a + (b + c + d) + e == (a + b + c) + d + e;
    SliceMiddle(a + b + c, d, e);
  }

  lemma LocalOrder(a: Archive, k: nat)
    requires WellFormed(a) && k < |a.records|
    ensures var infos := Infos(a.records, |a.locals|);
            LastLocal(a, k) <==> !exists e | e in infos :: e.localAt > infos[k].localAt
  {
    var infos := Infos(a.records, |a.locals|);
    forall i | 0 <= i < |infos| ensures infos[i].localAt == LocalOf(a.records[i]) {
      InfosAt(a.records, |a.locals|, i);
    }
    if LastLocal(a, k) {
      assert forall e | e in infos :: e.localAt <= infos[k].localAt;
    } else {
      var i :| 0 <= i < |a.records| && LocalOf(a.records[i]) > LocalOf(a.records[k]);
      assert infos[i] in infos;
    }
  }

  lemma WithoutFits(a: Archive, k: nat)
    requires WellFormed(a) && k < |a.records|
    ensures Fits(Without(a, k))
  {
    FlatAround(a.records, k);
  }

  /** The end record written behind the kept directory is the one the kept archive is encoded with. */
  lemma TailKept(a: Archive, k: nat)
    requires WellFormed(a) && k < |a.records| && Fits(Without(a, k)) && |a.records[k]| <= |Flat(a.records)|
    ensures Tail(Without(a, k))
         == PackEnd(a.disk, a.cdDisk, |a.records| - 1, |a.records| - 1, |Flat(a.records)| - |a.records[k]|,
                    LocalOf(a.records[k]), |a.comment|) + a.comment
  {
    KeptFigures(a, k);
    DirectoryKept(a, k);
    hide PackEnd, Encode, Flat, RecordBytes, Read16, Read32, WellFormed, Without, Fits, LocalOf;
  }

  lemma KeptFigures(a: Archive, k: nat)
    requires WellFormed(a) && k < |a.records|
    ensures |Without(a, k).records| == |a.records| - 1 && |Without(a, k).locals| == LocalOf(a.records[k])
    ensures Without(a, k).disk == a.disk && Without(a, k).cdDisk == a.cdDisk && Without(a, k).comment == a.comment
  {
    hide Flat, RecordBytes, Fits;
  }

  lemma StripGives(a: Archive, k: nat)
    requires WellFormed(a) && k < |a.records| && Fits(Without(a, k)) && |a.records[k]| <= |Flat(a.records)|
    requires EndOf(a).at + END_SIZE <= |Encode(a)|
    ensures Strip(Encode(a), EndOf(a),
                  Record(NameOf(a.records[k]), |a.locals| + |Flat(a.records[..k])|, |a.records[k]|, LocalOf(a.records[k])))
         == Success(Encode(Without(a, k)))
  {
    hide PackEnd, Tail, Flat, RecordBytes, Read16, Read32, Slice;
    var kept := Without(a, k);
    var tail := PackEnd(a.disk, a.cdDisk, |a.records| - 1, |a.records| - 1, |Flat(a.records)| - |a.records[k]|,
                        LocalOf(a.records[k]), |a.comment|);
    CommentReads(a);
    DirectoryKept(a, k);
    TailKept(a, k);
    assert Slice(Encode(a), 0, LocalOf(a.records[k])) == kept.locals by {
      SliceMiddle([], kept.locals, Encode(a)[LocalOf(a.records[k])..]);
      assert [] + kept.locals + Encode(a)[LocalOf(a.records[k])..] == Encode(a);
    }
    Regroup(kept.locals, Flat(kept.records), tail, a.comment);
  }

  lemma CommentReads(a: Archive)
    requires WellFormed(a)
    ensures EndOf(a).at + END_SIZE <= |Encode(a)|
    ensures Read16(Encode(a), EndOf(a).at + 20) == |a.comment|
    ensures Encode(a)[EndOf(a).at + END_SIZE..] == a.comment
  {
    var packed := PackEnd(a.disk, a.cdDisk, |a.records|, |a.records|, |Flat(a.records)|, |a.locals|, |a.comment|);
    assert Encode(a) == (a.locals + Flat(a.records)) + packed + a.comment;
    assert Holds(Encode(a), EndOf(a).at, packed);
    EndFields(Encode(a), EndOf(a).at, packed);
  }

  lemma Regroup(a: seq<Byte>, b: seq<Byte>, c: seq<Byte>, d: seq<Byte>)
    ensures a + b + c + d == a + b + (c + d)
  {}

  lemma UnsignedPicksOne(a: Archive, k: nat)
    requires WellFormed(a) && OneSignature(a, k) && !SecondMarker(Tail(a))
    ensures Infos(a.records, |a.locals|)[k].size <= |Flat(a.records)|
    ensures EndOf(a).at + END_SIZE <= |Encode(a)|
    ensures Unsigned(Encode(a)) == if LastLocal(a, k) then Strip(Encode(a), EndOf(a), Infos(a.records, |a.locals|)[k])
                                   else Failure(SignatureNotLast)
  {
    ReadEndReadsBack(a);
    InfosSize(a.records, |a.locals|);
    UnsignedReads(a);
    OneSignatureFound(a.records, |a.locals|, k);
    LocalOrder(a, k);
    assert Infos(a.records, |a.locals|)[k] in Infos(a.records, |a.locals|);
  }

  /** One signature, and it is the last local entry: exactly it is removed. Otherwise the archive is refused. */
  lemma UnsignedWithOne(a: Archive, k: nat)
    requires WellFormed(a) && OneSignature(a, k) && !SecondMarker(Tail(a))
    ensures Fits(Without(a, k))
    ensures Unsigned(Encode(a)) == if LastLocal(a, k) then Success(Encode(Without(a, k))) else Failure(SignatureNotLast)
  {
    hide Infos, Strip, Encode, PackEnd, Unsigned;
    UnsignedPicksOne(a, k);
    InfosAt(a.records, |a.locals|, k);
    WithoutFits(a, k);
    StripGives(a, k);
  }

  // ---------------------------------------------------------------- the theorems

  lemma SignedShape(a: Archive, local: seq<Byte>, record: seq<Byte>)
    requires WellFormed(a) && NoSignature(a) && SignatureEntry(a, local, record) && Fits(Sign(a, local, record))
    ensures var signed := Sign(a, local, record);
            && WellFormed(signed)
            && OneSignature(signed, |a.records|)
            && LastLocal(signed, |a.records|)
            && Without(signed, |a.records|) == a
  {
    hide Fits, RecordBytes, Flat, NameOf, LocalOf;
    var signed := Sign(a, local, record);
    forall r | r in signed.records
      ensures RecordBytes(r) && LocalOf(r) <= |a.locals|
    {
      assert r in a.records || r == record;
    }
    assert WellFormed(signed);
    forall i | 0 <= i < |a.records| ensures NameOf(signed.records[i]) != SIGNATURE_ENTRY {
      assert signed.records[i] == a.records[i] && a.records[i] in a.records;
    }
    assert signed.locals[..|a.locals|] == a.locals;
    assert signed.records[..|a.records|] + signed.records[|a.records| + 1..] == a.records;
  }

  /**
    Unsigning undoes signing. Whatever archive is signed, and whatever the signature's entry holds, the bytes that come
    back are the ones that were signed, unless the signed tail spells the end marker a second time.
  */
  lemma UnsignInvertsSign(a: Archive, local: seq<Byte>, record: seq<Byte>)
    requires WellFormed(a) && NoSignature(a) && SignatureEntry(a, local, record) && Fits(Sign(a, local, record))
    requires !SecondMarker(Tail(Sign(a, local, record)))
    ensures Unsigned(Encode(Sign(a, local, record))) == Success(Encode(a))
  {
    hide *;
    SignedShape(a, local, record);
    UnsignedWithOne(Sign(a, local, record), |a.records|);
  }

  /** Without an archive comment the answer is the original or a refusal, and the marker alone decides which. */
  lemma UnsignInvertsSignOrRefuses(a: Archive, local: seq<Byte>, record: seq<Byte>)
    requires WellFormed(a) && NoSignature(a) && SignatureEntry(a, local, record) && Fits(Sign(a, local, record))
    requires a.comment == []
    ensures Unsigned(Encode(Sign(a, local, record)))
         == if SecondMarker(Tail(Sign(a, local, record))) then Failure(NoEndRecord) else Success(Encode(a))
  {
    if SecondMarker(Tail(Sign(a, local, record))) {
      SecondMarkerRefused(Sign(a, local, record));
    } else {
      UnsignInvertsSign(a, local, record);
    }
  }

  /** The records of an archive as its own bytes spell them. */
  function Reparse(blob: seq<Byte>): Result<seq<seq<Byte>>, UnsignError> {
    var end :- ReadEnd(blob);
    var Directory(records, offset) :- Walk(blob, end.cdOffset, end.total, []);
    if offset != end.cdOffset + end.cdSize then Failure(WrongDirectorySize)
    else Success(RecordSlices(blob, records))
  }

  function RecordSlices(blob: seq<Byte>, records: seq<Record>): (slices: seq<seq<Byte>>)
    ensures |slices| == |records|
    ensures forall i | 0 <= i < |records| :: slices[i] == Slice(blob, records[i].at, records[i].at + records[i].size)
  {
    seq(|records|, i requires 0 <= i < |records| => Slice(blob, records[i].at, records[i].at + records[i].size))
  }

  lemma EncodedReparses(a: Archive)
    requires WellFormed(a) && !SecondMarker(Tail(a))
    ensures Reparse(Encode(a)) == Success(a.records)
  {
    hide Walk, ReadEnd, PackEnd, RecordBytes, NameOf, LocalOf, Infos, RecordSlices;
    var blob, cd := Encode(a), |a.locals|;
    ReadEndReadsBack(a);
    assert Holds(blob, cd, Flat(a.records));
    WalkReadsBack(blob, cd, a.records);
    var infos := Infos(a.records, cd);
    forall i | 0 <= i < |a.records|
      ensures Slice(blob, infos[i].at, infos[i].at + infos[i].size) == a.records[i]
    {
      hide Encode, Slice, Flat;
      InfosAt(a.records, cd, i);
      RecordStands(a, i);
    }
    assert RecordSlices(blob, infos) == a.records;
  }

  lemma RecordStands(a: Archive, k: nat)
    requires WellFormed(a) && k < |a.records|
    ensures var at := |a.locals| + |Flat(a.records[..k])|; Slice(Encode(a), at, at + |a.records[k]|) == a.records[k]
  {
    hide PackEnd, Tail, RecordBytes, LocalOf;
    var before, record, after := Flat(a.records[..k]), a.records[k], Flat(a.records[k + 1..]);
    FlatAround(a.records, k);
    assert Encode(a) == (a.locals + before) + record + (after + Tail(a));
    SliceMiddle(a.locals + before, record, after + Tail(a));
  }

  lemma WithoutShape(a: Archive, k: nat)
    requires WellFormed(a) && OneSignature(a, k) && LastLocal(a, k)
    ensures WellFormed(Without(a, k)) && NoSignature(Without(a, k))
  {
    hide RecordBytes, Flat, NameOf, LocalOf;
    WithoutFits(a, k);
    var kept := Without(a, k);
    forall r | r in kept.records
      ensures r in a.records && NameOf(r) != SIGNATURE_ENTRY
    {
      var i :| 0 <= i < |kept.records| && kept.records[i] == r;
      assert r == a.records[if i < k then i else i + 1];
    }
  }

  /**
    On a signed archive, wherever in the directory its signature stands: every byte before the signature's local header
    is kept; the other records come back in order and unchanged; the new end record describes what was written, so the
    result reads back; and unsigning the result again changes nothing.
  */
  lemma UnsignKeepsTheRest(a: Archive, k: nat)
    requires WellFormed(a) && OneSignature(a, k) && LastLocal(a, k) && !SecondMarker(Tail(a))
    ensures var local := LocalOf(a.records[k]); var kept := Without(a, k);
            && Fits(kept)
            && Unsigned(Encode(a)) == Success(Encode(kept))
            && local <= |Encode(a)| && local <= |Encode(kept)| && Encode(kept)[..local] == Encode(a)[..local]
            && (!SecondMarker(Tail(kept)) ==>
                  && Reparse(Encode(kept)) == Success(a.records[..k] + a.records[k + 1..])
                  && ReadEnd(Encode(kept)) == Success(EndOf(kept))
                  && Unsigned(Encode(kept)) == Success(Encode(kept)))
  {
    hide Unsigned, Reparse, ReadEnd, NoSignature, LastLocal, RecordBytes, Tail, Flat, LocalOf, SecondMarker;
    var kept := Without(a, k);
    WithoutShape(a, k);
    UnsignedWithOne(a, k);
    if !SecondMarker(Tail(kept)) {
      EncodedReparses(kept);
      ReadEndReadsBack(kept);
      UnsignedWithoutSignature(kept);
    }
  }

  // ---------------------------------------------------------------- the marker does occur

  function Zeros(n: nat): (z: seq<Byte>)
    ensures |z| == n && forall i | 0 <= i < n :: z[i] == 0
  {
    seq(n, i => 0)
  }

  /** A signature's record for an archive whose local entries end at `at`, with a comment of so many zero bytes. */
  function SampleRecord(at: Word32, comment: nat): (r: seq<Byte>)
    requires comment < 0x1_0000
    ensures |r| == 60 + comment
  {
    CENTRAL_MARKER + Zeros(24) + Pack16(14) + Zeros(2) + Pack16(comment) + Zeros(8) + Pack32(at) + SIGNATURE_ENTRY
    + Zeros(comment)
  }

  lemma SampleRecordIsSignature(at: Word32, comment: nat)
    requires comment < 0x1_0000
    ensures var r := SampleRecord(at, comment); RecordBytes(r) && NameOf(r) == SIGNATURE_ENTRY && LocalOf(r) == at
  {
    hide Read16, Read32, Pack16, Pack32;
    var r := SampleRecord(at, comment);
    var rest := Pack32(at) + SIGNATURE_ENTRY + Zeros(comment);
    assert r == (CENTRAL_MARKER + Zeros(24)) + Pack16(14) + (Zeros(2) + Pack16(comment) + Zeros(8) + rest);
    ReadBack16(CENTRAL_MARKER + Zeros(24), 14, Zeros(2) + Pack16(comment) + Zeros(8) + rest);
    assert r == (CENTRAL_MARKER + Zeros(24) + Pack16(14) + Zeros(2)) + Pack16(comment) + (Zeros(8) + rest);
    ReadBack16(CENTRAL_MARKER + Zeros(24) + Pack16(14) + Zeros(2), comment, Zeros(8) + rest);
    assert r == (CENTRAL_MARKER + Zeros(24) + Pack16(14) + Zeros(2) + Pack16(comment) + Zeros(8)) + Pack32(at)
                + (SIGNATURE_ENTRY + Zeros(comment));
    ReadBack32(CENTRAL_MARKER + Zeros(24) + Pack16(14) + Zeros(2) + Pack16(comment) + Zeros(8), at,
               SIGNATURE_ENTRY + Zeros(comment));
    ZeroField(r, 30);
  }

  lemma ZeroField(b: seq<Byte>, at: nat)
    requires at + 2 <= |b| && b[at] == b[at + 1] == 0
    ensures Read16(b, at) == 0
  {}

  // 0x06054B50, read low byte first, spells the end marker; 44 bytes more is where the local entries end once signed.
  const UNLUCKY_OFFSET: Word32 := 0x0605_4B50

  function Unlucky(): Archive {
    Archive(Zeros(UNLUCKY_OFFSET - 44), [], 0, 0, [])
  }

  lemma UnluckyTail()
    ensures WellFormed(Unlucky()) && NoSignature(Unlucky()) && !SecondMarker(Tail(Unlucky()))
  {
    var a := Unlucky();
    var tail := Tail(a);
    assert tail == END_MARKER + Pack16(0) + Pack16(0) + Pack16(0) + Pack16(0) + Pack32(0) + Pack32(UNLUCKY_OFFSET - 44)
                   + Pack16(0) + [];
    assert tail[16] == 0x24 && tail[17] == 0x4B && tail[18] == 5 && tail[19] == 6;
    forall i: nat | 0 < i < |tail| ensures tail[i] != END_MARKER[0] {
      if i < 4 {
        assert tail[i] == END_MARKER[i];
      }
    }
  }

  lemma UnluckySignedTail(record: seq<Byte>)
    requires record == SampleRecord(UNLUCKY_OFFSET - 44, 0) && Fits(Sign(Unlucky(), Zeros(44), record))
    ensures SecondMarker(Tail(Sign(Unlucky(), Zeros(44), record)))
  {
    hide SampleRecord;
    var signed := Sign(Unlucky(), Zeros(44), record);
    var tail := Tail(signed);
    assert |signed.locals| == UNLUCKY_OFFSET && Flat(signed.records) == record;
    assert Pack32(UNLUCKY_OFFSET) == END_MARKER;
    assert tail == END_MARKER + Pack16(0) + Pack16(0) + Pack16(1) + Pack16(1) + Pack32(|record|) + END_MARKER + Pack16(0) + [];
    assert MarkerAt(tail, 16, END_MARKER);
  }

  /** An archive that unsigning reads and that cannot be unsigned once signed: its new offset spells the end marker. */
  lemma SomeSignedArchiveIsRefused()
    ensures exists a: Archive, local, record ::
              && WellFormed(a) && NoSignature(a) && a.comment == []
              && Unsigned(Encode(a)) == Success(Encode(a))
              && SignatureEntry(a, local, record) && Fits(Sign(a, local, record))
              && Unsigned(Encode(Sign(a, local, record))) == Failure(NoEndRecord)
  {
    hide Unsigned, Encode, NameOf, LocalOf, RecordBytes, Tail, SecondMarker, NoSignature, SampleRecord, Zeros;
    var a := Unlucky();
    var local, record := Zeros(44), SampleRecord(UNLUCKY_OFFSET - 44, 0);
    SampleRecordIsSignature(UNLUCKY_OFFSET - 44, 0);
    UnluckyTail();
    UnsignedWithoutSignature(a);
    var signed := Sign(a, local, record);
    assert Flat(signed.records) == record;
    assert Fits(signed);
    UnluckySignedTail(record);
    UnsignInvertsSignOrRefuses(a, local, record);
    assert SignatureEntry(a, local, record);
  }
}
