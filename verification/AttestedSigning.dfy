/**
  What the package check and the unsigning are for together: the bytes attested before the push are the ones a verifier
  recovers from what nuget.org serves.

  The signer is stated on the bytes of any archive the check accepts, and `UnsignedSigned` says what unsigning answers for
  every signature entry. The check alone does not make that the attested bytes: they can come back changed, without an
  error. `AttestedBytesRecovered` says exactly which accepted archives come back whatever the entry holds.
*/
module AttestedSigning {
  import opened Outcomes
  import opened Bytes
  import opened NupkgUnsign
  import opened NupkgSigning
  import opened AttestedLayout
  import Layout = SignableLayout

  // ---------------------------------------------------------------- the signer, on bytes

  function RecordsEnd(data: seq<Byte>): (end: nat)
    requires InOneDirectory(data)
    ensures end >= CdOffset(data)
  {
    DirectoryEnd(data, CdOffset(data), Total(data))
  }

  /** Accepted bytes a signer can go through: every record lies in the file. */
  ghost predicate CanBeRead(data: seq<Byte>) {
    Accepted(data) && InOneDirectory(data) && RecordsEnd(data) <= |data|
  }

  function Records(data: seq<Byte>): seq<seq<Byte>>
    requires InOneDirectory(data)
  {
    SplitDirectory(data, CdOffset(data), Total(data))
  }

  /** A signature entry for these bytes: its record starts where the local entries end, and the new figures fit. */
  predicate SignatureFor(data: seq<Byte>, local: seq<Byte>, record: seq<Byte>)
    requires InOneDirectory(data)
  {
    && RecordBytes(record) && NameOf(record) == SIGNATURE_ENTRY && LocalOf(record) == CdOffset(data)
    && OnDisk(data) + 1 < 0x1_0000 && Total(data) + 1 < 0x1_0000
    && RecordsEnd(data) - CdOffset(data) + |record| < 0x1_0000_0000
    && CdOffset(data) + |local| < 0x1_0000_0000
  }

  /** The end record counted up by one, with the directory's new offset and size. */
  function SignedEnd(data: seq<Byte>, local: seq<Byte>, record: seq<Byte>): (end: seq<Byte>)
    requires InOneDirectory(data) && SignatureFor(data, local, record)
    ensures |end| == END_SIZE && MarkerAt(end, 0, END_MARKER)
  {
    var end := PackEnd(Disk(data), CdDisk(data), OnDisk(data) + 1, Total(data) + 1,
                       RecordsEnd(data) - CdOffset(data) + |record|, CdOffset(data) + |local|, CommentLength(data));
    assert forall i | 0 <= i < 4 :: end[i] == end[..4][i];
    end
  }

  /**
    The signed archive: the entry behind the last local entry, its record behind the last record, and the new end record.
    `between` is whatever the signer leaves in front of the end record.
  */
  function SignedBytes(data: seq<Byte>, local: seq<Byte>, record: seq<Byte>, between: seq<Byte>): seq<Byte>
    requires InOneDirectory(data) && RecordsEnd(data) <= |data| && SignatureFor(data, local, record)
  {
    data[..CdOffset(data)] + local + data[CdOffset(data)..RecordsEnd(data)] + record + between
    + SignedEnd(data, local, record)
  }

  // ---------------------------------------------------------------- what unsigning answers for it

  /** What the walk finds of records with one signature behind them. */
  lemma LastRecordInfos(blob: seq<Byte>, at: nat, records: seq<seq<Byte>>, record: seq<Byte>) returns (infos: seq<Record>)
    requires forall r | r in records :: RecordBytes(r) && NameOf(r) != SIGNATURE_ENTRY
    requires RecordBytes(record) && NameOf(record) == SIGNATURE_ENTRY
    requires Holds(blob, at, Flat(records) + record)
    ensures |infos| == |records| + 1
    ensures Walk(blob, at, |infos|, []) == Success(Directory(infos, at + |Flat(records)| + |record|))
    ensures infos[|records|] == Record(NameOf(record), at + |Flat(records)|, |record|, LocalOf(record))
    ensures Signatures(infos) == [infos[|records|]]
    ensures (exists e | e in infos :: e.localAt > LocalOf(record)) <==> !forall r | r in records :: LocalOf(r) <= LocalOf(record)
  {
    hide *;
    var all := records + [record];
    infos := Infos(all, at);
    FlatConcat(records, [record]);
    FlatSingle(record);
    forall i | 0 <= i < |records| ensures NameOf(all[i]) != SIGNATURE_ENTRY {
      assert all[i] in records;
    }
    WalkReadsBack(blob, at, all);
    OneSignatureFound(all, at, |records|);
    InfosAt(all, at, |records|);
    assert all[..|records|] == records;
    LocalsInOrder(records, record, at);
  }

  /** One signature behind records that are none: it is taken out unless another entry starts behind it. */
  lemma UnsignedLastRecord(blob: seq<Byte>, end: EndRecord, records: seq<seq<Byte>>, record: seq<Byte>)
    requires ReadEnd(blob) == Success(end)
    requires forall r | r in records :: RecordBytes(r) && NameOf(r) != SIGNATURE_ENTRY
    requires RecordBytes(record) && NameOf(record) == SIGNATURE_ENTRY
    requires Holds(blob, end.cdOffset, Flat(records) + record)
    requires end.total == |records| + 1 && end.cdSize == |Flat(records)| + |record|
    ensures var info := Record(NameOf(record), end.cdOffset + |Flat(records)|, |record|, LocalOf(record));
            Unsigned(blob) == (if forall r | r in records :: LocalOf(r) <= LocalOf(record) then Strip(blob, end, info)
                               else Failure(SignatureNotLast))
  {
    hide RecordBytes, NameOf, LocalOf, Flat, Holds, Strip, ReadEnd, Walk, Signatures, Unsigned;
    var infos := LastRecordInfos(blob, end.cdOffset, records, record);
    UnsignedOfInfos(blob, end, infos, |records|);
  }

  lemma FlatSingle(record: seq<Byte>)
    ensures Flat([record]) == record
  {
    assert record + [] == record;
  }

  lemma LocalsInOrder(records: seq<seq<Byte>>, record: seq<Byte>, at: nat)
    requires forall r | r in records + [record] :: RecordBytes(r)
    ensures var infos := Infos(records + [record], at);
            (exists e | e in infos :: e.localAt > LocalOf(record)) <==> !forall r | r in records :: LocalOf(r) <= LocalOf(record)
  {
    hide RecordBytes, LocalOf, NameOf, Flat, Infos;
    var all := records + [record];
    var infos := Infos(all, at);
    forall i | 0 <= i < |infos| ensures infos[i].localAt == LocalOf(all[i]) {
      InfosAt(all, at, i);
    }
    forall e | e in infos && e.localAt > LocalOf(record) ensures exists r | r in records :: LocalOf(r) > LocalOf(record) {
      var i :| 0 <= i < |infos| && infos[i] == e;
      assert all[i] in records;
    }
    forall r | r in records && LocalOf(r) > LocalOf(record) ensures exists e | e in infos :: e.localAt > LocalOf(record) {
      var i :| 0 <= i < |records| && records[i] == r;
      assert infos[i] in infos;
    }
  }

  lemma UnsignedOfInfos(blob: seq<Byte>, end: EndRecord, infos: seq<Record>, k: nat)
    requires ReadEnd(blob) == Success(end) && k < |infos| == end.total
    requires Walk(blob, end.cdOffset, end.total, []) == Success(Directory(infos, end.cdOffset + end.cdSize))
    requires Signatures(infos) == [infos[k]] && infos[k].size <= end.cdSize
    ensures Unsigned(blob) == if exists e | e in infos :: e.localAt > infos[k].localAt then Failure(SignatureNotLast)
                              else Strip(blob, end, infos[k])
  {
    hide ReadEnd, Walk, Signatures, Strip;
    WalkExtent(blob, end.cdOffset, end.total, []);
  }

  /** Taking the last record out of a signed layout leaves what stood in front of the entry and of the record. */
  lemma StripLast(locals: seq<Byte>, local: seq<Byte>, directory: seq<Byte>, record: seq<Byte>, between: seq<Byte>,
                  tail: seq<Byte>, end: EndRecord, info: Record)
    requires |tail| == END_SIZE && Read16(tail, 20) == 0
    requires end.cdOffset == |locals + local| && end.cdSize == |directory + record| < 0x1_0000_0000
    requires end.at == |locals + local + directory + record + between|
    requires 0 < end.total < 0x1_0000 && 0 < end.onDisk < 0x1_0000 && end.disk < 0x1_0000 && end.cdDisk < 0x1_0000
    requires info.at == end.cdOffset + |directory| && info.size == |record| && info.localAt == |locals|
    ensures Strip(locals + local + directory + record + between + tail, end, info)
         == Success(locals + directory
                    + PackEnd(end.disk, end.cdDisk, end.onDisk - 1, end.total - 1, |directory|, |locals|, 0))
  {
    hide *;
    var blob := locals + local + directory + record + between + tail;
    CommentOfTail(locals + local + directory + record + between, tail);
    SignedSlices(locals, local, directory, record, between + tail);
    assert blob == locals + local + directory + record + (between + tail);
    StripParts(blob, end, info, locals, directory);
  }

  lemma SignedSlices(locals: seq<Byte>, local: seq<Byte>, directory: seq<Byte>, record: seq<Byte>, rest: seq<Byte>)
    ensures var blob := locals + local + directory + record + rest; var at := |locals + local + directory|;
            && Slice(blob, 0, |locals|) == locals
            && Slice(blob, |locals + local|, at) == directory
            && Slice(blob, at + |record|, at + |record|) == []
  {
    hide Slice;
    var blob := locals + local + directory + record + rest;
    assert blob == (locals + local) + directory + (record + rest);
    SliceMiddle(locals + local, directory, record + rest);
    assert blob == [] + locals + (local + directory + record + rest);
    SliceMiddle([], locals, local + directory + record + rest);
    assert blob == (locals + local + directory + record) + [] + rest;
    SliceMiddle(locals + local + directory + record, [], rest);
  }

  lemma StripParts(blob: seq<Byte>, end: EndRecord, info: Record, locals: seq<Byte>, directory: seq<Byte>)
    requires end.at + END_SIZE == |blob| && end.cdSize == |directory| + info.size < 0x1_0000_0000
    requires 0 < end.total < 0x1_0000 && 0 < end.onDisk < 0x1_0000 && end.disk < 0x1_0000 && end.cdDisk < 0x1_0000
    requires info.localAt == |locals| && Slice(blob, 0, |locals|) == locals && Read16(blob, end.at + 20) == 0
    requires Slice(blob, end.cdOffset, info.at) == directory
    requires Slice(blob, info.at + info.size, end.cdOffset + end.cdSize) == []
    ensures Strip(blob, end, info)
         == Success(locals + directory
                    + PackEnd(end.disk, end.cdDisk, end.onDisk - 1, end.total - 1, |directory|, |locals|, 0))
  {
    hide Slice, Read16, PackEnd;
    assert directory + [] == directory;
    var kept := locals + directory
                + PackEnd(end.disk, end.cdDisk, end.onDisk - 1, end.total - 1, |directory|, |locals|, 0);
    assert blob[end.at + END_SIZE..] == [] && kept + [] == kept;
  }

  lemma CommentOfTail(front: seq<Byte>, tail: seq<Byte>)
    requires |tail| == END_SIZE
    ensures Read16(front + tail, |front| + 20) == Read16(tail, 20) && (front + tail)[|front| + END_SIZE..] == []
  {}

  /** How the end record of a signed layout is read: it ends the file, so a second marker leaves too little behind it. */
  lemma ReadEndOfTail(front: seq<Byte>, tail: seq<Byte>)
    requires |tail| == END_SIZE && MarkerAt(tail, 0, END_MARKER)
    ensures ReadEnd(front + tail)
         == if SecondMarker(tail) then Failure(NoEndRecord)
            else if Read16(tail, 20) != 0 then Failure(BytesFollowEndRecord)
            else Success(EndRecord(|front|, Read16(tail, 4), Read16(tail, 6), Read16(tail, 8), Read16(tail, 10),
                                   Read32(tail, 12), Read32(tail, 16)))
  {
    hide SecondMarker, LastMarker, MarkerAt, Read16, Read32;
    LastMarkerOfTail(front, tail);
    TailStands(front, tail);
    EndFields(front + tail, |front|, tail);
  }

  lemma TailStands(front: seq<Byte>, tail: seq<Byte>)
    ensures Holds(front + tail, |front|, tail)
  {}

  /** The records of accepted bytes: none is a signature, and together they are the bytes of the directory. */
  lemma AcceptedRecords(data: seq<Byte>)
    requires CanBeRead(data)
    ensures var records := Records(data);
            && |records| == Total(data)
            && Flat(records) == data[CdOffset(data)..RecordsEnd(data)]
            && (forall r | r in records :: RecordBytes(r) && NameOf(r) != SIGNATURE_ENTRY)
            && (forall r | r in records :: LocalOf(r) <= CdOffset(data))
               == LocalsBefore(data, CdOffset(data), Total(data), CdOffset(data))
  {
    hide Accepted, Layout.CleanDirectory, DirectoryEnd, SplitDirectory, LocalsBefore, Flat, RecordBytes, NameOf, LocalOf;
    hide Total, CdOffset;
    SplitRejoins(data, CdOffset(data), Total(data), CdOffset(data));
    SliceStands(data, CdOffset(data), RecordsEnd(data));
    CleanNames(data, CdOffset(data), Records(data));
  }

  lemma SliceStands(data: seq<Byte>, i: nat, j: nat)
    requires i <= j <= |data|
    ensures Holds(data, i, data[i..j])
  {}

  lemma SignedDirectoryStands(data: seq<Byte>, local: seq<Byte>, record: seq<Byte>, between: seq<Byte>)
    requires InOneDirectory(data) && RecordsEnd(data) <= |data| && SignatureFor(data, local, record)
    ensures Holds(SignedBytes(data, local, record, between), CdOffset(data) + |local|,
                  data[CdOffset(data)..RecordsEnd(data)] + record)
  {
    hide SignedEnd, Layout.CleanDirectory, RecordsEnd, SignatureFor, Holds, CdOffset;
    var front := data[..CdOffset(data)] + local;
    var directory := data[CdOffset(data)..RecordsEnd(data)] + record;
    var rest := between + SignedEnd(data, local, record);
    assert SignedBytes(data, local, record, between) == front + directory + rest;
    SliceMiddle(front, directory, rest);
  }

  lemma SignedEndRead(data: seq<Byte>, local: seq<Byte>, record: seq<Byte>, front: seq<Byte>)
    requires InOneDirectory(data) && SignatureFor(data, local, record)
    ensures ReadEnd(front + SignedEnd(data, local, record))
         == if SecondMarker(SignedEnd(data, local, record)) then Failure(NoEndRecord)
            else if CommentLength(data) != 0 then Failure(BytesFollowEndRecord)
            else Success(EndRecord(|front|, Disk(data), CdDisk(data), OnDisk(data) + 1, Total(data) + 1,
                                   RecordsEnd(data) - CdOffset(data) + |record|, CdOffset(data) + |local|))
  {
    hide ReadEnd, SecondMarker, Layout.CleanDirectory, RecordsEnd, MarkerAt, RecordBytes, NameOf, LocalOf;
    hide Disk, CdDisk, OnDisk, Total, CdOffset, CommentLength, Read16, Read32;
    ReadEndOfTail(front, SignedEnd(data, local, record));
  }

  /** What the signature leaves of the bytes once it is taken out: the records as they lay, and nothing behind them. */
  function Unpadded(data: seq<Byte>): seq<Byte>
    requires CanBeRead(data) && RecordsEnd(data) - CdOffset(data) < 0x1_0000_0000
  {
    data[..CdOffset(data)] + data[CdOffset(data)..RecordsEnd(data)]
    + PackEnd(Disk(data), CdDisk(data), OnDisk(data), Total(data), RecordsEnd(data) - CdOffset(data), CdOffset(data), 0)
  }

  /**
    What unsigning answers for signed accepted bytes, whatever the entry holds: a refusal, for one of three reasons, or
    the bytes up to the last record with an end record that describes them.
  */
  lemma UnsignedSigned(data: seq<Byte>, local: seq<Byte>, record: seq<Byte>, between: seq<Byte>)
    requires CanBeRead(data) && SignatureFor(data, local, record)
    ensures Unsigned(SignedBytes(data, local, record, between))
         == if SecondMarker(SignedEnd(data, local, record)) then Failure(NoEndRecord)
            else if CommentLength(data) != 0 then Failure(BytesFollowEndRecord)
            else if !LocalsBefore(data, CdOffset(data), Total(data), CdOffset(data)) then Failure(SignatureNotLast)
            else Success(Unpadded(data))
  {
    hide Accepted, Layout.CleanDirectory, RecordsEnd, SignedEnd, SecondMarker, LocalsBefore, Flat, RecordBytes, NameOf, LocalOf;
    hide Disk, CdDisk, OnDisk, Total, CdOffset, CommentLength, Records, ReadEnd, Strip, Holds, PackEnd, Walk, UnsignedRecords;
    var end := SignedEnd(data, local, record);
    var directory := data[CdOffset(data)..RecordsEnd(data)];
    var front := data[..CdOffset(data)] + local + directory + record + between;
    SignedEndRead(data, local, record, front);
    if !SecondMarker(end) && CommentLength(data) == 0 {
      AcceptedRecords(data);
      SignedDirectoryStands(data, local, record, between);
      UnsignedLastRecord(front + end, ReadEnd(front + end).value, Records(data), record);
      if LocalsBefore(data, CdOffset(data), Total(data), CdOffset(data)) {
        SignedEndComment(data, local, record);
        StripLast(data[..CdOffset(data)], local, directory, record, between, end, ReadEnd(front + end).value,
                  Record(NameOf(record), CdOffset(data) + |local| + |directory|, |record|, LocalOf(record)));
      }
    }
  }

  lemma SignedEndComment(data: seq<Byte>, local: seq<Byte>, record: seq<Byte>)
    requires InOneDirectory(data) && SignatureFor(data, local, record)
    ensures Read16(SignedEnd(data, local, record), 20) == CommentLength(data)
  {
    hide Read16, Read32, Layout.CleanDirectory, RecordsEnd, MarkerAt, RecordBytes, NameOf, LocalOf;
  }

  // ---------------------------------------------------------------- which archives come back

  /** The directory is the size its end record says and ends where the end record starts, and no entry starts behind it. */
  predicate Recoverable(data: seq<Byte>)
    requires InOneDirectory(data)
  {
    && ReadsBack(data)
    && CdOffset(data) + CdSize(data) == |data| - END_SIZE
    && LocalsBefore(data, CdOffset(data), Total(data), CdOffset(data))
  }

  lemma UnpaddedIsWhole(data: seq<Byte>)
    requires CanBeRead(data) && RecordsEnd(data) - CdOffset(data) < 0x1_0000_0000 && CommentLength(data) == 0
    ensures Unpadded(data) == data <==> RecordsEnd(data) == CdOffset(data) + CdSize(data) == |data| - END_SIZE
  {
    hide Layout.CleanDirectory, Accepted, RecordsEnd, PackEnd, Disk, CdDisk, OnDisk, Total, CdSize, CdOffset, CommentLength;
    var at, end := CdOffset(data), RecordsEnd(data);
    SlicesJoin(data, 0, at, end);
    AcceptedFacts(data);
    MarkedEnd(data);
    if end == at + CdSize(data) == |data| - END_SIZE {
      EndRepacks(data);
      SlicesJoin(data, 0, end, |data|);
    }
    if Unpadded(data) == data {
      PackedSize(data, data[..end], Disk(data), CdDisk(data), OnDisk(data), Total(data), end - at, at);
    }
  }

  lemma MarkedEnd(data: seq<Byte>)
    requires |data| >= END_SIZE && LastMarker(data, END_MARKER) == |data| - END_SIZE
    ensures MarkerAt(data, |data| - END_SIZE, END_MARKER)
  {}

  /** Where an end record stands and which size it states, when it was packed behind `front`. */
  lemma PackedSize(data: seq<Byte>, front: seq<Byte>, disk: nat, cdDisk: nat, onDisk: nat, total: nat, size: nat, offset: nat)
    requires disk < 0x1_0000 && cdDisk < 0x1_0000 && onDisk < 0x1_0000 && total < 0x1_0000
    requires size < 0x1_0000_0000 && offset < 0x1_0000_0000
    requires data == front + PackEnd(disk, cdDisk, onDisk, total, size, offset, 0)
    ensures |data| >= END_SIZE && |front| == |data| - END_SIZE && CdSize(data) == size
  {
    hide Read16, Read32;
    var end := PackEnd(disk, cdDisk, onDisk, total, size, offset, 0);
    TailStands(front, end);
    EndFields(data, |front|, end);
  }

  /**
    The attested bytes are recovered, from one signed archive: exactly when they are recoverable and the new end record
    spells its marker once. All other answers but the refusal for a second marker need bytes that are not recoverable.
  */
  lemma AttestedBytesRecovered(data: seq<Byte>, local: seq<Byte>, record: seq<Byte>, between: seq<Byte>)
    requires CanBeRead(data) && SignatureFor(data, local, record)
    ensures var r := Unsigned(SignedBytes(data, local, record, between));
            && (r == Success(data) <==> Recoverable(data) && !SecondMarker(SignedEnd(data, local, record)))
            && (r == Failure(NoEndRecord) <==> SecondMarker(SignedEnd(data, local, record)))
  {
    hide Accepted, Layout.CleanDirectory, DirectoryEnd, SignedEnd, SecondMarker, LocalsBefore, Unsigned, SignedBytes;
    hide Unpadded, RecordBytes, NameOf, LocalOf, Disk, CdDisk, OnDisk, Total, CdSize, CdOffset, CommentLength;
    UnsignedSigned(data, local, record, between);
    if CommentLength(data) == 0 {
      UnpaddedIsWhole(data);
    }
  }

  /** Whatever signature is put on these bytes, they come back as they were or the archive is refused as having no end. */
  ghost predicate RecoveredFromEvery(data: seq<Byte>)
    requires CanBeRead(data)
  {
    forall local, record, between | SignatureFor(data, local, record) ::
      var r := Unsigned(SignedBytes(data, local, record, between));
      r == Success(data) || r == Failure(NoEndRecord)
  }

  /** The part of the new end record no entry changes: its marker, the disk numbers and the counts. */
  function CountedUp(data: seq<Byte>): (b: seq<Byte>)
    requires |data| >= END_SIZE && OnDisk(data) + 1 < 0x1_0000 && Total(data) + 1 < 0x1_0000
    ensures |b| == 12
  {
    END_MARKER + Pack16(Disk(data)) + Pack16(CdDisk(data)) + Pack16(OnDisk(data) + 1) + Pack16(Total(data) + 1)
  }

  /** Some signature entry fits beside the directory. */
  predicate HasRoom(data: seq<Byte>)
    requires InOneDirectory(data)
  {
    && OnDisk(data) + 1 < 0x1_0000 && Total(data) + 1 < 0x1_0000
    && RecordsEnd(data) - CdOffset(data) + 60 < 0x1_0000_0000
  }

  lemma SignedEndParts(data: seq<Byte>, local: seq<Byte>, record: seq<Byte>)
    requires InOneDirectory(data) && SignatureFor(data, local, record)
    ensures SignedEnd(data, local, record)
         == CountedUp(data) + Pack32(RecordsEnd(data) - CdOffset(data) + |record|) + Pack32(CdOffset(data) + |local|)
            + Pack16(CommentLength(data))
  {
    hide Pack16, Pack32, RecordBytes, NameOf, LocalOf, Layout.CleanDirectory, DirectoryEnd, MarkerAt;
  }

  /** No byte of the marker. */
  predicate Quiet(b: int) {
    b != 0x50 && b != 0x4B && b != 5 && b != 6
  }

  /** How many bytes make the low byte of a figure quiet. */
  function Padding(n: nat): (m: nat)
    ensures m <= 0x51 && Quiet((n + m) % 0x100)
    ensures n < 0x1_0000 ==> n + m < 0x1_0000
    ensures n < 0x1_0000_0000 ==> n + m < 0x1_0000_0000
  {
    if Quiet(n % 0x100) then 0 else 0x51 - n % 0x100
  }

  /** The bytes of a packed offset that cannot be part of a marker, whatever stands around them. */
  predicate QuietHalves(low: nat, high: nat) {
    Quiet(low % 0x100) && !(low / 0x100 == 0x50 && high == 0x054B) && high != 0x4B50
  }

  /** The halves of an offset from one on whose bytes are such. */
  function QuietFrom(low: nat, high: nat): (halves: (nat, nat))
    requires low < 0x1_0000 && high < 0x1_0000
    ensures halves.0 < 0x1_0000 && halves.1 < 0x1_0000 && QuietHalves(halves.0, halves.1)
    ensures high < halves.1 || (high == halves.1 && low <= halves.0)
  {
    var padded := low + Padding(low);
    if high == 0x4B50 then (padded, 0x4B51)
    else if padded / 0x100 == 0x50 && high == 0x054B then (0x5151, high)
    else (padded, high)
  }

  lemma Halves(low: nat, high: nat)
    requires low < 0x1_0000
    ensures (high * 0x1_0000 + low) % 0x1_0000 == low && (high * 0x1_0000 + low) / 0x1_0000 == high
  {}

  function QuietOffset(n: nat): (m: nat)
    requires n < 0x1_0000_0000
    ensures n <= m < 0x1_0000_0000 && QuietHalves(m % 0x1_0000, m / 0x1_0000)
  {
    var (low, high) := QuietFrom(n % 0x1_0000, n / 0x1_0000);
    Halves(low, high);
    high * 0x1_0000 + low
  }

  lemma PackedBytes(n: nat)
    requires n < 0x1_0000_0000
    ensures Pack32(n) == [n % 0x1_0000 % 0x100, n % 0x1_0000 / 0x100, n / 0x1_0000 % 0x100, n / 0x1_0000 / 0x100]
  {
    assert Pack16(n % 0x1_0000) + Pack16(n / 0x1_0000) == Pack32(n);
  }

  lemma HalvesQuiet(n: nat, b: seq<Byte>)
    requires n < 0x1_0000_0000 && b == Pack32(n) && QuietHalves(n % 0x1_0000, n / 0x1_0000)
    ensures Quiet(b[0]) && !(b[1] == 0x50 && b[2] == 0x4B && b[3] == 5) && !(b[2] == 0x50 && b[3] == 0x4B)
  {
    PackedBytes(n);
  }

  lemma LowQuiet(n: nat, b: seq<Byte>)
    requires n < 0x1_0000_0000 && b == Pack32(n) && Quiet(n % 0x100)
    ensures Quiet(b[0])
  {
    PackedBytes(n);
    assert n % 0x1_0000 % 0x100 == n % 0x100;
  }

  /** With a quiet size and a quiet offset, the marker can only be spelled again in front of them. */
  lemma QuietFigures(head: seq<Byte>, size: seq<Byte>, offset: seq<Byte>, comment: seq<Byte>)
    requires |head| == 12 && |size| == |offset| == 4 && |comment| == 2 && Quiet(size[0]) && Quiet(offset[0])
    requires !(offset[1] == 0x50 && offset[2] == 0x4B && offset[3] == 5) && !(offset[2] == 0x50 && offset[3] == 0x4B)
    ensures SecondMarker(head + size + offset + comment) ==> SecondMarker(head)
  {
    var end := head + size + offset + comment;
    assert end[12] == size[0] && end[16] == offset[0] && end[17] == offset[1] && end[18] == offset[2] && end[19] == offset[3];
    forall i: nat | MarkerAt(end, i, END_MARKER) ensures MarkerAt(head, i, END_MARKER) {
      assert i <= 8;
    }
  }

  /** An entry under which the new end record spells a second marker only if its unchanging part does. */
  lemma QuietEntry(data: seq<Byte>) returns (local: seq<Byte>, record: seq<Byte>)
    requires InOneDirectory(data) && HasRoom(data)
    ensures SignatureFor(data, local, record)
    ensures SecondMarker(SignedEnd(data, local, record)) ==> SecondMarker(CountedUp(data))
  {
    hide Layout.CleanDirectory, DirectoryEnd, SampleRecord, SecondMarker, CountedUp, Read16, Read32, SignedEnd;
    hide RecordBytes, NameOf, LocalOf, Pack16, Pack32, Quiet, Padding, QuietOffset, QuietHalves, QuietFrom, Zeros;
    var at, size := CdOffset(data), RecordsEnd(data) - CdOffset(data) + 60;
    local := Zeros(QuietOffset(at) - at);
    record := SampleRecord(at, Padding(size));
    SampleRecordIsSignature(at, Padding(size));
    SignedEndParts(data, local, record);
    LowQuiet(size + Padding(size), Pack32(size + Padding(size)));
    HalvesQuiet(QuietOffset(at), Pack32(QuietOffset(at)));
    QuietFigures(CountedUp(data), Pack32(size + Padding(size)), Pack32(QuietOffset(at)), Pack16(CommentLength(data)));
  }

  lemma CountsStaySpelled(data: seq<Byte>, local: seq<Byte>, record: seq<Byte>)
    requires InOneDirectory(data) && SignatureFor(data, local, record) && SecondMarker(CountedUp(data))
    ensures SecondMarker(SignedEnd(data, local, record))
  {
    hide Layout.CleanDirectory, DirectoryEnd, CountedUp, SignedEnd, RecordBytes, NameOf, LocalOf, Pack16, Pack32;
    SignedEndParts(data, local, record);
    var i: nat :| 0 < i && MarkerAt(CountedUp(data), i, END_MARKER);
    assert MarkerAt(SignedEnd(data, local, record), i, END_MARKER);
  }

  /**
    Accepted bytes are recovered whatever entry they are signed with, or refused, exactly when they are recoverable; the
    one other case is disk numbers and counted-up counts that spell the marker, so that every signed archive is refused.
  */
  lemma RecoveredFromEveryIff(data: seq<Byte>)
    requires CanBeRead(data) && HasRoom(data)
    ensures RecoveredFromEvery(data) <==> Recoverable(data) || SecondMarker(CountedUp(data))
  {
    hide Accepted, Layout.CleanDirectory, Recoverable, SecondMarker, CountedUp, SignedEnd, Unsigned, SignedBytes;
    hide RecordsEnd, SignatureFor, CdOffset, OnDisk, Total;
    if Recoverable(data) || SecondMarker(CountedUp(data)) {
      forall local, record, between | SignatureFor(data, local, record)
        ensures var r := Unsigned(SignedBytes(data, local, record, between)); r == Success(data) || r == Failure(NoEndRecord)
      {
        AttestedBytesRecovered(data, local, record, between);
        if SecondMarker(CountedUp(data)) {
          CountsStaySpelled(data, local, record);
        }
      }
    } else {
      var local, record := QuietEntry(data);
      AttestedBytesRecovered(data, local, record, []);
    }
  }

  // ---------------------------------------------------------------- the check does not make bytes recoverable

  /** A byte before an end record of no records at offset zero. */
  const GAPPED: seq<Byte> := [0, 0x50, 0x4B, 5, 6, 0, 0, 0, 0, 0, 0, 0, 0, 0, 0, 0, 0, 0, 0, 0, 0, 0, 0]

  lemma GappedMarker()
    ensures LastMarker(GAPPED, END_MARKER) == 1
  {
    hide LastMarker;
    assert MarkerAt(GAPPED, 1, END_MARKER);
    assert forall i: nat | MarkerAt(GAPPED, i, END_MARKER) :: i <= 1;
  }

  lemma GappedIsAccepted()
    ensures CanBeRead(GAPPED) && RecordsEnd(GAPPED) == CdOffset(GAPPED) == CdSize(GAPPED) == CommentLength(GAPPED) == 0
    ensures OnDisk(GAPPED) == Total(GAPPED) == Disk(GAPPED) == CdDisk(GAPPED) == 0
  {
    hide LastMarker, Layout.RecordProblems, Layout.CentralSize;
    GappedMarker();
  }

  /**
    The check accepts an archive that unsigning returns unchanged, and whose signed form comes back, without an error, as
    other bytes: the byte in front of the end record is lost.
  */
  lemma SomeAcceptedBytesComeBackChanged(local: seq<Byte>, between: seq<Byte>)
    requires |local| < 0x100
    ensures CanBeRead(GAPPED) && Unsigned(GAPPED) == Success(GAPPED)
    ensures var record := SampleRecord(0, 0);
            && SignatureFor(GAPPED, local, record)
            && Unsigned(SignedBytes(GAPPED, local, record, between)) == Success(GAPPED[1..])
  {
    hide Accepted, Unsigned, SignedBytes, SampleRecord, RecordBytes, NameOf, LocalOf, Layout.CleanDirectory, SignedEnd;
    hide LastMarker, SecondMarker, DirectoryEnd;
    hide Disk, CdDisk, OnDisk, Total, CdSize, CdOffset, CommentLength;
    var record := SampleRecord(0, 0);
    GappedIsAccepted();
    AcceptedReadsBack(GAPPED);
    SampleRecordIsSignature(0, 0);
    GappedEnd(local, record);
    UnsignedSigned(GAPPED, local, record, between);
    GappedUnpadded();
  }

  lemma GappedEnd(local: seq<Byte>, record: seq<Byte>)
    requires |local| < 0x100 && |record| == 60 && CanBeRead(GAPPED) && SignatureFor(GAPPED, local, record)
    ensures !SecondMarker(SignedEnd(GAPPED, local, record))
  {
    hide Accepted, RecordBytes, NameOf, LocalOf, Layout.CleanDirectory, SignedEnd;
    GappedIsAccepted();
    SignedEndParts(GAPPED, local, record);
    var end := SignedEnd(GAPPED, local, record);
    assert end == END_MARKER + Pack16(0) + Pack16(0) + Pack16(1) + Pack16(1) + Pack32(60) + Pack32(|local|) + Pack16(0);
    PackedBytes(|local|);
    forall i: nat | 0 < i < |end| ensures end[i] != END_MARKER[0] || i == 16 {
    }
  }

  lemma GappedUnpadded()
    requires CanBeRead(GAPPED)
    ensures Unpadded(GAPPED) == GAPPED[1..]
  {
    hide Accepted, Layout.CleanDirectory;
    GappedIsAccepted();
    assert PackEnd(0, 0, 0, 0, 0, 0, 0) == GAPPED[1..];
  }

  // ---------------------------------------------------------------- the two signers agree

  /** On bytes that are complete, the signer of archives writes the same file. */
  lemma SignersAgree(data: seq<Byte>, local: seq<Byte>, record: seq<Byte>)
    requires CanBeRead(data) && Complete(data) && SignatureFor(data, local, record)
    ensures var a := Decode(data);
            && SignatureEntry(a, local, record) && Fits(Sign(a, local, record))
            && Encode(Sign(a, local, record)) == SignedBytes(data, local, record, [])
  {
    hide Accepted, RecordBytes, NameOf, LocalOf, Layout.CleanDirectory, DirectoryEnd, SplitDirectory, LocalsBefore;
    hide PackEnd, Flat;
    hide Disk, CdDisk, OnDisk, Total, CdSize, CdOffset, CommentLength;
    var a := Decode(data);
    DecodedRecords(data);
    FlatConcat(a.records, [record]);
    FlatSingle(record);
    var signed := Sign(a, local, record);
    assert Flat(signed.records) == Flat(a.records) + record;
  }
}
