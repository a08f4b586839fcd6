/**
  Undoing nuget.org's repository signature on a zip archive (PKWARE APPNOTE, sections 4.3.12 and 4.3.16).

  `NugetUnsigned` is the program's loop, proved equal to the function `Unsigned`. What the program is for is proved
  about that function: it inverts the signer, for every well-formed archive and every signature entry. Here
  `WalkExactly`, `ReadEndIs` and `AnswersExactly` say which files it reads and how it refuses the others.
*/
module NupkgUnsign {
  import opened Outcomes
  import opened Bytes

  const END_MARKER: seq<Byte> := [0x50, 0x4B, 5, 6]
  const END_SIZE: nat := 22
  const CENTRAL_MARKER: seq<Byte> := [0x50, 0x4B, 1, 2]
  const CENTRAL_SIZE: nat := 46
  // ".signature.p7s"
  const SIGNATURE_ENTRY: seq<Byte> := [0x2E, 0x73, 0x69, 0x67, 0x6E, 0x61, 0x74, 0x75, 0x72, 0x65, 0x2E, 0x70, 0x37, 0x73]

  /** Why an archive cannot be read; StructError is a fixed-width read or pack that does not fit. */
  datatype UnsignError =
    | NoEndRecord
    | BytesFollowEndRecord
    | NoCentralRecord(at: nat)
    | WrongDirectorySize
    | SeveralSignatures
    | SignatureNotLast
    | StructError

  /** One central directory record as the walk keeps it. */
  datatype Record = Record(name: seq<Byte>, at: nat, size: nat, localAt: Word32)

  type Word32 = x: int | 0 <= x < 0x1_0000_0000

  datatype Directory = Directory(records: seq<Record>, end: nat)

  /** The end of central directory record, and where it stands. */
  datatype EndRecord = EndRecord(at: nat, disk: nat, cdDisk: nat, onDisk: nat, total: nat, cdSize: nat, cdOffset: nat)

  // ---------------------------------------------------------------- the program

  function ReadEnd(blob: seq<Byte>): (r: Result<EndRecord, UnsignError>)
    ensures r.Success? ==> r.value.at + END_SIZE <= |blob| && r.value.at == LastMarker(blob, END_MARKER)
    ensures r.Success? ==> r.value.total < 0x1_0000 && r.value.onDisk < 0x1_0000
    ensures r.Success? ==> r.value.disk < 0x1_0000 && r.value.cdDisk < 0x1_0000
    ensures r.Success? ==> r.value.cdSize < 0x1_0000_0000
  {
    var at := LastMarker(blob, END_MARKER);
    if at < 0 || at + END_SIZE > |blob| then Failure(NoEndRecord)
    else if at + END_SIZE + Read16(blob, at + 20) != |blob| then Failure(BytesFollowEndRecord)
    else
      Success(EndRecord(at, Read16(blob, at + 4), Read16(blob, at + 6), Read16(blob, at + 8), Read16(blob, at + 10),
                        Read32(blob, at + 12), Read32(blob, at + 16)))
  }

  /** The record whose header starts at `at`; its name is whatever the archive still holds of it. */
  function RecordAt(blob: seq<Byte>, at: nat): (r: Record)
    requires at + CENTRAL_SIZE <= |blob|
    ensures r.at == at && r.size >= CENTRAL_SIZE
  {
    var nameLength := Read16(blob, at + 28);
    Record(Slice(blob, at + CENTRAL_SIZE, at + CENTRAL_SIZE + nameLength), at,
           CENTRAL_SIZE + nameLength + Read16(blob, at + 30) + Read16(blob, at + 32), Read32(blob, at + 42))
  }

  /** The record the walk reads next, or why it stops at `offset`. */
  function NextRecord(blob: seq<Byte>, offset: nat): (r: Result<Record, UnsignError>)
    ensures r.Success? ==> r.value.at == offset
  {
    if !MarkerAt(blob, offset, CENTRAL_MARKER) then Failure(NoCentralRecord(offset))
    else if offset + CENTRAL_SIZE > |blob| then Failure(StructError)
    else Success(RecordAt(blob, offset))
  }

  /** `left` more records from `offset` on, after the ones already read; with them, the offset the last one ends at. */
  function Walk(blob: seq<Byte>, offset: nat, left: nat, read: seq<Record>): Result<Directory, UnsignError>
    decreases left
  {
    if left == 0 then Success(Directory(read, offset))
    else
      var record :- NextRecord(blob, offset);
      Walk(blob, offset + record.size, left - 1, read + [record])
  }

  /** Each record read lies between where the walk starts and where it ends. */
  lemma {:induction false} WalkExtent(blob: seq<Byte>, offset: nat, left: nat, read: seq<Record>)
    requires Walk(blob, offset, left, read).Success?
    ensures var Directory(records, end) := Walk(blob, offset, left, read).value;
            && offset <= end
            && |records| == |read| + left
            && forall e | e in records :: e in read || (offset <= e.at && e.at + e.size <= end)
    decreases left
  {
    hide NextRecord;
    if left == 0 {
    } else {
      var record := NextRecord(blob, offset).value;
      WalkExtent(blob, offset + record.size, left - 1, read + [record]);
    }
  }

  function Signatures(records: seq<Record>): (found: seq<Record>)
    ensures forall e | e in found :: e in records
  {
    if records == [] then []
    else (if records[0].name == SIGNATURE_ENTRY then [records[0]] else []) + Signatures(records[1..])
  }

  function PackEnd(disk: nat, cdDisk: nat, onDisk: nat, total: nat, cdSize: nat, cdOffset: nat, commentLength: nat): (b: seq<Byte>)
    requires disk < 0x1_0000 && cdDisk < 0x1_0000 && onDisk < 0x1_0000 && total < 0x1_0000
    requires cdSize < 0x1_0000_0000 && cdOffset < 0x1_0000_0000 && commentLength < 0x1_0000
    ensures |b| == END_SIZE && b[..4] == END_MARKER
    ensures Read16(b, 4) == disk && Read16(b, 6) == cdDisk && Read16(b, 8) == onDisk && Read16(b, 10) == total
    ensures Read32(b, 12) == cdSize && Read32(b, 16) == cdOffset && Read16(b, 20) == commentLength
  {
    END_MARKER + Pack16(disk) + Pack16(cdDisk) + Pack16(onDisk) + Pack16(total) + Pack32(cdSize) + Pack32(cdOffset)
    + Pack16(commentLength)
  }

  /** Every byte before the signature's local header, the directory without its record, and the counted-down end record. */
  function Strip(blob: seq<Byte>, end: EndRecord, signature: Record): Result<seq<Byte>, UnsignError>
    requires end.at + END_SIZE <= |blob|
    requires end.total < 0x1_0000 && end.total > 0 && end.onDisk < 0x1_0000 && end.disk < 0x1_0000 && end.cdDisk < 0x1_0000
    requires signature.size <= end.cdSize < 0x1_0000_0000
  {
    if end.onDisk == 0 then Failure(StructError)
    else
      var directory := Slice(blob, end.cdOffset, signature.at)
                       + Slice(blob, signature.at + signature.size, end.cdOffset + end.cdSize);
      var tail := PackEnd(end.disk, end.cdDisk, end.onDisk - 1, end.total - 1, end.cdSize - signature.size,
                          signature.localAt, Read16(blob, end.at + 20));
      Success(Slice(blob, 0, signature.localAt) + directory + tail + blob[end.at + END_SIZE..])
  }

  function Unsigned(blob: seq<Byte>): Result<seq<Byte>, UnsignError> {
    var end :- ReadEnd(blob);
    var Directory(records, offset) :- Walk(blob, end.cdOffset, end.total, []);
    if offset != end.cdOffset + end.cdSize then Failure(WrongDirectorySize)
    else
      WalkExtent(blob, end.cdOffset, end.total, []);
      UnsignedRecords(blob, end, records)
  }

  /** What follows once the directory is read: the signature is looked for, held to be the last entry, and removed. */
  function UnsignedRecords(blob: seq<Byte>, end: EndRecord, records: seq<Record>): Result<seq<Byte>, UnsignError>
    requires ReadEnd(blob) == Success(end) && |records| == end.total
    requires forall e | e in records :: e.size <= end.cdSize
  {
    var found := Signatures(records);
    if found == [] then Success(blob)
    else if |found| > 1 then Failure(SeveralSignatures)
    else if exists e | e in records :: e.localAt > found[0].localAt then Failure(SignatureNotLast)
    else
      assert found[0] in records;
      Strip(blob, end, found[0])
  }

  // ---------------------------------------------------------------- which files are walked, and which refused

  /** "PK", 1 and 2 stand here. */
  ghost predicate RecordStarts(blob: seq<Byte>, at: nat) {
    at + 4 <= |blob| && blob[at..at + 4] == [0x50, 0x4B, 1, 2]
  }

  /** So many whole record headers follow one another, each where the name, extra field and comment before it end. */
  ghost predicate InARow(blob: seq<Byte>, at: nat, left: nat, starts: seq<nat>) {
    && |starts| == left + 1 && starts[0] == at
    && forall i | 0 <= i < left ::
         && RecordStarts(blob, starts[i]) && starts[i] + 46 <= |blob|
         && starts[i + 1] == starts[i] + 46 + Read16(blob, starts[i] + 28) + Read16(blob, starts[i] + 30)
                             + Read16(blob, starts[i] + 32)
  }

  /** What stands where the next record should: something else, or a header the file cuts off. */
  ghost predicate Stops(blob: seq<Byte>, at: nat, e: UnsignError) {
    if RecordStarts(blob, at) then at + 46 > |blob| && e == StructError else e == NoCentralRecord(at)
  }

  lemma NextIs(blob: seq<Byte>, at: nat)
    ensures var r := NextRecord(blob, at);
            && (r.Success? <==> RecordStarts(blob, at) && at + 46 <= |blob|)
            && (r.Success? ==> r.value.size == 46 + Read16(blob, at + 28) + Read16(blob, at + 30) + Read16(blob, at + 32))
            && (r.Failure? ==> Stops(blob, at, r.error))
  {}

  lemma InARowBehind(blob: seq<Byte>, at: nat, left: nat, rest: seq<nat>)
    requires RecordStarts(blob, at) && at + 46 <= |blob|
    requires var size := 46 + Read16(blob, at + 28) + Read16(blob, at + 30) + Read16(blob, at + 32);
             InARow(blob, at + size, left, rest)
    ensures InARow(blob, at, left + 1, [at] + rest)
  {
    hide RecordStarts;
    var all := [at] + rest;
    forall i | 0 < i < left + 1 ensures all[i] == rest[i - 1] && all[i + 1] == rest[i] {
    }
  }

  lemma InARowFrom(blob: seq<Byte>, at: nat, left: nat, starts: seq<nat>)
    requires left > 0 && InARow(blob, at, left, starts)
    ensures RecordStarts(blob, at) && at + 46 <= |blob|
    ensures var size := 46 + Read16(blob, at + 28) + Read16(blob, at + 30) + Read16(blob, at + 32);
            InARow(blob, at + size, left - 1, starts[1..])
  {
    hide RecordStarts;
  }

  /** A directory is walked exactly when so many records stand in a row, and otherwise fails where the row stops. */
  lemma {:induction false} WalkExactly(blob: seq<Byte>, at: nat, left: nat, read: seq<Record>)
    ensures Walk(blob, at, left, read).Success? <==> exists starts :: InARow(blob, at, left, starts)
    ensures Walk(blob, at, left, read).Success?
      ==> exists starts :: InARow(blob, at, left, starts) && Walk(blob, at, left, read).value.end == starts[left]
    ensures Walk(blob, at, left, read).Failure?
      ==> exists walked: nat, starts | walked < left && InARow(blob, at, walked, starts) ::
            Stops(blob, starts[walked], Walk(blob, at, left, read).error)
    decreases left
  {
    NextIs(blob, at);
    hide NextRecord, RecordStarts, Stops;
    if left == 0 {
      assert InARow(blob, at, 0, [at]);
    } else if NextRecord(blob, at).Failure? {
      assert InARow(blob, at, 0, [at]);
      forall starts | InARow(blob, at, left, starts) ensures false {
        InARowFrom(blob, at, left, starts);
      }
    } else {
      var record := NextRecord(blob, at).value;
      var next := at + record.size;
      WalkExactly(blob, next, left - 1, read + [record]);
      var rest := Walk(blob, next, left - 1, read + [record]);
      assert Walk(blob, at, left, read) == rest;
      hide Walk, InARow;
      if rest.Success? {
        var starts :| InARow(blob, next, left - 1, starts) && rest.value.end == starts[left - 1];
        InARowBehind(blob, at, left - 1, starts);
        assert ([at] + starts)[left] == starts[left - 1];
      } else {
        var walked: nat, starts :| walked < left - 1 && InARow(blob, next, walked, starts) && Stops(blob, starts[walked], rest.error);
        InARowBehind(blob, at, walked, starts);
        assert ([at] + starts)[walked + 1] == starts[walked];
      }
      forall starts | InARow(blob, at, left, starts) ensures rest.Success? {
        InARowFrom(blob, at, left, starts);
      }
    }
  }

  /** "PK", 5 and 6 stand here. */
  ghost predicate EndStarts(blob: seq<Byte>, at: nat) {
    at + 4 <= |blob| && blob[at..at + 4] == [0x50, 0x4B, 5, 6]
  }

  /** The last of them in a file, with room for an end record. */
  ghost predicate EndsFrom(blob: seq<Byte>, at: nat) {
    at + 22 <= |blob| && EndStarts(blob, at) && forall i: nat | EndStarts(blob, i) :: i <= at
  }

  lemma EndStartsIs(blob: seq<Byte>, at: nat)
    ensures EndStarts(blob, at) <==> MarkerAt(blob, at, END_MARKER)
  {}

  lemma LastIs(blob: seq<Byte>, at: nat)
    ensures LastMarker(blob, END_MARKER) == at && at + 22 <= |blob| <==> EndsFrom(blob, at)
  {
    forall i: nat ensures EndStarts(blob, i) <==> MarkerAt(blob, i, END_MARKER) {
      EndStartsIs(blob, i);
    }
    hide MarkerAt, EndStarts;
    var last := LastMarker(blob, END_MARKER);
    if last >= 0 {
      assert EndStarts(blob, last);
    }
  }

  /** The end record is the last the file marks, and is refused when it is cut off or its comment does not end the file. */
  lemma ReadEndIs(blob: seq<Byte>)
    ensures ReadEnd(blob) == Failure(NoEndRecord) <==> !exists at: nat :: EndsFrom(blob, at)
    ensures forall at: nat | EndsFrom(blob, at) ::
              && (ReadEnd(blob) == Failure(BytesFollowEndRecord) <==> |blob| != at + 22 + Read16(blob, at + 20))
              && (ReadEnd(blob).Success? <==> |blob| == at + 22 + Read16(blob, at + 20))
  {
    forall at: nat ensures LastMarker(blob, END_MARKER) == at && at + 22 <= |blob| <==> EndsFrom(blob, at) {
      LastIs(blob, at);
    }
    hide EndsFrom, Read16, Read32;
    var last := LastMarker(blob, END_MARKER);
    if 0 <= last && last + 22 <= |blob| {
      assert EndsFrom(blob, last);
    }
  }

  ghost predicate NamedSignature(records: seq<Record>, k: nat) {
    k < |records| && records[k].name == SIGNATURE_ENTRY
  }

  lemma {:induction false} SignaturesAre(records: seq<Record>)
    ensures Signatures(records) == [] <==> forall k: nat :: !NamedSignature(records, k)
    ensures |Signatures(records)| > 1 <==> exists i: nat, j: nat | i < j :: NamedSignature(records, i) && NamedSignature(records, j)
    ensures forall k: nat | NamedSignature(records, k) && |Signatures(records)| == 1 :: Signatures(records)[0] == records[k]
  {
    if records != [] {
      var rest := records[1..];
      SignaturesAre(rest);
      forall k: nat | 0 < k ensures NamedSignature(records, k) <==> NamedSignature(rest, k - 1) {
      }
      forall k: nat ensures NamedSignature(rest, k) <==> NamedSignature(records, k + 1) {
      }
      assert NamedSignature(records, 0) <==> records[0].name == SIGNATURE_ENTRY;
      hide NamedSignature;
      if |Signatures(records)| > 1 {
        SignatureAgain(records);
      }
    }
  }

  lemma SignatureAgain(records: seq<Record>)
    requires records != [] && |Signatures(records)| > 1
    requires |Signatures(records[1..])| > 1
      <==> exists i: nat, j: nat | i < j :: NamedSignature(records[1..], i) && NamedSignature(records[1..], j)
    requires Signatures(records[1..]) == [] <==> forall k: nat :: !NamedSignature(records[1..], k)
    ensures exists i: nat, j: nat | i < j :: NamedSignature(records, i) && NamedSignature(records, j)
  {
    var rest := records[1..];
    if |Signatures(rest)| > 1 {
      var i: nat, j: nat :| i < j && NamedSignature(rest, i) && NamedSignature(rest, j);
      assert NamedSignature(records, i + 1) && NamedSignature(records, j + 1);
    } else {
      var k: nat :| NamedSignature(rest, k);
      assert NamedSignature(records, 0) && NamedSignature(records, k + 1);
    }
  }

  /** What unsigning answers for a file whose directory can be walked, by the entries that bear the signature's name. */
  lemma AnswersExactly(blob: seq<Byte>, end: EndRecord, d: Directory)
    requires ReadEnd(blob) == Success(end) && Walk(blob, end.cdOffset, end.total, []) == Success(d)
    ensures Unsigned(blob) == Failure(WrongDirectorySize) <==> d.end != end.cdOffset + end.cdSize
    ensures d.end == end.cdOffset + end.cdSize ==>
              && ((forall k: nat :: !NamedSignature(d.records, k)) ==> Unsigned(blob) == Success(blob))
              && ((exists i: nat, j: nat | i < j :: NamedSignature(d.records, i) && NamedSignature(d.records, j))
                    <==> Unsigned(blob) == Failure(SeveralSignatures))
    ensures d.end == end.cdOffset + end.cdSize
      ==> forall k: nat |
            NamedSignature(d.records, k) && (forall j: nat | j != k :: !NamedSignature(d.records, j)) ::
              var later := exists e | e in d.records :: e.localAt > d.records[k].localAt;
              && (later <==> Unsigned(blob) == Failure(SignatureNotLast))
              && (!later && end.onDisk == 0 <==> Unsigned(blob) == Failure(StructError))
  {
    SignaturesAre(d.records);
    WalkExtent(blob, end.cdOffset, end.total, []);
    hide ReadEnd, Walk, Signatures, PackEnd, Slice, NamedSignature;
  }

  /** The loop of nuget_unsigned over the directory: it moves `offset` and appends to `records`. */
  method ReadRecords(blob: seq<Byte>, start: nat, total: nat) returns (r: Result<Directory, UnsignError>)
    ensures r == Walk(blob, start, total, [])
  {
    hide NextRecord;
    var records: seq<Record> := [];
    var offset: nat := start;
    for i := 0 to total
      invariant Walk(blob, start, total, []) == Walk(blob, offset, total - i, records)
    {
      var record :- NextRecord(blob, offset);
      records := records + [record];
      offset := offset + record.size;
    }
    r := Success(Directory(records, offset));
  }

  /** nuget_unsigned as it runs. */
  method NugetUnsigned(blob: seq<Byte>) returns (r: Result<seq<Byte>, UnsignError>)
    ensures r == Unsigned(blob)
  {
    var end :- ReadEnd(blob);
    var walked :- ReadRecords(blob, end.cdOffset, end.total);
    var records, offset := walked.records, walked.end;
    if offset != end.cdOffset + end.cdSize {
      return Failure(WrongDirectorySize);
    }
    var found := Signatures(records);
    if found == [] {
      return Success(blob);
    }
    if |found| > 1 {
      return Failure(SeveralSignatures);
    }
    if exists e | e in records :: e.localAt > found[0].localAt {
      return Failure(SignatureNotLast);
    }
    WalkExtent(blob, end.cdOffset, end.total, []);
    assert found[0] in records;
    r := Strip(blob, end, found[0]);
  }
}
