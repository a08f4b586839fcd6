/**
  The layouts nuget.org's signature can be added to and taken from again (PKWARE APPNOTE, sections 4.3.7, 4.4.4, 4.5.1
  and 4.5.3), as the package check refuses all others before anything is pushed. `SignableHeaders` says which those are
  header by header.
*/
module SignableLayout {
  import opened Outcomes
  import opened Bytes
  import NupkgUnsign

  const LOCATOR_MARKER: seq<Byte> := [0x50, 0x4B, 6, 7]
  const LOCATOR_SIZE: nat := 20
  const LOCAL_MARKER: seq<Byte> := [0x50, 0x4B, 3, 4]
  const LOCAL_SIZE: nat := 30
  const ZIP64_EXTRA_ID: nat := 1
  const SENTINEL_16: nat := 0xFFFF
  const SENTINEL_32: nat := 0xFFFF_FFFF

  datatype Problem =
    | NoEndRecord
    | BytesFollow(count: nat)
    | Zip64Archive
    | DirectoryPastEnd
    | NoCentralRecord(at: nat)
    | AlreadySigned(entry: seq<Byte>)
    | NoLocalHeader(entry: seq<Byte>, at: nat)
    | DataDescriptor(entry: seq<Byte>)
    | Zip64Entry(entry: seq<Byte>)

  /** A fixed-width read that runs off the end of the file, which the check does not catch. */
  datatype Crash = StructError

  // ---------------------------------------------------------------- extra fields

  /** The header ids from `offset` on, behind the ones already found. */
  function IdsFrom(extra: seq<Byte>, offset: nat, ids: seq<nat>): seq<nat>
    decreases if offset <= |extra| then |extra| - offset else 0
  {
    if offset + 4 > |extra| then ids
    else IdsFrom(extra, offset + 4 + Read16(extra, offset + 2), ids + [Read16(extra, offset)])
  }

  /** extra_field_ids as it runs; it ends on every input because each turn moves `offset` by four at least. */
  method ExtraFieldIds(extra: seq<Byte>) returns (ids: seq<nat>)
    ensures ids == IdsFrom(extra, 0, [])
  {
    ids := [];
    var offset: nat := 0;
    while offset + 4 <= |extra|
      invariant IdsFrom(extra, 0, []) == IdsFrom(extra, offset, ids)
      decreases |extra| - offset
    {
      ids := ids + [Read16(extra, offset)];
      offset := offset + 4 + Read16(extra, offset + 2);
    }
  }

  datatype ExtraField = ExtraField(id: nat, payload: seq<Byte>)

  predicate FieldFits(f: ExtraField) {
    f.id < 0x1_0000 && |f.payload| < 0x1_0000
  }

  function EncodeFields(fields: seq<ExtraField>): seq<Byte>
    requires forall f | f in fields :: FieldFits(f)
  {
    if fields == [] then []
    else
      assert FieldFits(fields[0]);
      Pack16(fields[0].id) + Pack16(|fields[0].payload|) + fields[0].payload + EncodeFields(fields[1..])
  }

  function FieldIds(fields: seq<ExtraField>): seq<nat> {
    seq(|fields|, i requires 0 <= i < |fields| => fields[i].id)
  }

  /** Reading undoes writing: the ids of joined (id, size, payload) fields come back, whatever stump follows them. */
  lemma {:induction false} IdsInvertFields(before: seq<Byte>, fields: seq<ExtraField>, stump: seq<Byte>, ids: seq<nat>)
    requires forall f | f in fields :: FieldFits(f)
    requires |stump| < 4
    ensures IdsFrom(before + EncodeFields(fields) + stump, |before|, ids) == ids + FieldIds(fields)
    decreases |fields|
  {
    var extra := before + EncodeFields(fields) + stump;
    if fields == [] {
      assert ids + FieldIds(fields) == ids;
    } else {
      var first, rest := fields[0], fields[1..];
      var head := Pack16(first.id) + Pack16(|first.payload|) + first.payload;
      assert extra == (before + head) + EncodeFields(rest) + stump;
      FieldReads(before, first, EncodeFields(rest) + stump);
      assert extra == before + head + (EncodeFields(rest) + stump);
      IdsInvertFields(before + head, rest, stump, ids + [first.id]);
      assert (ids + [first.id]) + FieldIds(rest) == ids + FieldIds(fields);
    }
  }

  lemma FieldReads(before: seq<Byte>, f: ExtraField, after: seq<Byte>)
    requires FieldFits(f)
    ensures var extra := before + (Pack16(f.id) + Pack16(|f.payload|) + f.payload) + after;
            && Read16(extra, |before|) == f.id
            && Read16(extra, |before| + 2) == |f.payload|
  {
    var extra := before + (Pack16(f.id) + Pack16(|f.payload|) + f.payload) + after;
    assert extra == before + Pack16(f.id) + (Pack16(|f.payload|) + f.payload + after);
    ReadBack16(before, f.id, Pack16(|f.payload|) + f.payload + after);
    assert extra == (before + Pack16(f.id)) + Pack16(|f.payload|) + (f.payload + after);
    ReadBack16(before + Pack16(f.id), |f.payload|, f.payload + after);
  }

  // ---------------------------------------------------------------- the check

  /** General purpose flag bit 3: the entry is followed by a data descriptor. */
  predicate DescriptorFlag(flags: nat) {
    (flags / 8) % 2 == 1
  }

  function Lower(b: Byte): Byte {
    if 0x41 <= b <= 0x5A then b + 0x20 else b
  }

  function LowerName(name: seq<Byte>): (lowered: seq<Byte>)
    ensures |lowered| == |name|
  {
    seq(|name|, i requires 0 <= i < |name| => Lower(name[i]))
  }

  function CentralSize(data: seq<Byte>, at: nat): (size: nat)
    requires at + NupkgUnsign.CENTRAL_SIZE <= |data|
    ensures size >= NupkgUnsign.CENTRAL_SIZE
  {
    46 + Read16(data, at + 28) + Read16(data, at + 30) + Read16(data, at + 32)
  }

  function EntryName(data: seq<Byte>, at: nat): seq<Byte>
    requires at + NupkgUnsign.CENTRAL_SIZE <= |data|
  {
    Slice(data, at + 46, at + 46 + Read16(data, at + 28))
  }

  function CentralExtra(data: seq<Byte>, at: nat): seq<Byte>
    requires at + NupkgUnsign.CENTRAL_SIZE <= |data|
  {
    var from := at + 46 + Read16(data, at + 28);
    Slice(data, from, from + Read16(data, at + 30))
  }

  function LocalExtra(data: seq<Byte>, local: nat): seq<Byte>
    requires local + LOCAL_SIZE <= |data|
  {
    var from := local + 30 + Read16(data, local + 26);
    Slice(data, from, from + Read16(data, local + 28))
  }

  /** The central record is in zip64 form by its own header. */
  predicate CentralZip64(data: seq<Byte>, at: nat)
    requires at + NupkgUnsign.CENTRAL_SIZE <= |data|
  {
    || SENTINEL_32 in [Read32(data, at + 20), Read32(data, at + 24), Read32(data, at + 42)]
    || ZIP64_EXTRA_ID in IdsFrom(CentralExtra(data, at), 0, [])
  }

  function Flagged(entry: seq<Byte>, descriptor: bool, zip64: bool): seq<Problem> {
    (if descriptor then [DataDescriptor(entry)] else []) + (if zip64 then [Zip64Entry(entry)] else [])
  }

  /** What one record and its local header have wrong with them. */
  function RecordProblems(data: seq<Byte>, at: nat): Result<seq<Problem>, Crash>
    requires at + NupkgUnsign.CENTRAL_SIZE <= |data|
  {
    var entry, local := EntryName(data, at), Read32(data, at + 42);
    var signed := if LowerName(entry) == NupkgUnsign.SIGNATURE_ENTRY then [AlreadySigned(entry)] else [];
    var descriptor := DescriptorFlag(Read16(data, at + 8));
    if CentralZip64(data, at) then Success(signed + Flagged(entry, descriptor, true))
    else if !MarkerAt(data, local, LOCAL_MARKER) then Success(signed + [NoLocalHeader(entry, local)])
    else if local + LOCAL_SIZE > |data| then Failure(StructError)
    else Success(signed + Flagged(entry, descriptor || DescriptorFlag(Read16(data, local + 6)),
                                  ZIP64_EXTRA_ID in IdsFrom(LocalExtra(data, local), 0, [])))
  }

  /** The rest of the walk, with the problems found before it. */
  function WalkProblems(data: seq<Byte>, offset: nat, left: nat, problems: seq<Problem>): Result<seq<Problem>, Crash>
    decreases left
  {
    if left == 0 then Success(problems)
    else if !MarkerAt(data, offset, NupkgUnsign.CENTRAL_MARKER) then Success(problems + [NoCentralRecord(offset)])
    else if offset + NupkgUnsign.CENTRAL_SIZE > |data| then Failure(StructError)
    else
      var found :- RecordProblems(data, offset);
      WalkProblems(data, offset + CentralSize(data, offset), left - 1, problems + found)
  }

  predicate ArchiveZip64(data: seq<Byte>, end: nat)
    requires end + NupkgUnsign.END_SIZE <= |data|
  {
    || (end >= LOCATOR_SIZE && MarkerAt(data, end - LOCATOR_SIZE, LOCATOR_MARKER))
    || SENTINEL_16 in [Read16(data, end + 8), Read16(data, end + 10)]
    || SENTINEL_32 in [Read32(data, end + 12), Read32(data, end + 16)]
  }

  function LayoutProblems(data: seq<Byte>): Result<seq<Problem>, Crash> {
    var end := LastMarker(data, NupkgUnsign.END_MARKER);
    if end < 0 || end + NupkgUnsign.END_SIZE > |data| then Success([NoEndRecord])
    else
      var trailing := |data| - (end + NupkgUnsign.END_SIZE);
      var problems := if trailing > 0 then [BytesFollow(trailing)] else [];
      if ArchiveZip64(data, end) then Success(problems + [Zip64Archive])
      else if Read32(data, end + 16) + Read32(data, end + 12) > end then Success(problems + [DirectoryPastEnd])
      else WalkProblems(data, Read32(data, end + 16), Read16(data, end + 10), problems)
  }

  /** check_signable_layout as it runs, appending to the problems it is handed. */
  method CheckSignableLayout(data: seq<Byte>, given: seq<Problem>) returns (r: Result<seq<Problem>, Crash>)
    ensures LayoutProblems(data).Failure? <==> r.Failure?
    ensures r.Success? ==> r.value == given + LayoutProblems(data).value
  {
    hide RecordProblems, CentralSize, ArchiveZip64;
    var end := LastMarker(data, NupkgUnsign.END_MARKER);
    if end < 0 || end + NupkgUnsign.END_SIZE > |data| {
      return Success(given + [NoEndRecord]);
    }
    var problems: seq<Problem> := [];
    var total := Read16(data, end + 10);
    var trailing := |data| - (end + NupkgUnsign.END_SIZE);
    if trailing > 0 {
      problems := problems + [BytesFollow(trailing)];
    }
    assert problems == if trailing > 0 then [BytesFollow(trailing)] else [];
    if ArchiveZip64(data, end) {
      return Success(given + (problems + [Zip64Archive]));
    }
    if Read32(data, end + 16) + Read32(data, end + 12) > end {
      return Success(given + (problems + [DirectoryPastEnd]));
    }
    var start: nat := Read32(data, end + 16);
    var offset: nat := start;
    ghost var whole := WalkProblems(data, start, total, problems);
    assert LayoutProblems(data) == whole;
    for i := 0 to total
      invariant whole == WalkProblems(data, offset, total - i, problems)
    {
      if !MarkerAt(data, offset, NupkgUnsign.CENTRAL_MARKER) {
        return Success(given + (problems + [NoCentralRecord(offset)]));
      }
      if offset + NupkgUnsign.CENTRAL_SIZE > |data| {
        return Failure(StructError);
      }
      var found := RecordProblems(data, offset);
      if found.Failure? {
        return Failure(found.error);
      }
      problems := problems + found.value;
      offset := offset + CentralSize(data, offset);
    }
    r := Success(given + problems);
  }

  // ---------------------------------------------------------------- what acceptance means

  /** A whole record header starts at `at`. */
  predicate HeaderAt(data: seq<Byte>, at: nat) {
    MarkerAt(data, at, NupkgUnsign.CENTRAL_MARKER) && at + NupkgUnsign.CENTRAL_SIZE <= |data|
  }

  /** The record at `at` and its local header have none of the shapes signing would rewrite. */
  predicate CleanEntry(data: seq<Byte>, at: nat)
    requires at + NupkgUnsign.CENTRAL_SIZE <= |data|
  {
    && LowerName(EntryName(data, at)) != NupkgUnsign.SIGNATURE_ENTRY
    && !CentralZip64(data, at)
    && !DescriptorFlag(Read16(data, at + 8))
    && CleanLocal(data, Read32(data, at + 42))
  }

  predicate CleanLocal(data: seq<Byte>, local: nat) {
    && MarkerAt(data, local, LOCAL_MARKER) && local + LOCAL_SIZE <= |data|
    && !DescriptorFlag(Read16(data, local + 6))
    && ZIP64_EXTRA_ID !in IdsFrom(LocalExtra(data, local), 0, [])
  }

  /** `left` clean records follow one another from `at` on. */
  predicate CleanDirectory(data: seq<Byte>, at: nat, left: nat)
    decreases left
  {
    left > 0 ==> HeaderAt(data, at) && CleanEntry(data, at) && CleanDirectory(data, at + CentralSize(data, at), left - 1)
  }

  /** The places the records of a clean directory start at, and where the last one ends. */
  ghost predicate CleanStarts(data: seq<Byte>, at: nat, left: nat, starts: seq<nat>) {
    && |starts| == left + 1 && starts[0] == at
    && forall i | 0 <= i < left ::
         HeaderAt(data, starts[i]) && CleanEntry(data, starts[i]) && starts[i + 1] == starts[i] + CentralSize(data, starts[i])
  }

  ghost predicate CleanlyLaidOut(data: seq<Byte>, at: nat, left: nat) {
    exists starts :: CleanStarts(data, at, left, starts)
  }

  /** The layout the check promises: one end record, at the end of the file, over clean records, and nothing in zip64 form. */
  ghost predicate Signable(data: seq<Byte>) {
    exists end: nat ::
      && MarkerAt(data, end, NupkgUnsign.END_MARKER)
      && (forall i: nat | MarkerAt(data, i, NupkgUnsign.END_MARKER) :: i <= end)
      && end + NupkgUnsign.END_SIZE == |data|
      && !ArchiveZip64(data, end)
      && Read32(data, end + 16) + Read32(data, end + 12) <= end
      && CleanlyLaidOut(data, Read32(data, end + 16), Read16(data, end + 10))
  }

  lemma RecordCleanIffNoProblem(data: seq<Byte>, at: nat)
    requires HeaderAt(data, at)
    ensures RecordProblems(data, at) == Success([]) <==> CleanEntry(data, at)
  {
    hide MarkerAt, CentralZip64, IdsFrom, LowerName, EntryName, LocalExtra, Read16, Read32, DescriptorFlag;
  }

  lemma {:induction false} ProblemsOnlyGrow(data: seq<Byte>, offset: nat, left: nat, problems: seq<Problem>)
    ensures var r := WalkProblems(data, offset, left, problems); r.Success? ==> problems <= r.value
    decreases left
  {
    hide RecordProblems, CentralSize;
    if left > 0 && MarkerAt(data, offset, NupkgUnsign.CENTRAL_MARKER) && offset + NupkgUnsign.CENTRAL_SIZE <= |data| {
      var found := RecordProblems(data, offset);
      if found.Success? {
        ProblemsOnlyGrow(data, offset + CentralSize(data, offset), left - 1, problems + found.value);
      }
    }
  }

  lemma {:induction false} WalkCleanIffNoProblem(data: seq<Byte>, offset: nat, left: nat)
    ensures WalkProblems(data, offset, left, []) == Success([]) <==> CleanDirectory(data, offset, left)
    decreases left
  {
    hide RecordProblems, CentralSize, CleanEntry;
    if left > 0 && HeaderAt(data, offset) {
      RecordCleanIffNoProblem(data, offset);
      var found := RecordProblems(data, offset);
      if found.Success? {
        var next := offset + CentralSize(data, offset);
        assert [] + found.value == found.value;
        if found.value == [] {
          WalkCleanIffNoProblem(data, next, left - 1);
        } else {
          ProblemsOnlyGrow(data, next, left - 1, found.value);
        }
      }
    }
  }

  lemma {:induction false} CleanDirectoryStarts(data: seq<Byte>, at: nat, left: nat) returns (starts: seq<nat>)
    requires CleanDirectory(data, at, left)
    ensures CleanStarts(data, at, left, starts)
    decreases left
  {
    hide CleanEntry, CentralSize;
    if left == 0 {
      starts := [at];
    } else {
      var rest := CleanDirectoryStarts(data, at + CentralSize(data, at), left - 1);
      starts := [at] + rest;
    }
  }

  lemma {:induction false} StartsCleanDirectory(data: seq<Byte>, at: nat, left: nat, starts: seq<nat>)
    requires CleanStarts(data, at, left, starts)
    ensures CleanDirectory(data, at, left)
    decreases left
  {
    hide CleanEntry, CentralSize;
    if left == 0 {
    } else {
      assert HeaderAt(data, starts[0]);
      StartsCleanDirectory(data, at + CentralSize(data, at), left - 1, starts[1..]);
    }
  }

  /** The check reports nothing, and does not run off the file, on exactly the layouts it promises. */
  lemma AcceptedIffSignable(data: seq<Byte>)
    ensures LayoutProblems(data) == Success([]) <==> Signable(data)
  {
    hide CleanStarts, CleanDirectory, WalkProblems, ArchiveZip64, MarkerAt;
    var end := LastMarker(data, NupkgUnsign.END_MARKER);
    if end >= 0 && end + NupkgUnsign.END_SIZE <= |data| {
      var at, left := Read32(data, end + 16), Read16(data, end + 10);
      WalkCleanIffNoProblem(data, at, left);
      if CleanDirectory(data, at, left) {
        var starts := CleanDirectoryStarts(data, at, left);
      }
      forall starts | CleanStarts(data, at, left, starts) ensures CleanDirectory(data, at, left) {
        StartsCleanDirectory(data, at, left, starts);
      }
      if |data| > end + NupkgUnsign.END_SIZE {
        ProblemsOnlyGrow(data, at, left, [BytesFollow(|data| - (end + NupkgUnsign.END_SIZE))]);
      }
    }
  }
}
