/**
  The layouts the package check accepts, read off the headers of the file field by field, and which problem it reports
  for which header (PKWARE APPNOTE, sections 4.3.7, 4.3.12, 4.3.16, 4.4.4 and 4.5.1).

  A header is what stands at its place in the file; none of the predicates the check itself is made of is used to say
  what a clean one is.
*/
module SignableHeaders {
  import opened Outcomes
  import opened Bytes
  import opened SignableLayout
  import NupkgUnsign

  // ---------------------------------------------------------------- fields, as they stand in the file

  predicate Word(data: seq<Byte>, at: nat, n: nat) {
    at + 2 <= |data| && n == data[at] as int + 0x100 * (data[at + 1] as int)
  }

  predicate Double(data: seq<Byte>, at: nat, n: nat) {
    && at + 4 <= |data|
    && n == data[at] as int + 0x100 * (data[at + 1] as int) + 0x1_0000 * (data[at + 2] as int)
            + 0x100_0000 * (data[at + 3] as int)
  }

  /** "PK" and two more bytes. */
  predicate Marked(data: seq<Byte>, at: nat, third: Byte, fourth: Byte) {
    at + 4 <= |data| && data[at] == 0x50 && data[at + 1] == 0x4B && data[at + 2] == third && data[at + 3] == fourth
  }

  /** So many bytes from `at` on, as far as the file goes. */
  function Stretch(data: seq<Byte>, at: nat, size: nat): seq<Byte> {
    if at >= |data| then []
    else if at + size <= |data| then data[at..at + size]
    else data[at..]
  }

  datatype CentralHeader = CentralHeader(
    flags: nat, packed: nat, unpacked: nat, nameLength: nat, extraLength: nat, commentLength: nat, localAt: nat,
    name: seq<Byte>, extra: seq<Byte>)

  predicate CentralAt(data: seq<Byte>, at: nat, h: CentralHeader) {
    && at + 46 <= |data| && Marked(data, at, 1, 2)
    && Word(data, at + 8, h.flags) && Double(data, at + 20, h.packed) && Double(data, at + 24, h.unpacked)
    && Word(data, at + 28, h.nameLength) && Word(data, at + 30, h.extraLength) && Word(data, at + 32, h.commentLength)
    && Double(data, at + 42, h.localAt)
    && h.name == Stretch(data, at + 46, h.nameLength)
    && h.extra == Stretch(data, at + 46 + h.nameLength, h.extraLength)
  }

  /** Where the record behind this one starts. */
  function Behind(at: nat, h: CentralHeader): nat {
    at + 46 + h.nameLength + h.extraLength + h.commentLength
  }

  datatype LocalHeader = LocalHeader(flags: nat, nameLength: nat, extraLength: nat, extra: seq<Byte>)

  predicate LocalAt(data: seq<Byte>, at: nat, l: LocalHeader) {
    && at + 30 <= |data| && Marked(data, at, 3, 4)
    && Word(data, at + 6, l.flags) && Word(data, at + 26, l.nameLength) && Word(data, at + 28, l.extraLength)
    && l.extra == Stretch(data, at + 30 + l.nameLength, l.extraLength)
  }

  datatype EndHeader = EndHeader(onDisk: nat, total: nat, size: nat, offset: nat)

  predicate EndAt(data: seq<Byte>, at: nat, e: EndHeader) {
    && at + 22 <= |data| && Marked(data, at, 5, 6)
    && Word(data, at + 8, e.onDisk) && Word(data, at + 10, e.total)
    && Double(data, at + 12, e.size) && Double(data, at + 16, e.offset)
  }

  /** An end record here, and its marker nowhere behind. */
  ghost predicate LastEnd(data: seq<Byte>, at: nat, e: EndHeader) {
    EndAt(data, at, e) && forall i | at < i < |data| :: !Marked(data, i, 5, 6)
  }

  /** These records stand one behind the other from `at` on. */
  predicate DirectoryAt(data: seq<Byte>, at: nat, hs: seq<CentralHeader>)
    decreases |hs|
  {
    hs == [] || (CentralAt(data, at, hs[0]) && DirectoryAt(data, Behind(at, hs[0]), hs[1..]))
  }

  function DirectoryStop(at: nat, hs: seq<CentralHeader>): (stop: nat)
    decreases |hs|
  {
    if hs == [] then at else DirectoryStop(Behind(at, hs[0]), hs[1..])
  }

  // ---------------------------------------------------------------- what is wrong with a header

  /** Bit 3 of a flags field: the low four bits are worth eight at least. */
  predicate DescriptorBit(flags: nat) {
    flags % 16 >= 8
  }

  /** Behind some whole fields an extra field with this id begins. */
  ghost predicate CarriesId(extra: seq<Byte>, id: nat) {
    exists fields, size: nat, rest :: BeginsField(extra, fields, id, size, rest)
  }

  ghost predicate BeginsField(extra: seq<Byte>, fields: seq<ExtraField>, id: nat, size: nat, rest: seq<Byte>) {
    && (forall f | f in fields :: FieldFits(f))
    && id < 0x1_0000 && size < 0x1_0000
    && extra == EncodeFields(fields) + Pack16(id) + Pack16(size) + rest
  }

  const SIGNATURE_NAME := ".signature.p7s"

  /** The name of the signature entry, in letters of either case. */
  predicate SpellsSignature(name: seq<Byte>) {
    && |name| == |SIGNATURE_NAME|
    && forall i | 0 <= i < |name| ::
         || name[i] == SIGNATURE_NAME[i] as int
         || ('a' <= SIGNATURE_NAME[i] <= 'z' && name[i] as int + 32 == SIGNATURE_NAME[i] as int)
  }

  ghost predicate InZip64Form(h: CentralHeader) {
    h.packed == 0xFFFF_FFFF || h.unpacked == 0xFFFF_FFFF || h.localAt == 0xFFFF_FFFF || CarriesId(h.extra, 1)
  }

  /** The archive has a zip64 locator, or an end record that refers to one. */
  ghost predicate NeedsZip64(data: seq<Byte>, at: nat, e: EndHeader) {
    || (at >= 20 && Marked(data, at - 20, 6, 7))
    || e.onDisk == 0xFFFF || e.total == 0xFFFF || e.size == 0xFFFF_FFFF || e.offset == 0xFFFF_FFFF
  }

  ghost predicate CleanHeaders(h: CentralHeader, l: LocalHeader) {
    && !SpellsSignature(h.name) && !InZip64Form(h) && !DescriptorBit(h.flags)
    && !DescriptorBit(l.flags) && !CarriesId(l.extra, 1)
  }

  /** The file ends in one end record over records that are clean, with their local headers where they say. */
  ghost predicate CleanFile(data: seq<Byte>, e: EndHeader, hs: seq<CentralHeader>, ls: seq<LocalHeader>) {
    && |data| >= 22 && LastEnd(data, |data| - 22, e)
    && !NeedsZip64(data, |data| - 22, e) && e.offset + e.size <= |data| - 22
    && |hs| == |ls| == e.total && DirectoryAt(data, e.offset, hs)
    && forall i | 0 <= i < |hs| :: LocalAt(data, hs[i].localAt, ls[i]) && CleanHeaders(hs[i], ls[i])
  }

  /** A record with this header is reported as this problem. */
  ghost predicate Shows(data: seq<Byte>, h: CentralHeader, p: Problem) {
    match p
    case AlreadySigned(entry) => entry == h.name && SpellsSignature(h.name)
    case Zip64Entry(entry) =>
      entry == h.name && (InZip64Form(h) || exists l | LocalAt(data, h.localAt, l) :: CarriesId(l.extra, 1))
    case DataDescriptor(entry) =>
      && entry == h.name
      && if InZip64Form(h) then DescriptorBit(h.flags)
         else exists l | LocalAt(data, h.localAt, l) :: DescriptorBit(h.flags) || DescriptorBit(l.flags)
    case NoLocalHeader(entry, at) =>
      entry == h.name && at == h.localAt && !InZip64Form(h) && !Marked(data, h.localAt, 3, 4)
    case _ => false
  }

  /** The local header of a record runs off the end of the file. */
  ghost predicate CutOff(data: seq<Byte>, h: CentralHeader) {
    !InZip64Form(h) && Marked(data, h.localAt, 3, 4) && h.localAt + 30 > |data|
  }

  // ---------------------------------------------------------------- the fields the check reads

  lemma WordReads(data: seq<Byte>, at: nat, n: nat)
    requires at + 2 <= |data|
    ensures Word(data, at, n) <==> n == Read16(data, at)
  {}

  lemma DoubleReads(data: seq<Byte>, at: nat, n: nat)
    requires at + 4 <= |data|
    ensures Double(data, at, n) <==> n == Read32(data, at)
  {}

  lemma StretchSlices(data: seq<Byte>, at: nat, size: nat)
    ensures Stretch(data, at, size) == Slice(data, at, at + size)
  {}

  lemma BitIsFlag(flags: nat)
    ensures DescriptorBit(flags) <==> DescriptorFlag(flags)
  {}

  lemma SpelledIsLowered(name: seq<Byte>)
    ensures SpellsSignature(name) <==> LowerName(name) == NupkgUnsign.SIGNATURE_ENTRY
  {
    SignatureBytes();
    var lowered := LowerName(name);
    if SpellsSignature(name) {
      forall i | 0 <= i < |name| ensures lowered[i] == NupkgUnsign.SIGNATURE_ENTRY[i] {}
    }
    if lowered == NupkgUnsign.SIGNATURE_ENTRY {
      forall i | 0 <= i < |name|
        ensures name[i] == SIGNATURE_NAME[i] as int
                || ('a' <= SIGNATURE_NAME[i] <= 'z' && name[i] as int + 32 == SIGNATURE_NAME[i] as int)
      {
        assert lowered[i] == SIGNATURE_NAME[i] as int;
      }
    }
  }

  lemma SignatureBytes()
    ensures |SIGNATURE_NAME| == |NupkgUnsign.SIGNATURE_ENTRY|
    ensures forall i | 0 <= i < |SIGNATURE_NAME| ::
              NupkgUnsign.SIGNATURE_ENTRY[i] == SIGNATURE_NAME[i] as int && !(0x41 <= NupkgUnsign.SIGNATURE_ENTRY[i] <= 0x5A)
  {}

  // ---------------------------------------------------------------- extra fields

  lemma {:induction false} IdsBehind(extra: seq<Byte>, offset: nat, ids: seq<nat>)
    ensures IdsFrom(extra, offset, ids) == ids + IdsFrom(extra, offset, [])
    decreases if offset <= |extra| then |extra| - offset else 0
  {
    if offset + 4 > |extra| {
    } else {
      var next, id := offset + 4 + Read16(extra, offset + 2), Read16(extra, offset);
      IdsBehind(extra, next, ids + [id]);
      IdsBehind(extra, next, [id]);
      assert [] + [id] == [id];
    }
  }

  /** Whole fields are walked over, and the walk goes on behind them. */
  lemma {:induction false} IdsPastFields(before: seq<Byte>, fields: seq<ExtraField>, rest: seq<Byte>)
    requires forall f | f in fields :: FieldFits(f)
    ensures var extra := before + EncodeFields(fields) + rest;
            IdsFrom(extra, |before|, []) == FieldIds(fields) + IdsFrom(extra, |before| + |EncodeFields(fields)|, [])
    decreases |fields|
  {
    hide Read16, Pack16, IdsFrom;
    var extra := before + EncodeFields(fields) + rest;
    if fields == [] {
      assert FieldIds(fields) == [];
    } else {
      var first, others := fields[0], fields[1..];
      var head := Pack16(first.id) + Pack16(|first.payload|) + first.payload;
      assert extra == (before + head) + EncodeFields(others) + rest;
      FieldReads(before, first, EncodeFields(others) + rest);
      assert extra == before + head + (EncodeFields(others) + rest);
      IdsPastFields(before + head, others, rest);
      IdsStep(extra, |before|);
      IdsBehind(extra, |before + head|, [first.id]);
      assert FieldIds(fields) == [first.id] + FieldIds(others);
    }
  }

  /** The id of a field that begins at `at` is found there. */
  lemma FieldIsFound(before: seq<Byte>, id: nat, size: nat, rest: seq<Byte>)
    requires id < 0x1_0000 && size < 0x1_0000
    ensures id in IdsFrom(before + (Pack16(id) + Pack16(size) + rest), |before|, [])
  {
    hide *;
    var extra, tail := before + (Pack16(id) + Pack16(size) + rest), Pack16(size) + rest;
    JoinThree(Pack16(id), Pack16(size), rest);
    JoinThree(before, Pack16(id), tail);
    ReadBack16(before, id, tail);
    IdsStep(extra, |before|);
    var others := IdsFrom(extra, |before| + 4 + Read16(extra, |before| + 2), []);
    IdsBehind(extra, |before| + 4 + Read16(extra, |before| + 2), [id]);
    assert ([id] + others)[0] == id;
  }

  lemma IdsStep(extra: seq<Byte>, at: nat)
    requires at + 4 <= |extra|
    ensures IdsFrom(extra, at, []) == IdsFrom(extra, at + 4 + Read16(extra, at + 2), [Read16(extra, at)])
  {
    assert [] + [Read16(extra, at)] == [Read16(extra, at)];
  }

  lemma CarriedIsFound(extra: seq<Byte>, id: nat)
    requires CarriesId(extra, id)
    ensures id in IdsFrom(extra, 0, [])
  {
    hide IdsFrom, Pack16, EncodeFields, FieldFits;
    var fields, size: nat, rest :| BeginsField(extra, fields, id, size, rest);
    var tail := Pack16(id) + Pack16(size) + rest;
    assert extra == EncodeFields(fields) + tail;
    assert extra == [] + EncodeFields(fields) + tail;
    IdsPastFields([], fields, tail);
    FieldIsFound(EncodeFields(fields), id, size, rest);
  }

  /** Where an id is found, so many whole fields lie before it. */
  lemma {:induction false} FoundIsCarried(extra: seq<Byte>, offset: nat, id: nat)
    returns (fields: seq<ExtraField>, size: nat, rest: seq<Byte>)
    requires offset <= |extra| && id in IdsFrom(extra, offset, [])
    ensures BeginsField(extra[offset..], fields, id, size, rest)
    decreases |extra| - offset
  {
    hide IdsFrom, Read16, Pack16, EncodeFields;
    FoundHasRoom(extra, offset, id);
    var tail, length, found := extra[offset..], Read16(extra, offset + 2), Read16(extra, offset);
    var next := offset + 4 + length;
    IdsStep(extra, offset);
    IdsBehind(extra, next, [found]);
    PackReads16(extra, offset);
    PackReads16(extra, offset + 2);
    if found == id {
      fields, size, rest := [], length, extra[offset + 4..];
      assert tail == extra[offset..offset + 2] + extra[offset + 2..offset + 4] + rest;
      BeginsHere(tail, id, size, rest);
    } else {
      FoundHasRoom(extra, next, id);
      var first := ExtraField(found, extra[offset + 4..next]);
      var others;
      others, size, rest := FoundIsCarried(extra, next, id);
      fields := [first] + others;
      FieldInFront(extra, offset, next, first, others, id, size, rest);
    }
  }

  lemma BeginsHere(tail: seq<Byte>, id: nat, size: nat, rest: seq<Byte>)
    requires id < 0x1_0000 && size < 0x1_0000 && tail == Pack16(id) + Pack16(size) + rest
    ensures BeginsField(tail, [], id, size, rest)
  {
    hide Pack16;
    assert EncodeFields([]) + Pack16(id) == Pack16(id);
  }

  lemma FoundHasRoom(extra: seq<Byte>, at: nat, id: nat)
    requires id in IdsFrom(extra, at, [])
    ensures at + 4 <= |extra|
  {}

  lemma FieldInFront(extra: seq<Byte>, offset: nat, next: nat, first: ExtraField, others: seq<ExtraField>, id: nat,
                     size: nat, rest: seq<Byte>)
    requires offset + 4 <= next <= |extra| && next == offset + 4 + Read16(extra, offset + 2)
    requires first == ExtraField(Read16(extra, offset), extra[offset + 4..next])
    requires BeginsField(extra[next..], others, id, size, rest)
    ensures BeginsField(extra[offset..], [first] + others, id, size, rest)
  {
    hide Read16, Pack16;
    PackReads16(extra, offset);
    PackReads16(extra, offset + 2);
    assert FieldFits(first);
    var head := Pack16(first.id) + Pack16(|first.payload|) + first.payload;
    assert head == extra[offset..offset + 2] + extra[offset + 2..offset + 4] + extra[offset + 4..next];
    assert extra[offset..] == head + extra[next..];
    assert ([first] + others)[1..] == others;
    assert EncodeFields([first] + others) == head + EncodeFields(others);
    assert extra[offset..] == EncodeFields([first] + others) + Pack16(id) + Pack16(size) + rest;
  }

  lemma CarriedIffFound(extra: seq<Byte>, id: nat)
    ensures CarriesId(extra, id) <==> id in IdsFrom(extra, 0, [])
  {
    if CarriesId(extra, id) {
      CarriedIsFound(extra, id);
    }
    if id in IdsFrom(extra, 0, []) {
      var fields, size, rest := FoundIsCarried(extra, 0, id);
      assert extra[0..] == extra;
    }
  }

  // ---------------------------------------------------------------- what the check reads of a header

  /** The header the check reads at a place. */
  function HeaderOf(data: seq<Byte>, at: nat): CentralHeader
    requires at + 46 <= |data|
  {
    CentralHeader(Read16(data, at + 8), Read32(data, at + 20), Read32(data, at + 24), Read16(data, at + 28),
                  Read16(data, at + 30), Read16(data, at + 32), Read32(data, at + 42), EntryName(data, at),
                  CentralExtra(data, at))
  }

  lemma HeaderStands(data: seq<Byte>, at: nat, h: CentralHeader)
    ensures CentralAt(data, at, h) <==> HeaderAt(data, at) && h == HeaderOf(data, at)
    ensures CentralAt(data, at, h) ==> Behind(at, h) == at + CentralSize(data, at)
  {
    if at + 46 <= |data| {
      hide Read16, Read32, Word, Double, Stretch, Slice;
      WordReads(data, at + 8, h.flags);
      WordReads(data, at + 28, h.nameLength);
      WordReads(data, at + 30, h.extraLength);
      WordReads(data, at + 32, h.commentLength);
      DoubleReads(data, at + 20, h.packed);
      DoubleReads(data, at + 24, h.unpacked);
      DoubleReads(data, at + 42, h.localAt);
      StretchSlices(data, at + 46, h.nameLength);
      StretchSlices(data, at + 46 + h.nameLength, h.extraLength);
    }
  }

  function LocalOf(data: seq<Byte>, at: nat): LocalHeader
    requires at + 30 <= |data|
  {
    LocalHeader(Read16(data, at + 6), Read16(data, at + 26), Read16(data, at + 28), LocalExtra(data, at))
  }

  lemma LocalStands(data: seq<Byte>, at: nat, l: LocalHeader)
    ensures LocalAt(data, at, l) <==> MarkerAt(data, at, LOCAL_MARKER) && at + 30 <= |data| && l == LocalOf(data, at)
  {
    if at + 30 <= |data| {
      hide Read16, Word, Stretch, Slice;
      WordReads(data, at + 6, l.flags);
      WordReads(data, at + 26, l.nameLength);
      WordReads(data, at + 28, l.extraLength);
      StretchSlices(data, at + 30 + l.nameLength, l.extraLength);
    }
  }

  lemma EndStands(data: seq<Byte>, at: nat, e: EndHeader)
    ensures EndAt(data, at, e) <==>
      && at + 22 <= |data| && MarkerAt(data, at, NupkgUnsign.END_MARKER)
      && e == EndHeader(Read16(data, at + 8), Read16(data, at + 10), Read32(data, at + 12), Read32(data, at + 16))
  {
    if at + 22 <= |data| {
      hide Read16, Read32, Word, Double;
      WordReads(data, at + 8, e.onDisk);
      WordReads(data, at + 10, e.total);
      DoubleReads(data, at + 12, e.size);
      DoubleReads(data, at + 16, e.offset);
    }
  }

  lemma LastEndFound(data: seq<Byte>, at: nat, e: EndHeader)
    requires LastEnd(data, at, e)
    ensures LastMarker(data, NupkgUnsign.END_MARKER) == at
    ensures ArchiveZip64(data, at) <==> NeedsZip64(data, at, e)
  {
    EndStands(data, at, e);
    assert MarkerAt(data, at, NupkgUnsign.END_MARKER);
    forall i: nat | MarkerAt(data, i, NupkgUnsign.END_MARKER) ensures i <= at {
      assert Marked(data, i, 5, 6);
    }
    hide LastMarker, Read16, Read32;
  }

  lemma ZipFormIs(data: seq<Byte>, at: nat, h: CentralHeader)
    requires CentralAt(data, at, h)
    ensures CentralZip64(data, at) <==> InZip64Form(h)
  {
    HeaderStands(data, at, h);
    CarriedIffFound(h.extra, 1);
    hide CarriesId, Read32, CentralExtra, CentralAt, IdsFrom;
  }

  /** What the check says of one record, in terms of its headers. */
  lemma RecordSpelled(data: seq<Byte>, at: nat, h: CentralHeader)
    requires CentralAt(data, at, h) && HeaderAt(data, at)
    ensures var signed := if SpellsSignature(h.name) then [AlreadySigned(h.name)] else [];
            RecordProblems(data, at) ==
            (if InZip64Form(h) then Success(signed + Flagged(h.name, DescriptorBit(h.flags), true))
             else if !Marked(data, h.localAt, 3, 4) then Success(signed + [NoLocalHeader(h.name, h.localAt)])
             else if h.localAt + 30 > |data| then Failure(StructError)
             else
               var l := LocalOf(data, h.localAt);
               Success(signed + Flagged(h.name, DescriptorBit(h.flags) || DescriptorBit(l.flags), CarriesId(l.extra, 1))))
  {
    HeaderStands(data, at, h);
    ZipFormIs(data, at, h);
    SpelledIsLowered(h.name);
    BitIsFlag(h.flags);
    assert Marked(data, h.localAt, 3, 4) <==> MarkerAt(data, h.localAt, LOCAL_MARKER);
    if h.localAt + 30 <= |data| {
      var l := LocalOf(data, h.localAt);
      BitIsFlag(l.flags);
      CarriedIffFound(l.extra, 1);
    }
    hide CentralZip64, InZip64Form, SpellsSignature, LowerName, CarriesId, IdsFrom, Read16, Read32, EntryName, Flagged;
    hide DescriptorBit, DescriptorFlag, CentralAt, LocalExtra, CentralExtra, MarkerAt, Marked;
  }

  lemma FlaggedHas(signed: bool, entry: seq<Byte>, descriptor: bool, zip64: bool, p: Problem)
    ensures var problems := (if signed then [AlreadySigned(entry)] else []) + Flagged(entry, descriptor, zip64);
            p in problems <==>
              || (signed && p == AlreadySigned(entry))
              || (descriptor && p == DataDescriptor(entry))
              || (zip64 && p == Zip64Entry(entry))
  {}

  lemma OnlyLocal(data: seq<Byte>, at: nat)
    ensures (exists l :: LocalAt(data, at, l)) <==> Marked(data, at, 3, 4) && at + 30 <= |data|
    ensures forall l | LocalAt(data, at, l) :: at + 30 <= |data| && l == LocalOf(data, at)
    ensures at + 30 <= |data| && Marked(data, at, 3, 4) ==> LocalAt(data, at, LocalOf(data, at))
  {
    forall l ensures LocalAt(data, at, l)
      <==> MarkerAt(data, at, LOCAL_MARKER) && at + 30 <= |data| && l == LocalOf(data, at)
    {
      LocalStands(data, at, l);
    }
    assert Marked(data, at, 3, 4) <==> MarkerAt(data, at, LOCAL_MARKER);
    hide LocalAt, MarkerAt, Marked, LocalOf;
    if at + 30 <= |data| {
      assert Marked(data, at, 3, 4) <==> LocalAt(data, at, LocalOf(data, at));
    }
  }

  /** The problems a record is reported with are those its header shows; only a cut-off local header stops the check. */
  lemma RecordShows(data: seq<Byte>, at: nat, h: CentralHeader)
    requires CentralAt(data, at, h) && HeaderAt(data, at)
    ensures RecordProblems(data, at).Failure? <==> CutOff(data, h)
    ensures RecordProblems(data, at).Success? ==> forall p :: p in RecordProblems(data, at).value <==> Shows(data, h, p)
  {
    RecordSpelled(data, at, h);
    OnlyLocal(data, h.localAt);
    hide RecordProblems, InZip64Form, SpellsSignature, CarriesId, Flagged, Marked;
    hide DescriptorBit, LocalAt, CentralAt, LocalOf;
    var signed := SpellsSignature(h.name);
    if RecordProblems(data, at).Success? {
      forall p ensures p in RecordProblems(data, at).value <==> Shows(data, h, p) {
        if InZip64Form(h) {
          FlaggedHas(signed, h.name, DescriptorBit(h.flags), true, p);
        } else if Marked(data, h.localAt, 3, 4) {
          var l := LocalOf(data, h.localAt);
          FlaggedHas(signed, h.name, DescriptorBit(h.flags) || DescriptorBit(l.flags), CarriesId(l.extra, 1), p);
        }
      }
    }
  }

  lemma CleanLocalIs(data: seq<Byte>, at: nat)
    ensures CleanLocal(data, at) <==>
              exists l | LocalAt(data, at, l) :: !DescriptorBit(l.flags) && !CarriesId(l.extra, 1)
  {
    OnlyLocal(data, at);
    assert Marked(data, at, 3, 4) <==> MarkerAt(data, at, LOCAL_MARKER);
    if at + 30 <= |data| {
      BitIsFlag(LocalOf(data, at).flags);
      CarriedIffFound(LocalOf(data, at).extra, 1);
    }
    hide LocalAt, Marked, MarkerAt, CarriesId, IdsFrom, DescriptorBit, DescriptorFlag, Read16, LocalExtra;
  }

  /** An entry is clean exactly when it has a local header and both its headers are clean. */
  lemma CleanIsCleanHeaders(data: seq<Byte>, at: nat, h: CentralHeader)
    requires CentralAt(data, at, h) && HeaderAt(data, at)
    ensures CleanEntry(data, at) <==> exists l | LocalAt(data, h.localAt, l) :: CleanHeaders(h, l)
  {
    HeaderStands(data, at, h);
    ZipFormIs(data, at, h);
    SpelledIsLowered(h.name);
    BitIsFlag(h.flags);
    CleanLocalIs(data, h.localAt);
    hide LocalAt, CentralAt, CarriesId, DescriptorBit, DescriptorFlag, Read16, Read32, CleanLocal, CentralZip64, InZip64Form;
    hide LowerName, SpellsSignature, EntryName, CentralExtra;
  }

  // ---------------------------------------------------------------- the directory

  lemma {:induction false} DirectoryShows(data: seq<Byte>, at: nat, hs: seq<CentralHeader>, left: nat, problems: seq<Problem>)
    requires DirectoryAt(data, at, hs) && |hs| <= left
    requires |hs| < left ==> !Marked(data, DirectoryStop(at, hs), 1, 2) || DirectoryStop(at, hs) + 46 > |data|
    ensures var r := WalkProblems(data, at, left, problems);
            r.Failure? <==> || (exists i | 0 <= i < |hs| :: CutOff(data, hs[i]))
                            || (|hs| < left && Marked(data, DirectoryStop(at, hs), 1, 2))
    ensures var r := WalkProblems(data, at, left, problems);
            r.Success? ==> forall p :: p in r.value <==>
              || p in problems
              || (exists i | 0 <= i < |hs| :: Shows(data, hs[i], p))
              || (|hs| < left && p == NoCentralRecord(DirectoryStop(at, hs)))
    decreases left
  {
    hide RecordProblems, Shows, CutOff, Marked, CentralAt, Behind, MarkerAt;
    if left == 0 {
    } else if hs == [] {
      MarkedIs(data, at);
    } else {
      HeaderStands(data, at, hs[0]);
      RecordShows(data, at, hs[0]);
      var found := RecordProblems(data, at);
      SomeCutOff(data, hs);
      if found.Success? {
        var rest := WalkProblems(data, Behind(at, hs[0]), left - 1, problems + found.value);
        assert WalkProblems(data, at, left, problems) == rest;
        DirectoryShows(data, Behind(at, hs[0]), hs[1..], left - 1, problems + found.value);
        if rest.Success? {
          forall p ensures p in rest.value <==>
            || p in problems
            || (exists i | 0 <= i < |hs| :: Shows(data, hs[i], p))
            || (|hs| < left && p == NoCentralRecord(DirectoryStop(at, hs)))
          {
            SomeShows(data, hs, p);
            assert p in problems + found.value <==> p in problems || p in found.value;
          }
        }
      }
    }
  }

  lemma SomeCutOff(data: seq<Byte>, hs: seq<CentralHeader>)
    requires hs != []
    ensures (exists i | 0 <= i < |hs| :: CutOff(data, hs[i]))
       <==> CutOff(data, hs[0]) || exists i | 0 <= i < |hs[1..]| :: CutOff(data, hs[1..][i])
  {
    hide CutOff;
    forall i | 0 < i < |hs| ensures hs[i] == hs[1..][i - 1] {}
    forall i | 0 <= i < |hs[1..]| ensures hs[i + 1] == hs[1..][i] {}
  }

  lemma SomeShows(data: seq<Byte>, hs: seq<CentralHeader>, p: Problem)
    requires hs != []
    ensures (exists i | 0 <= i < |hs| :: Shows(data, hs[i], p))
       <==> Shows(data, hs[0], p) || exists i | 0 <= i < |hs[1..]| :: Shows(data, hs[1..][i], p)
  {
    hide Shows;
    forall i | 0 < i < |hs| ensures hs[i] == hs[1..][i - 1] {}
    forall i | 0 <= i < |hs[1..]| ensures hs[i + 1] == hs[1..][i] {}
  }

  lemma MarkedIs(data: seq<Byte>, at: nat)
    ensures Marked(data, at, 1, 2) <==> MarkerAt(data, at, NupkgUnsign.CENTRAL_MARKER)
  {}

  /** Some file is read as these headers whenever its directory is clean, and only then are they clean. */
  lemma {:induction false} CleanHeadersOf(data: seq<Byte>, at: nat, left: nat)
    returns (hs: seq<CentralHeader>, ls: seq<LocalHeader>)
    requires CleanDirectory(data, at, left)
    ensures |hs| == |ls| == left && DirectoryAt(data, at, hs)
    ensures forall i | 0 <= i < left :: LocalAt(data, hs[i].localAt, ls[i]) && CleanHeaders(hs[i], ls[i])
    decreases left
  {
    hide CleanEntry, CentralSize, CentralAt, LocalAt, CleanHeaders, Behind;
    if left == 0 {
      hs, ls := [], [];
    } else {
      var h := HeaderOf(data, at);
      HeaderStands(data, at, h);
      CleanIsCleanHeaders(data, at, h);
      var l :| LocalAt(data, h.localAt, l) && CleanHeaders(h, l);
      hide HeaderOf;
      hs, ls := CleanHeadersOf(data, Behind(at, h), left - 1);
      hs, ls := [h] + hs, [l] + ls;
    }
  }

  lemma {:induction false} CleanDirectoryOf(data: seq<Byte>, at: nat, hs: seq<CentralHeader>, ls: seq<LocalHeader>)
    requires |hs| == |ls| && DirectoryAt(data, at, hs)
    requires forall i | 0 <= i < |hs| :: LocalAt(data, hs[i].localAt, ls[i]) && CleanHeaders(hs[i], ls[i])
    ensures CleanDirectory(data, at, |hs|)
    decreases |hs|
  {
    hide CleanEntry, CentralSize, CentralAt, LocalAt, CleanHeaders, Behind;
    if hs == [] {
    } else {
      HeaderStands(data, at, hs[0]);
      CleanIsCleanHeaders(data, at, hs[0]);
      assert LocalAt(data, hs[0].localAt, ls[0]) && CleanHeaders(hs[0], ls[0]);
      CleanDirectoryOf(data, Behind(at, hs[0]), hs[1..], ls[1..]);
    }
  }

  // ---------------------------------------------------------------- the theorems

  /** The check reports nothing, and stays inside the file, on exactly the files that end in one clean directory. */
  lemma AcceptedIffClean(data: seq<Byte>)
    ensures LayoutProblems(data) == Success([]) <==> exists e, hs, ls :: CleanFile(data, e, hs, ls)
  {
    hide LayoutProblems, DirectoryAt, CleanHeaders, LocalAt;
    AcceptedIffSignable(data);
    if Signable(data) {
      AcceptedIsClean(data);
    }
    if e, hs, ls :| CleanFile(data, e, hs, ls) {
      CleanIsAccepted(data, e, hs, ls);
    }
  }

  lemma AcceptedIsClean(data: seq<Byte>)
    requires Signable(data)
    ensures exists e, hs, ls :: CleanFile(data, e, hs, ls)
  {
    hide ArchiveZip64, CleanStarts, DirectoryAt, CleanHeaders, LocalAt, NeedsZip64, Read16, Read32, CleanDirectory;
    var end: nat :| MarkerAt(data, end, NupkgUnsign.END_MARKER)
      && (forall i: nat | MarkerAt(data, i, NupkgUnsign.END_MARKER) :: i <= end)
      && end + NupkgUnsign.END_SIZE == |data| && !ArchiveZip64(data, end)
      && Read32(data, end + 16) + Read32(data, end + 12) <= end
      && CleanlyLaidOut(data, Read32(data, end + 16), Read16(data, end + 10));
    var e := EndHeader(Read16(data, end + 8), Read16(data, end + 10), Read32(data, end + 12), Read32(data, end + 16));
    EndStands(data, end, e);
    forall i | end < i < |data| ensures !Marked(data, i, 5, 6) {
      assert !MarkerAt(data, i, NupkgUnsign.END_MARKER);
    }
    LastEndFound(data, end, e);
    var starts :| CleanStarts(data, e.offset, e.total, starts);
    StartsCleanDirectory(data, e.offset, e.total, starts);
    var hs, ls := CleanHeadersOf(data, e.offset, e.total);
    assert CleanFile(data, e, hs, ls);
  }

  lemma CleanIsAccepted(data: seq<Byte>, e: EndHeader, hs: seq<CentralHeader>, ls: seq<LocalHeader>)
    requires CleanFile(data, e, hs, ls)
    ensures Signable(data)
  {
    hide ArchiveZip64, CleanStarts, DirectoryAt, CleanHeaders, LocalAt, NeedsZip64, CleanDirectory, MarkerAt, Marked;
    hide Read16, Read32;
    var end := |data| - 22;
    EndStands(data, end, e);
    LastEndFound(data, end, e);
    CleanDirectoryOf(data, e.offset, hs, ls);
    var starts := CleanDirectoryStarts(data, e.offset, e.total);
    assert LastMarker(data, NupkgUnsign.END_MARKER) == end;
  }

  /**
    Which problems a file is reported with, and when the check runs off its end instead: the bytes behind its end
    record; its zip64 form, or a directory past its end, and then nothing more; or what its records show, up to the first
    place that holds none.
  */
  lemma ProblemsShown(data: seq<Byte>, at: nat, e: EndHeader, hs: seq<CentralHeader>)
    requires LastEnd(data, at, e) && DirectoryAt(data, e.offset, hs) && |hs| <= e.total
    requires |hs| < e.total ==>
               !Marked(data, DirectoryStop(e.offset, hs), 1, 2) || DirectoryStop(e.offset, hs) + 46 > |data|
    ensures var r := LayoutProblems(data); var zip64, past := NeedsZip64(data, at, e), e.offset + e.size > at;
            r.Failure? <==>
              && !zip64 && !past
              && ((exists i | 0 <= i < |hs| :: CutOff(data, hs[i]))
                    || (|hs| < e.total && Marked(data, DirectoryStop(e.offset, hs), 1, 2)))
    ensures var r := LayoutProblems(data); var zip64, past := NeedsZip64(data, at, e), e.offset + e.size > at;
            r.Success? ==> forall p :: p in r.value <==>
              || (|data| > at + 22 && p == BytesFollow(|data| - (at + 22)))
              || (zip64 && p == Zip64Archive)
              || (!zip64 && past && p == DirectoryPastEnd)
              || (!zip64 && !past && exists i | 0 <= i < |hs| :: Shows(data, hs[i], p))
              || (!zip64 && !past && |hs| < e.total && p == NoCentralRecord(DirectoryStop(e.offset, hs)))
  {
    LayoutIs(data, at, e);
    hide LayoutProblems, NeedsZip64, DirectoryAt, Shows, CutOff, WalkProblems, Marked, DirectoryStop, LastEnd;
    var r, first := LayoutProblems(data), Trailing(data, at);
    DirectoryShows(data, e.offset, hs, e.total, first);
    if r.Success? {
      forall p ensures p in r.value <==>
        || (|data| > at + 22 && p == BytesFollow(|data| - (at + 22)))
        || (NeedsZip64(data, at, e) && p == Zip64Archive)
        || (!NeedsZip64(data, at, e) && e.offset + e.size > at && p == DirectoryPastEnd)
        || (!NeedsZip64(data, at, e) && e.offset + e.size <= at && exists i | 0 <= i < |hs| :: Shows(data, hs[i], p))
        || (!NeedsZip64(data, at, e) && e.offset + e.size <= at && |hs| < e.total
            && p == NoCentralRecord(DirectoryStop(e.offset, hs)))
      {
        assert p in first <==> |data| > at + 22 && p == BytesFollow(|data| - (at + 22));
      }
    }
  }

  function Trailing(data: seq<Byte>, at: nat): seq<Problem>
    requires at + 22 <= |data|
  {
    if |data| > at + 22 then [BytesFollow(|data| - (at + 22))] else []
  }

  lemma LayoutIs(data: seq<Byte>, at: nat, e: EndHeader)
    requires LastEnd(data, at, e)
    ensures LayoutProblems(data)
         == if NeedsZip64(data, at, e) then Success(Trailing(data, at) + [Zip64Archive])
            else if e.offset + e.size > at then Success(Trailing(data, at) + [DirectoryPastEnd])
            else WalkProblems(data, e.offset, e.total, Trailing(data, at))
  {
    hide ArchiveZip64, NeedsZip64, WalkProblems, Marked, LastMarker, Read16, Read32;
    EndStands(data, at, e);
    LastEndFound(data, at, e);
  }

  /** A file without a whole end record at its last marker is reported as having none, and nothing else. */
  lemma NoEndShown(data: seq<Byte>)
    requires forall i: nat | Marked(data, i, 5, 6) :: i + 22 > |data| || exists j | i < j < |data| :: Marked(data, j, 5, 6)
    ensures LayoutProblems(data) == Success([NoEndRecord])
  {
    hide WalkProblems, ArchiveZip64;
    var last := LastMarker(data, NupkgUnsign.END_MARKER);
    if last >= 0 {
      assert Marked(data, last, 5, 6);
      forall j | last < j < |data| ensures !Marked(data, j, 5, 6) {
        assert !MarkerAt(data, j, NupkgUnsign.END_MARKER);
      }
    }
  }
}
