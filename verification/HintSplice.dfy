/**
  Rewriting the tool names of a file's hint literals to canonical action IDs, in the bytes of the file.

  Each literal is admitted by the rule of its pass, or not; its source spelling is aligned with its text token by token;
  the edits of all literals are sorted and spliced into a fresh buffer. `FixHintsInFile` is held to the declarative
  rewriting, `PinnedRewrites` says which names of a pinning test literal are rewritten, and `OnlyKeptNamesRemain` in
  HintNames which tool names an admitted literal spells afterwards.
*/
module HintSplice {
  import opened Outcomes
  import opened ToolTokens
  import opened PinnedHints

  // ---------------------------------------------------------------- which literals are admitted

  predicate SpaceChar(c: char) {
    c == ' ' || c == '\t' || c == '\n' || c == '\r' || c as int == 0x0B || c as int == 0x0C
  }

  /** strings.TrimSpace(text) == "" */
  predicate Blank(text: string) {
    forall c | c in text :: SpaceChar(c)
  }

  predicate Contains(text: string, part: string) {
    exists i | 0 <= i <= |text| :: OccursAt(text, part, i)
  }

  /** A literal is part of a hint when it reads as prose and some folded value contains it. */
  predicate PartOfAHint(text: string, values: seq<string>) {
    !Blank(text) && HasSpace(text) && exists v | v in values :: Contains(v, text)
  }

  /** The names of an admitted literal that are in its hint: all of them, or the marked ones. */
  datatype Admission = EveryToken | Marked(inside: seq<bool>)

  /** A name the text never spells is at position -1, which only an admission of every token takes. */
  predicate InHint(admission: Admission, position: int) {
    match admission
    case EveryToken => true
    case Marked(inside) => 0 <= position < |inside| && inside[position]
  }

  /** hintProse: the production rule. */
  function HintProse(text: string, values: seq<string>): Option<Admission> {
    if PartOfAHint(text, values) then Some(EveryToken) else None
  }

  /** The rule a pass admits literals by: production files or test files, with the hints the walk folded. */
  datatype Pass = Production(values: seq<string>) | TestFiles(values: seq<string>)

  /** What a test literal that is no piece of a hint is admitted for: the names inside a hint it pins. */
  ghost function Pinning(text: string, values: seq<string>, ids: ToolIds): Option<Admission> {
    var occurrences, spans := Occurrences(RenameTools(text, ids), RenamedAll(values, ids)), RenamedSpans(text, ids);
    if occurrences == {} then None
    else Some(Marked(seq(|spans|, i requires 0 <= i < |spans| => exists o | o in occurrences :: Covers(o, spans[i]))))
  }

  ghost function AdmissionOf(pass: Pass, text: string, ids: ToolIds): Option<Admission> {
    match pass
    case Production(values) => HintProse(text, values)
    case TestFiles(values) =>
      if PartOfAHint(text, values) then Some(EveryToken) else Pinning(text, values, ids)
  }

  lemma MarksArePinning(text: string, values: seq<string>, ids: ToolIds, inside: Option<seq<bool>>)
    requires Marks(inside, Occurrences(RenameTools(text, ids), RenamedAll(values, ids)), RenamedSpans(text, ids))
    ensures Pinning(text, values, ids) == if inside.None? then None else Some(Marked(inside.value))
  {
    hide RenameTools, RenamedSpans, Occurrences, Covers;
    var occurrences, spans := Occurrences(RenameTools(text, ids), RenamedAll(values, ids)), RenamedSpans(text, ids);
    if inside.Some? {
      assert inside.value == seq(|spans|, i requires 0 <= i < |spans| => exists o | o in occurrences :: Covers(o, spans[i]));
    }
  }

  /** testHintProse: a test literal is admitted whole as production text, or for the names inside a hint it pins. */
  method TestHintProse(text: string, values: seq<string>, ids: ToolIds) returns (admission: Option<Admission>)
    ensures admission == AdmissionOf(TestFiles(values), text, ids)
    ensures PartOfAHint(text, values) ==> admission == Some(EveryToken)
    ensures !PartOfAHint(text, values) ==>
              && (admission.Some? ==> admission.value.Marked?)
              && Marks(if admission.None? then None else Some(admission.value.inside),
                       Occurrences(RenameTools(text, ids), RenamedAll(values, ids)), RenamedSpans(text, ids))
  {
    hide RenameTools, Marks, Occurrences, RenamedSpans, Pinning;
    if PartOfAHint(text, values) {
      return Some(EveryToken);
    }
    var renamed: seq<string> := [];
    for i := 0 to |values|
      invariant renamed == RenamedAll(values[..i], ids)
    {
      assert values[..i + 1] == values[..i] + [values[i]];
      renamed := renamed + [RenameTools(values[i], ids)];
    }
    assert values[..|values|] == values;
    var inside := PinnedTokens(text, renamed, ids);
    MarksArePinning(text, values, ids, inside);
    admission := if inside.None? then None else Some(Marked(inside.value));
  }

  /** The candidate rule a pass hands to fixHintsInFile. */
  method Admit(pass: Pass, text: string, ids: ToolIds) returns (admission: Option<Admission>)
    ensures admission == AdmissionOf(pass, text, ids)
  {
    match pass
    case Production(values) => admission := HintProse(text, values);
    case TestFiles(values) => admission := TestHintProse(text, values, ids);
  }

  function RenamedAll(values: seq<string>, ids: ToolIds): (renamed: seq<string>)
    ensures |renamed| == |values| && forall i | 0 <= i < |values| :: renamed[i] == RenameTools(values[i], ids)
  {
    seq(|values|, i requires 0 <= i < |values| => RenameTools(values[i], ids))
  }

  // ---------------------------------------------------------------- aligning the spelling with the text

  /** textTokenAt: the next tool name of the text, at or after `from`, that spells the tool. */
  method TextTokenAt(textTools: seq<string>, from: nat, tool: string) returns (position: int, next: nat)
    ensures (position, next) == FirstFrom(textTools, from, tool)
  {
    for index := from to if from <= |textTools| then |textTools| else from
      invariant FirstFrom(textTools, from, tool)
             == if FirstFrom(textTools, index, tool).0 >= 0 then FirstFrom(textTools, index, tool) else (-1, from)
    {
      if textTools[index] == tool {
        return index, index + 1;
      }
    }
    return -1, from;
  }

  function FirstFrom(textTools: seq<string>, from: nat, tool: string): (r: (int, nat))
    ensures r.0 == -1 ==> r.1 == from && forall i | from <= i < |textTools| :: textTools[i] != tool
    ensures r.0 != -1 ==> from <= r.0 < |textTools| && r.1 == r.0 + 1 && textTools[r.0] == tool
    ensures r.0 != -1 ==> forall i | from <= i < r.0 :: textTools[i] != tool
    decreases |textTools| - from
  {
    if from >= |textTools| then (-1, from)
    else if textTools[from] == tool then (from, from + 1)
    else
      var rest := FirstFrom(textTools, from + 1, tool);
      if rest.0 >= 0 then rest else (-1, from)
  }

  /** The positions the names of a source form are given, one after the other. */
  function Align(tools: seq<string>, textTools: seq<string>, from: nat): (positions: seq<int>)
    ensures |positions| == |tools|
  {
    if tools == [] then []
    else
      var (position, next) := FirstFrom(textTools, from, tools[0]);
      [position] + Align(tools[1..], textTools, next)
  }

  /** Positions given to two names of a literal ascend, and each spells its name. */
  lemma {:induction false} AlignedAscend(tools: seq<string>, textTools: seq<string>, from: nat)
    ensures var positions := Align(tools, textTools, from);
            && (forall i | 0 <= i < |tools| && positions[i] != -1 ::
                  from <= positions[i] < |textTools| && textTools[positions[i]] == tools[i])
            && (forall i, j | 0 <= i < j < |tools| && positions[i] != -1 && positions[j] != -1 :: positions[i] < positions[j])
  {
    if tools == [] {
    } else {
      AlignedAscend(tools[1..], textTools, FirstFrom(textTools, from, tools[0]).1);
    }
  }

  /** The names of the source form are the text's, in order, with others between them. */
  ghost predicate Subsequence(tools: seq<string>, textTools: seq<string>, from: nat, at: seq<nat>) {
    && |at| == |tools|
    && (forall i | 0 <= i < |at| :: from <= at[i] < |textTools| && textTools[at[i]] == tools[i])
    && (forall i, j | 0 <= i < j < |at| :: at[i] < at[j])
  }

  /** The greedy alignment places every name whenever any placement in order does. */
  lemma {:induction false} AlignedWhenSubsequence(tools: seq<string>, textTools: seq<string>, from: nat, at: seq<nat>)
    requires Subsequence(tools, textTools, from, at)
    ensures forall i | 0 <= i < |tools| :: Align(tools, textTools, from)[i] >= 0
  {
    if tools == [] {
    } else {
      var (position, next) := FirstFrom(textTools, from, tools[0]);
      assert textTools[at[0]] == tools[0];
      assert position <= at[0];
      AlignedWhenSubsequence(tools[1..], textTools, next, at[1..]);
    }
  }

  // ---------------------------------------------------------------- what becomes of one name

  datatype Decision = OutsideHint | Exempt | Unknown | Rewritten(id: string)

  function Decide(tool: string, position: int, admission: Admission, exempt: set<string>, ids: ToolIds): Decision {
    if !InHint(admission, position) then OutsideHint
    else if tool in exempt then Exempt
    else if tool !in ids then Unknown
    else Rewritten(ids[tool])
  }

  /** A string literal of the file: where it starts, how it is spelled there, and the text it denotes. */
  datatype Literal = Literal(start: nat, spelled: string, text: string)

  /** One token rewritten inside one literal, as offsets into the file. */
  datatype Replacement = Replacement(start: nat, end: nat, with: string)

  function DecisionsFor(tools: seq<string>, textTools: seq<string>, from: nat, admission: Admission, exempt: set<string>,
                        ids: ToolIds): (decisions: seq<Decision>)
    ensures |decisions| == |tools|
  {
    seq(|tools|, i requires 0 <= i < |tools| => Decide(tools[i], Align(tools, textTools, from)[i], admission, exempt, ids))
  }

  /** What becomes of each tool name of an admitted literal's spelling. */
  function DecisionsOf(lit: Literal, admission: Admission, exempt: set<string>, ids: ToolIds): (decisions: seq<Decision>)
    ensures |decisions| == |Tokens(lit.spelled)|
  {
    DecisionsFor(TokenNames(lit.spelled), TokenNames(lit.text), 0, admission, exempt, ids)
  }

  function EditsFor(start: nat, tokens: seq<Span>, decisions: seq<Decision>): seq<Replacement>
    requires |tokens| == |decisions|
  {
    if tokens == [] then []
    else
      (if decisions[0].Rewritten? then [Replacement(start + tokens[0].start, start + tokens[0].end, decisions[0].id)] else [])
      + EditsFor(start, tokens[1..], decisions[1..])
  }

  function UnknownNames(tools: seq<string>, decisions: seq<Decision>): seq<string>
    requires |tools| == |decisions|
  {
    if tools == [] then []
    else (if decisions[0].Unknown? then [tools[0]] else []) + UnknownNames(tools[1..], decisions[1..])
  }

  lemma {:induction false} EditsGrow(start: nat, tokens: seq<Span>, decisions: seq<Decision>, i: nat)
    requires i < |tokens| == |decisions|
    ensures EditsFor(start, tokens[..i + 1], decisions[..i + 1])
         == EditsFor(start, tokens[..i], decisions[..i])
            + if decisions[i].Rewritten? then [Replacement(start + tokens[i].start, start + tokens[i].end, decisions[i].id)] else []
  {
    if i == 0 {
      assert tokens[..1][1..] == [] && decisions[..1][1..] == [];
    } else {
      EditsGrow(start, tokens[1..], decisions[1..], i - 1);
      assert tokens[..i + 1][1..] == tokens[1..][..i] && decisions[..i + 1][1..] == decisions[1..][..i];
      assert tokens[..i][1..] == tokens[1..][..i - 1] && decisions[..i][1..] == decisions[1..][..i - 1];
    }
  }

  lemma {:induction false} UnknownGrow(tools: seq<string>, decisions: seq<Decision>, i: nat)
    requires i < |tools| == |decisions|
    ensures UnknownNames(tools[..i + 1], decisions[..i + 1])
         == UnknownNames(tools[..i], decisions[..i]) + if decisions[i].Unknown? then [tools[i]] else []
  {
    if i == 0 {
      assert tools[..1][1..] == [] && decisions[..1][1..] == [];
    } else {
      UnknownGrow(tools[1..], decisions[1..], i - 1);
      assert tools[..i + 1][1..] == tools[1..][..i] && decisions[..i + 1][1..] == decisions[1..][..i];
      assert tools[..i][1..] == tools[1..][..i - 1] && decisions[..i][1..] == decisions[1..][..i - 1];
    }
  }

  lemma {:induction false} AlignStep(tools: seq<string>, textTools: seq<string>, from: nat, i: nat)
    requires i < |tools|
    ensures Align(tools, textTools, from)[i] == FirstFrom(textTools, AlignNext(tools, textTools, from, i), tools[i]).0
    ensures AlignNext(tools, textTools, from, i + 1) == FirstFrom(textTools, AlignNext(tools, textTools, from, i), tools[i]).1
    decreases i
  {
    if i == 0 {
    } else {
      AlignStep(tools[1..], textTools, FirstFrom(textTools, from, tools[0]).1, i - 1);
    }
  }

  /** Where the search stands once the first i names are placed. */
  function AlignNext(tools: seq<string>, textTools: seq<string>, from: nat, i: nat): nat
    requires i <= |tools|
    decreases i
  {
    if i == 0 then from else AlignNext(tools[1..], textTools, FirstFrom(textTools, from, tools[0]).1, i - 1)
  }

  /** The inner loop of fixHintsInFile: the edits of one admitted literal, and the names no tool resolves. */
  method EditsInLiteral(lit: Literal, admission: Admission, exempt: set<string>, ids: ToolIds)
    returns (edits: seq<Replacement>, unresolved: seq<string>)
    ensures edits == EditsFor(lit.start, Tokens(lit.spelled), DecisionsOf(lit, admission, exempt, ids))
    ensures unresolved == UnknownNames(TokenNames(lit.spelled), DecisionsOf(lit, admission, exempt, ids))
  {
    hide Tokens, EditsFor, UnknownNames, Align, AlignNext, FirstFrom;
    AllInside(lit.spelled);
    var matches, textTools := Tokens(lit.spelled), TokenNames(lit.text);
    ghost var tools, decisions := TokenNames(lit.spelled), DecisionsOf(lit, admission, exempt, ids);
    var from: nat := 0;
    edits, unresolved := [], [];
    NoEdits(lit.start);
    NoneAligned(tools, textTools);
    for i := 0 to |matches|
      invariant from == AlignNext(tools, textTools, 0, i)
      invariant edits == EditsFor(lit.start, matches[..i], decisions[..i])
      invariant unresolved == UnknownNames(tools[..i], decisions[..i])
    {
      AlignStep(tools, textTools, 0, i);
      EditsGrow(lit.start, matches, decisions, i);
      UnknownGrow(tools, decisions, i);
      assert matches[i] in matches;
      var tool := lit.spelled[matches[i].start..matches[i].end];
      var position;
      position, from := TextTokenAt(textTools, from, tool);
      if !InHint(admission, position) {
        continue;
      }
      if tool in exempt {
        continue;
      }
      if tool !in ids {
        unresolved := unresolved + [tool];
        continue;
      }
      edits := edits + [Replacement(lit.start + matches[i].start, lit.start + matches[i].end, ids[tool])];
    }
    assert matches[..|matches|] == matches && decisions[..|matches|] == decisions && tools[..|matches|] == tools;
  }

  lemma NoEdits(start: nat)
    ensures EditsFor(start, [], []) == [] && UnknownNames([], []) == []
  {}

  lemma NoneAligned(tools: seq<string>, textTools: seq<string>)
    ensures AlignNext(tools, textTools, 0, 0) == 0
  {}

  // ---------------------------------------------------------------- the rewriting, declared

  /** The edit that starts at i, if one does. */
  ghost function EditAt(edits: set<Replacement>, i: nat): (r: Option<Replacement>)
    ensures r.Some? ==> r.value in edits && r.value.start == i
    ensures r.None? ==> forall e | e in edits :: e.start != i
  {
    if exists e :: e in edits && e.start == i then
      var e :| e in edits && e.start == i;
      Some(e)
    else None
  }

  /** The bytes from i up to `to` as the edits leave them: each byte outside every edit is copied, each edit replaced. */
  ghost function RewriteRange(source: string, edits: set<Replacement>, i: nat, to: nat): string
    requires to <= |source|
    decreases if i < to then to - i else 0
  {
    if i >= to then ""
    else
      match EditAt(edits, i)
      case Some(e) => if e.end > i then e.with + RewriteRange(source, edits, e.end, to) else ""
      case None => [source[i]] + RewriteRange(source, edits, i + 1, to)
  }

  ghost function Rewrite(source: string, edits: set<Replacement>): string {
    RewriteRange(source, edits, 0, |source|)
  }

  ghost predicate Apart2(a: Replacement, b: Replacement) {
    a.end <= b.start || b.end <= a.start
  }

  ghost predicate PairwiseApart(edits: seq<Replacement>) {
    forall i, j | 0 <= i < j < |edits| :: Apart2(edits[i], edits[j])
  }

  /** Edits replace stretches of the file, no two of them the same or overlapping. */
  ghost predicate Disjoint(source: string, edits: seq<Replacement>) {
    (forall e | e in edits :: e.start < e.end <= |source|) && PairwiseApart(edits)
  }

  // ---------------------------------------------------------------- sorting and splicing

  function InsertByStart(e: Replacement, sorted: seq<Replacement>): seq<Replacement> {
    if sorted == [] || e.start <= sorted[0].start then [e] + sorted
    else [sorted[0]] + InsertByStart(e, sorted[1..])
  }

  /** slices.SortFunc by start. */
  function SortByStart(edits: seq<Replacement>): seq<Replacement> {
    if edits == [] then [] else InsertByStart(edits[0], SortByStart(edits[1..]))
  }

  ghost predicate SortedByStart(edits: seq<Replacement>) {
    forall i, j | 0 <= i < j < |edits| :: edits[i].start <= edits[j].start
  }

  lemma {:induction false} InsertKeeps(e: Replacement, sorted: seq<Replacement>)
    ensures multiset(InsertByStart(e, sorted)) == multiset{e} + multiset(sorted)
  {
    if sorted != [] && e.start > sorted[0].start {
      InsertKeeps(e, sorted[1..]);
      assert sorted == [sorted[0]] + sorted[1..];
    } else {
      assert multiset([e] + sorted) == multiset{e} + multiset(sorted);
    }
  }

  lemma {:induction false} InsertSorts(e: Replacement, sorted: seq<Replacement>)
    requires SortedByStart(sorted)
    ensures SortedByStart(InsertByStart(e, sorted))
  {
    if sorted != [] && e.start > sorted[0].start {
      InsertSorts(e, sorted[1..]);
      InsertKeeps(e, sorted[1..]);
      var inserted := InsertByStart(e, sorted[1..]);
      forall i | 0 <= i < |inserted| ensures sorted[0].start <= inserted[i].start {
        assert inserted[i] in multiset(inserted);
      }
    }
  }

  lemma {:induction false} SortSorts(edits: seq<Replacement>)
    ensures SortedByStart(SortByStart(edits)) && multiset(SortByStart(edits)) == multiset(edits)
  {
    if edits == [] {
    } else {
      SortSorts(edits[1..]);
      InsertSorts(edits[0], SortByStart(edits[1..]));
      InsertKeeps(edits[0], SortByStart(edits[1..]));
      assert edits == [edits[0]] + edits[1..];
    }
  }

  /** Sorted edits one behind the other from `written` on. */
  predicate Chained(source: string, sorted: seq<Replacement>, written: nat)
    decreases |sorted|
  {
    if sorted == [] then written <= |source|
    else written <= sorted[0].start < sorted[0].end <= |source| && Chained(source, sorted[1..], sorted[0].end)
  }

  function Members(edits: seq<Replacement>): set<Replacement> {
    set e | e in edits
  }

  /** What the fresh buffer receives from `written` on. */
  function SpliceFrom(source: string, sorted: seq<Replacement>, written: nat): string
    requires Chained(source, sorted, written)
    decreases |sorted|
  {
    if sorted == [] then source[written..]
    else source[written..sorted[0].start] + sorted[0].with + SpliceFrom(source, sorted[1..], sorted[0].end)
  }

  lemma {:induction false} ChainedAhead(source: string, sorted: seq<Replacement>, written: nat)
    requires Chained(source, sorted, written)
    ensures written <= |source| && forall e | e in sorted :: written <= e.start
    decreases |sorted|
  {
    if sorted == [] {
    } else {
      ChainedAhead(source, sorted[1..], sorted[0].end);
    }
  }

  /** Where no edit starts, bytes are copied. */
  lemma {:induction false} Copied(source: string, edits: set<Replacement>, i: nat, j: nat, to: nat)
    requires i <= j <= to <= |source|
    requires forall e | e in edits :: !(i <= e.start < j)
    ensures RewriteRange(source, edits, i, to) == source[i..j] + RewriteRange(source, edits, j, to)
    decreases j - i
  {
    if i >= j {
    } else {
      Copied(source, edits, i + 1, j, to);
      assert EditAt(edits, i).None?;
      assert source[i..j] == [source[i]] + source[i + 1..j];
    }
  }

  lemma CopiedToTheEnd(source: string, edits: set<Replacement>, i: nat, to: nat)
    requires i <= to <= |source|
    requires forall e | e in edits :: !(i <= e.start < to)
    ensures RewriteRange(source, edits, i, to) == source[i..to]
  {
    Copied(source, edits, i, to, to);
    assert RewriteRange(source, edits, to, to) == "";
  }

  lemma Replaced(source: string, edits: set<Replacement>, e: Replacement, to: nat)
    requires e in edits && e.start < e.end && e.start < to <= |source|
    requires forall f | f in edits && f.start == e.start :: f == e
    ensures RewriteRange(source, edits, e.start, to) == e.with + RewriteRange(source, edits, e.end, to)
  {}

  lemma SpliceStep(source: string, sorted: seq<Replacement>, written: nat)
    requires Chained(source, sorted, written)
    ensures written <= |source|
    ensures if sorted == [] then SpliceFrom(source, sorted, written) == source[written..]
            else && written <= sorted[0].start <= |source| && Chained(source, sorted[1..], sorted[0].end)
                 && SpliceFrom(source, sorted, written)
                    == source[written..sorted[0].start] + (sorted[0].with + SpliceFrom(source, sorted[1..], sorted[0].end))
  {
    if sorted != [] {
      ChainedAhead(source, sorted, written);
      JoinThree(source[written..sorted[0].start], sorted[0].with, SpliceFrom(source, sorted[1..], sorted[0].end));
    }
  }

  /** The splice is the declared rewriting. */
  lemma {:induction false} SpliceRewrites(source: string, edits: set<Replacement>, sorted: seq<Replacement>, written: nat)
    requires Chained(source, sorted, written)
    requires forall e :: e in sorted <==> e in edits && e.start >= written
    ensures SpliceFrom(source, sorted, written) == RewriteRange(source, edits, written, |source|)
    decreases |sorted|
  {
    ChainedAhead(source, sorted, written);
    hide RewriteRange;
    if sorted == [] {
      CopiedToTheEnd(source, edits, written, |source|);
      assert source[written..|source|] == source[written..];
    } else {
      var first, rest := sorted[0], sorted[1..];
      RestAhead(source, edits, sorted, written);
      SpliceStep(source, sorted, written);
      hide SpliceFrom, Chained;
      SpliceRewrites(source, edits, rest, first.end);
      Copied(source, edits, written, first.start, |source|);
      Replaced(source, edits, first, |source|);
    }
  }

  /** Past the first edit, the rest of the sorted edits are the ones that start behind it. */
  lemma RestAhead(source: string, edits: set<Replacement>, sorted: seq<Replacement>, written: nat)
    requires Chained(source, sorted, written) && sorted != []
    requires forall e :: e in sorted <==> e in edits && e.start >= written
    ensures var first, rest := sorted[0], sorted[1..];
            && Chained(source, rest, first.end)
            && written <= first.start < first.end <= |source| && first in edits
            && (forall e :: e in rest <==> e in edits && e.start >= first.end)
            && (forall e | e in edits :: !(written <= e.start < first.start))
            && (forall e | e in edits && e.start == first.start :: e == first)
  {
    var first, rest := sorted[0], sorted[1..];
    ChainedAhead(source, rest, first.end);
    forall e | e in sorted ensures e == first || e in rest {}
    forall e | e in rest ensures e in sorted {}
    assert first in sorted;
  }

  lemma {:induction false} DisjointChained(source: string, sorted: seq<Replacement>, written: nat)
    requires Disjoint(source, sorted) && SortedByStart(sorted) && written <= |source|
    requires forall e | e in sorted :: written <= e.start
    ensures Chained(source, sorted, written)
    decreases |sorted|
  {
    if sorted == [] {
    } else {
      var rest := sorted[1..];
      assert sorted[0] in sorted;
      forall e | e in rest ensures sorted[0].end <= e.start {
        var i :| 0 <= i < |rest| && rest[i] == e;
        assert sorted[i + 1] == e && sorted[i + 1] in sorted;
        assert Apart2(sorted[0], sorted[i + 1]);
      }
      DisjointChained(source, rest, sorted[0].end);
    }
  }

  /** Overlap is symmetric, so disjointness does not depend on the order of the edits. */
  lemma DisjointSorted(source: string, edits: seq<Replacement>)
    requires Disjoint(source, edits)
    ensures Disjoint(source, SortByStart(edits)) && SortedByStart(SortByStart(edits))
    ensures Members(SortByStart(edits)) == Members(edits)
  {
    SortSorts(edits);
    var sorted := SortByStart(edits);
    forall e ensures e in sorted <==> e in edits {
      assert e in multiset(sorted) <==> e in multiset(edits);
    }
    forall i, j | 0 <= i < j < |sorted| ensures Apart2(sorted[i], sorted[j]) {
      TwoPlaces(sorted, edits, i, j);
    }
  }

  lemma TwoPlaces(sorted: seq<Replacement>, edits: seq<Replacement>, i: nat, j: nat)
    requires multiset(sorted) == multiset(edits) && i < j < |sorted|
    requires forall a, b | 0 <= a < b < |edits| :: Apart2(edits[a], edits[b])
    ensures Apart2(sorted[i], sorted[j])
  {
    var x, y := sorted[i], sorted[j];
    if x != y {
      assert x in multiset(sorted) && y in multiset(sorted);
      var a :| 0 <= a < |edits| && edits[a] == x;
      var b :| 0 <= b < |edits| && edits[b] == y;
    } else {
      assert sorted == sorted[..i] + [x] + sorted[i + 1..j] + [x] + sorted[j + 1..];
      assert multiset(sorted)[x] >= 2;
      TwiceMeansTwoPlaces(edits, x);
    }
  }

  lemma {:induction false} TwiceMeansTwoPlaces(edits: seq<Replacement>, x: Replacement)
    requires multiset(edits)[x] >= 2
    ensures exists a, b :: 0 <= a < b < |edits| && edits[a] == x && edits[b] == x
  {
    assert edits == [edits[0]] + edits[1..];
    if edits[0] == x {
      assert x in multiset(edits[1..]);
      var b :| 0 <= b < |edits[1..]| && edits[1..][b] == x;
      assert edits[b + 1] == x;
    } else {
      TwiceMeansTwoPlaces(edits[1..], x);
      var a, b :| 0 <= a < b < |edits[1..]| && edits[1..][a] == x && edits[1..][b] == x;
      assert edits[a + 1] == x && edits[b + 1] == x;
    }
  }

  /** The splice of fixHintsInFile: ascending edits into a fresh buffer. */
  method Splice(source: string, edits: seq<Replacement>) returns (rewritten: string)
    requires Disjoint(source, edits)
    ensures rewritten == Rewrite(source, Members(edits))
  {
    var sorted := SortByStart(edits);
    DisjointSorted(source, edits);
    hide Disjoint, SortByStart, RewriteRange, SpliceFrom;
    DisjointChained(source, sorted, 0);
    SpliceRewrites(source, Members(edits), sorted, 0);
    rewritten := "";
    var written: nat := 0;
    assert sorted[0..] == sorted;
    for i := 0 to |sorted|
      invariant Chained(source, sorted[i..], written)
      invariant rewritten + SpliceFrom(source, sorted[i..], written) == Rewrite(source, Members(edits))
    {
      var edit := sorted[i];
      assert sorted[i..][0] == edit && sorted[i..][1..] == sorted[i + 1..];
      SpliceStep(source, sorted[i..], written);
      JoinFour(rewritten, source[written..edit.start], edit.with, SpliceFrom(source, sorted[i + 1..], edit.end));
      rewritten := rewritten + source[written..edit.start];
      rewritten := rewritten + edit.with;
      written := edit.end;
    }
    SpliceStep(source, [], written);
    rewritten := rewritten + source[written..];
  }

  // ---------------------------------------------------------------- the whole file

  /** A literal of the file, and whether it is admitted. */
  datatype Judged = Judged(literal: Literal, admission: Option<Admission>)

  /** Every literal is spelled in the source where it says, and no two overlap. */
  ghost predicate Located(source: string, literals: seq<Judged>) {
    && (forall j | j in literals ::
          var lit := j.literal; lit.start + |lit.spelled| <= |source| && source[lit.start..lit.start + |lit.spelled|] == lit.spelled)
    && (forall a, b | 0 <= a < b < |literals| :: LiteralsApart(literals[a].literal, literals[b].literal))
  }

  ghost predicate LiteralsApart(a: Literal, b: Literal) {
    a.start + |a.spelled| <= b.start || b.start + |b.spelled| <= a.start
  }

  function EditsOf(j: Judged, exempt: set<string>, ids: ToolIds): seq<Replacement> {
    if j.admission.None? then []
    else EditsFor(j.literal.start, Tokens(j.literal.spelled), DecisionsOf(j.literal, j.admission.value, exempt, ids))
  }

  function AllEdits(literals: seq<Judged>, exempt: set<string>, ids: ToolIds): seq<Replacement> {
    if literals == [] then []
    else AllEdits(literals[..|literals| - 1], exempt, ids) + EditsOf(literals[|literals| - 1], exempt, ids)
  }

  /** The names of an admitted literal's spelling that no tool resolves, each as often as it is spelled. */
  function UnknownOf(j: Judged, exempt: set<string>, ids: ToolIds): seq<string> {
    if j.admission.None? then []
    else UnknownNames(TokenNames(j.literal.spelled), DecisionsOf(j.literal, j.admission.value, exempt, ids))
  }

  function AllUnknown(literals: seq<Judged>, exempt: set<string>, ids: ToolIds): seq<string> {
    if literals == [] then []
    else AllUnknown(literals[..|literals| - 1], exempt, ids) + UnknownOf(literals[|literals| - 1], exempt, ids)
  }

  predicate FromToken(e: Replacement, start: nat, t: Span) {
    e.start == start + t.start && e.end == start + t.end
  }

  lemma {:induction false} EditsForTokens(start: nat, tokens: seq<Span>, decisions: seq<Decision>)
    requires |tokens| == |decisions|
    ensures forall e | e in EditsFor(start, tokens, decisions) :: exists t :: t in tokens && FromToken(e, start, t)
  {
    if tokens == [] {
    } else {
      hide FromToken;
      EditsForTokens(start, tokens[1..], decisions[1..]);
      forall e | e in EditsFor(start, tokens, decisions) ensures exists t :: t in tokens && FromToken(e, start, t) {
        if e in EditsFor(start, tokens[1..], decisions[1..]) {
          var t :| t in tokens[1..] && FromToken(e, start, t);
          assert t in tokens;
        } else {
          assert tokens[0] in tokens;
        }
      }
    }
  }

  lemma {:induction false} EditsForApart(start: nat, tokens: seq<Span>, decisions: seq<Decision>)
    requires |tokens| == |decisions| && Ascending(tokens)
    ensures PairwiseApart(EditsFor(start, tokens, decisions))
  {
    if tokens != [] {
      var rest := EditsFor(start, tokens[1..], decisions[1..]);
      EditsForApart(start, tokens[1..], decisions[1..]);
      EditsForTokens(start, tokens[1..], decisions[1..]);
      hide PairwiseApart;
      if decisions[0].Rewritten? {
        forall e | e in rest ensures start + tokens[0].end <= e.start {
          var t :| t in tokens[1..] && FromToken(e, start, t);
          var k :| 0 <= k < |tokens[1..]| && tokens[1..][k] == t;
          assert tokens[k + 1] == t;
        }
      } else {
        assert [] + rest == rest;
      }
    } else {
      assert EditsFor(start, tokens, decisions) == [];
    }
  }

  /** The edits of a literal stay inside it and apart from each other. */
  lemma EditsOfInside(j: Judged, exempt: set<string>, ids: ToolIds)
    ensures forall e | e in EditsOf(j, exempt, ids) ::
              j.literal.start <= e.start < e.end <= j.literal.start + |j.literal.spelled|
    ensures PairwiseApart(EditsOf(j, exempt, ids))
  {
    if j.admission.Some? {
      hide Tokens, EditsFor, DecisionsOf, PairwiseApart;
      var lit := j.literal;
      var tokens, decisions := Tokens(lit.spelled), DecisionsOf(lit, j.admission.value, exempt, ids);
      TokensExact(lit.spelled);
      AllInside(lit.spelled);
      EditsForTokens(lit.start, tokens, decisions);
      EditsForApart(lit.start, tokens, decisions);
      forall e | e in EditsOf(j, exempt, ids) ensures lit.start <= e.start < e.end <= lit.start + |lit.spelled| {
        var t :| t in tokens && FromToken(e, lit.start, t);
      }
    }
  }

  lemma DisjointJoined(source: string, before: seq<Replacement>, last: seq<Replacement>)
    requires Disjoint(source, before) && PairwiseApart(last) && forall f | f in last :: f.start < f.end <= |source|
    requires forall e, f | e in before && f in last :: Apart2(e, f)
    ensures Disjoint(source, before + last)
  {
    hide Apart2;
  }

  /** Edits of two literals that do not overlap do not overlap. */
  lemma OtherLiteralApart(source: string, literals: seq<Judged>, n: nat, j: Judged, e: Replacement, f: Replacement,
                          exempt: set<string>, ids: ToolIds)
    requires Located(source, literals) && n < |literals| && j in literals[..n]
    requires e in EditsOf(j, exempt, ids) && f in EditsOf(literals[n], exempt, ids)
    ensures Apart2(e, f)
  {
    hide EditsOf, PairwiseApart;
    var a :| 0 <= a < n && literals[a] == j;
    EditsOfInside(j, exempt, ids);
    EditsOfInside(literals[n], exempt, ids);
    assert LiteralsApart(literals[a].literal, literals[n].literal);
  }

  lemma LocatedFront(source: string, literals: seq<Judged>, n: nat)
    requires Located(source, literals) && n < |literals|
    ensures Located(source, literals[..n])
    ensures literals[n].literal.start + |literals[n].literal.spelled| <= |source|
  {
    hide LiteralsApart;
    assert forall a | 0 <= a < n :: literals[..n][a] == literals[a];
    assert literals[n] in literals;
  }

  /** The edits of all literals are disjoint, because the literals are. */
  lemma {:induction false} AllEditsDisjoint(source: string, literals: seq<Judged>, exempt: set<string>, ids: ToolIds)
    requires Located(source, literals)
    ensures Disjoint(source, AllEdits(literals, exempt, ids))
    ensures forall e | e in AllEdits(literals, exempt, ids) :: exists j :: j in literals && e in EditsOf(j, exempt, ids)
  {
    hide EditsOf, Located, Apart2;
    if literals == [] {
    } else {
      var n := |literals| - 1;
      var before, last := AllEdits(literals[..n], exempt, ids), EditsOf(literals[n], exempt, ids);
      LocatedFront(source, literals, n);
      AllEditsDisjoint(source, literals[..n], exempt, ids);
      EditsOfInside(literals[n], exempt, ids);
      hide Disjoint, PairwiseApart;
      forall e, f | e in before && f in last ensures Apart2(e, f) {
        var j :| j in literals[..n] && e in EditsOf(j, exempt, ids);
        OtherLiteralApart(source, literals, n, j, e, f, exempt, ids);
      }
      DisjointJoined(source, before, last);
      assert forall e | e in before + last :: e in before || e in last;
      assert literals[n] in literals;
    }
  }

  /** The literals of a file, each as the pass admits it. */
  ghost function JudgedBy(pass: Pass, literals: seq<Literal>, ids: ToolIds): (judged: seq<Judged>)
    ensures |judged| == |literals|
  {
    seq(|literals|, i requires 0 <= i < |literals| => Judged(literals[i], AdmissionOf(pass, literals[i].text, ids)))
  }

  /** fixHintsInFile on the literals of one parsed file: the rewritten bytes, and the names no tool resolves. */
  method FixHintsInFile(source: string, literals: seq<Literal>, pass: Pass, exempt: set<string>, ids: ToolIds)
    returns (rewritten: string, unresolved: seq<string>)
    requires Located(source, JudgedBy(pass, literals, ids))
    ensures rewritten == Rewrite(source, Members(AllEdits(JudgedBy(pass, literals, ids), exempt, ids)))
    ensures unresolved == AllUnknown(JudgedBy(pass, literals, ids), exempt, ids)
  {
    hide EditsOf, UnknownOf, Located, Disjoint, RewriteRange, AdmissionOf;
    ghost var judged := JudgedBy(pass, literals, ids);
    var edits: seq<Replacement> := [];
    unresolved := [];
    for i := 0 to |literals|
      invariant edits == AllEdits(judged[..i], exempt, ids) && unresolved == AllUnknown(judged[..i], exempt, ids)
    {
      assert judged[..i + 1][..i] == judged[..i];
      var literal := literals[i];
      var admission := Admit(pass, literal.text, ids);
      assert judged[i] == Judged(literal, admission);
      if admission.None? {
        NotAdmitted(judged[i], exempt, ids);
        continue;
      }
      var more, unknown := EditsInLiteral(literal, admission.value, exempt, ids);
      Admitted(judged[i], exempt, ids);
      edits := edits + more;
      unresolved := unresolved + unknown;
    }
    assert judged[..|literals|] == judged;
    AllEditsDisjoint(source, judged, exempt, ids);
    if |edits| == 0 {
      CopiedToTheEnd(source, {}, 0, |source|);
      assert Members(edits) == {};
      return source[0..|source|], unresolved;
    }
    rewritten := Splice(source, edits);
  }

  /**
    A test literal that is no piece of a hint is admitted exactly when it holds a whole hint, and then one of its names is
    rewritten exactly when it is spelled in the text at a place some occurrence of a hint covers, is not exempt, and is a
    tool of the catalog.
  */
  lemma PinnedRewrites(lit: Literal, values: seq<string>, exempt: set<string>, ids: ToolIds, i: nat)
    requires !PartOfAHint(lit.text, values) && i < |Tokens(lit.spelled)|
    ensures var admission := AdmissionOf(TestFiles(values), lit.text, ids);
            var read, renamed := RenameTools(lit.text, ids), RenamedAll(values, ids);
            && (admission.Some? <==> Occurrences(read, renamed) != {})
            && (admission.Some? ==>
                  var tool, position := TokenNames(lit.spelled)[i], Align(TokenNames(lit.spelled), TokenNames(lit.text), 0)[i];
                  && |RenamedSpans(lit.text, ids)| == |Tokens(lit.text)|
                  && position < |Tokens(lit.text)|
                  && (DecisionsOf(lit, admission.value, exempt, ids)[i].Rewritten? <==>
                        && 0 <= position && TokenNames(lit.text)[position] == tool
                        && CoveredBySome(read, renamed, RenamedSpans(lit.text, ids)[position])
                        && tool !in exempt && tool in ids))
  {
    hide RenameTools, RenamedSpans, Occurrences, CoveredBySome, Covers, Tokens, TokenNames, PartOfAHint, Marks;
    var admission := AdmissionOf(TestFiles(values), lit.text, ids);
    var tools, textTools := TokenNames(lit.spelled), TokenNames(lit.text);
    AsManyNames(lit.spelled);
    AsManyNames(lit.text);
    AlignedAscend(tools, textTools, 0);
    SpansDelimit(lit.text, ids);
    if admission.Some? {
      var position := Align(tools, textTools, 0)[i];
      PinningMarks(lit.text, values, ids);
      if position >= 0 {
        PinnedMeans(lit.text, RenamedAll(values, ids), ids, admission.value.inside, position);
      }
    }
  }

  lemma AsManyNames(text: string)
    ensures |TokenNames(text)| == |Tokens(text)|
  {}

  lemma PinningMarks(text: string, values: seq<string>, ids: ToolIds)
    requires Pinning(text, values, ids).Some?
    ensures var admission := Pinning(text, values, ids).value;
            admission.Marked? && Marks(Some(admission.inside), Occurrences(RenameTools(text, ids), RenamedAll(values, ids)),
                                       RenamedSpans(text, ids))
  {
    hide RenameTools, RenamedSpans, Occurrences, Covers;
  }

  lemma NotAdmitted(j: Judged, exempt: set<string>, ids: ToolIds)
    requires j.admission.None?
    ensures EditsOf(j, exempt, ids) == [] && UnknownOf(j, exempt, ids) == []
  {}

  lemma Admitted(j: Judged, exempt: set<string>, ids: ToolIds)
    requires j.admission.Some?
    ensures EditsOf(j, exempt, ids)
         == EditsFor(j.literal.start, Tokens(j.literal.spelled), DecisionsOf(j.literal, j.admission.value, exempt, ids))
    ensures UnknownOf(j, exempt, ids)
         == UnknownNames(TokenNames(j.literal.spelled), DecisionsOf(j.literal, j.admission.value, exempt, ids))
  {}
}
