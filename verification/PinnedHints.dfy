/**
  A text with its tool names rewritten, where each rewritten name lands, and which of them lie inside a whole hint.
*/
module PinnedHints {
  import opened Outcomes
  import opened ToolTokens

  /** The canonical action ID of each tool the catalog resolves. */
  type ToolIds = map<string, string>

  function NewName(ids: ToolIds, tool: string): string {
    if tool in ids then ids[tool] else tool
  }

  /** The text from `from` on with every resolved tool name rewritten, read left to right. */
  function RenameFrom(text: string, ids: ToolIds, from: nat): string
    decreases |text| - from
  {
    if from >= |text| then ""
    else
      match MatchAt(text, from)
      case Some(e) => NewName(ids, text[from..e]) + RenameFrom(text, ids, e)
      case None => [text[from]] + RenameFrom(text, ids, from + 1)
  }

  function RenameTools(text: string, ids: ToolIds): string {
    RenameFrom(text, ids, 0)
  }

  /** Where the rewritten names of the text from `from` on land, when the rewriting of that part starts at `at`. */
  function SpansFrom(text: string, ids: ToolIds, from: nat, at: nat): seq<Span>
    decreases |text| - from
  {
    if from >= |text| then []
    else
      match MatchAt(text, from)
      case Some(e) =>
        var end := at + |NewName(ids, text[from..e])|;
        [Span(at, end)] + SpansFrom(text, ids, e, end)
      case None => SpansFrom(text, ids, from + 1, at + 1)
  }

  function RenamedSpans(text: string, ids: ToolIds): seq<Span> {
    SpansFrom(text, ids, 0, 0)
  }

  lemma {:induction false} NoMoreTokens(text: string, ids: ToolIds, from: nat, at: nat)
    requires TokensFrom(text, from) == [] && from <= |text|
    ensures RenameFrom(text, ids, from) == text[from..] && SpansFrom(text, ids, from, at) == []
    decreases |text| - from
  {
    hide MatchAt, NewName;
    if from >= |text| {
    } else {
      NoMoreTokens(text, ids, from + 1, at + 1);
    }
  }

  /** The first loop of pinnedTokens: the renamed text is built piece by piece while the spans are noted. */
  method RewriteNames(text: string, ids: ToolIds) returns (read: string, spans: seq<Span>)
    ensures read == RenameTools(text, ids) && spans == RenamedSpans(text, ids)
  {
    hide TokensFrom, RenameFrom, SpansFrom, NewName, Cut, MatchAt;
    var tokens := Tokens(text);
    var renamed, written: nat := "", 0;
    spans := [];
    for index := 0 to |tokens|
      invariant written <= |text| && tokens[index..] == TokensFrom(text, written)
      invariant renamed + RenameFrom(text, ids, written) == RenameTools(text, ids)
      invariant spans + SpansFrom(text, ids, written, |renamed|) == RenamedSpans(text, ids)
    {
      NextToken(text, ids, written, |renamed|);
      var token := tokens[index];
      assert token == tokens[index..][0] && tokens[index..][1..] == tokens[index + 1..];
      ghost var gap, before := text[written..token.start], renamed;
      renamed := renamed + text[written..token.start];
      var name := text[token.start..token.end];
      if name in ids {
        name := ids[name];
      }
      assert name == NewName(ids, Cut(text, token)) by {
        RenamedCut(text, ids, token);
      }
      JoinFour(before, gap, name, RenameFrom(text, ids, token.end));
      var start := |renamed|;
      renamed := renamed + name;
      spans := spans + [Span(start, |renamed|)];
      written := token.end;
    }
    NoMoreTokens(text, ids, written, |renamed|);
    renamed := renamed + text[written..];
    read := renamed;
  }

  lemma RenamedCut(text: string, ids: ToolIds, t: Span)
    requires t.start <= t.end <= |text|
    ensures NewName(ids, Cut(text, t)) == if text[t.start..t.end] in ids then ids[text[t.start..t.end]] else text[t.start..t.end]
  {}

  /** The span, read in a text that starts at `at`, holds the name. */
  predicate Delimits(out: string, at: nat, span: Span, name: string) {
    at <= span.start <= span.end <= at + |out| && out[span.start - at..span.end - at] == name
  }

  lemma DelimitsBehind(front: string, rest: string, at: nat, span: Span, name: string)
    requires Delimits(rest, at + |front|, span, name)
    ensures Delimits(front + rest, at, span, name)
  {
    var s, e := span.start - at, span.end - at;
    assert (front + rest)[s..e] == rest[s - |front|..e - |front|];
  }

  lemma DelimitsFront(name: string, rest: string, at: nat)
    ensures Delimits(name + rest, at, Span(at, at + |name|), name)
  {}

  /** Each span delimits exactly the rewritten name of its token, and the spans ascend without overlap. */
  ghost predicate Delimited(text: string, ids: ToolIds, out: string, at: nat, tokens: seq<Span>, spans: seq<Span>) {
    && |spans| == |tokens| && Within(text, tokens) && Ascending(spans)
    && forall i | 0 <= i < |spans| :: Delimits(out, at, spans[i], NewName(ids, Cut(text, tokens[i])))
  }

  lemma DelimitedBehind(text: string, ids: ToolIds, front: string, rest: string, at: nat, tokens: seq<Span>, spans: seq<Span>)
    requires Delimited(text, ids, rest, at + |front|, tokens, spans)
    ensures Delimited(text, ids, front + rest, at, tokens, spans)
  {
    hide Delimits, NewName, Cut;
    forall i | 0 <= i < |spans| ensures Delimits(front + rest, at, spans[i], NewName(ids, Cut(text, tokens[i]))) {
      DelimitsBehind(front, rest, at, spans[i], NewName(ids, Cut(text, tokens[i])));
    }
  }

  lemma DelimitedWithName(text: string, ids: ToolIds, rest: string, at: nat, t: Span, tokens: seq<Span>, spans: seq<Span>)
    requires t.start < t.end <= |text|
    requires Delimited(text, ids, rest, at + |NewName(ids, Cut(text, t))|, tokens, spans)
    ensures var name := NewName(ids, Cut(text, t));
            Delimited(text, ids, name + rest, at, [t] + tokens, [Span(at, at + |name|)] + spans)
  {
    hide *;
    var name := NewName(ids, Cut(text, t));
    var first := Span(at, at + |name|);
    StartsPast(text, ids, rest, at + |name|, tokens, spans);
    AscendingCons(first, spans);
    DelimitedBehind(text, ids, name, rest, at, tokens, spans);
    DelimitsFront(name, rest, at);
    DelimitedCons(text, ids, name + rest, at, t, first, tokens, spans);
  }

  lemma DelimitedCons(text: string, ids: ToolIds, out: string, at: nat, t: Span, first: Span, tokens: seq<Span>, spans: seq<Span>)
    requires t.start < t.end <= |text| && Delimits(out, at, first, NewName(ids, Cut(text, t)))
    requires Delimited(text, ids, out, at, tokens, spans) && Ascending([first] + spans)
    ensures Delimited(text, ids, out, at, [t] + tokens, [first] + spans)
  {
    WithinCons(text, t, tokens);
    hide Delimits, NewName, Cut, Ascending, Within;
  }

  lemma StartsPast(text: string, ids: ToolIds, out: string, at: nat, tokens: seq<Span>, spans: seq<Span>)
    requires Delimited(text, ids, out, at, tokens, spans)
    ensures Ascending(spans) && forall i | 0 <= i < |spans| :: at <= spans[i].start
  {
    hide NewName, Cut, Ascending;
    forall i | 0 <= i < |spans| ensures at <= spans[i].start {
      assert Delimits(out, at, spans[i], NewName(ids, Cut(text, tokens[i])));
    }
  }

  lemma WithinCons(text: string, t: Span, tokens: seq<Span>)
    requires Within(text, tokens) && t.start < t.end <= |text|
    ensures Within(text, [t] + tokens)
  {}

  lemma AscendingCons(t: Span, spans: seq<Span>)
    requires Ascending(spans) && forall i | 0 <= i < |spans| :: t.end <= spans[i].start
    ensures Ascending([t] + spans)
  {}

  lemma StepChar(text: string, ids: ToolIds, from: nat, at: nat)
    requires from < |text| && MatchAt(text, from).None?
    ensures RenameFrom(text, ids, from) == [text[from]] + RenameFrom(text, ids, from + 1)
    ensures SpansFrom(text, ids, from, at) == SpansFrom(text, ids, from + 1, at + 1)
    ensures TokensFrom(text, from) == TokensFrom(text, from + 1)
  {
    hide MatchAt, NewName;
  }

  lemma StepName(text: string, ids: ToolIds, from: nat, at: nat, t: Span)
    requires from < |text| && MatchAt(text, from) == Some(t.end) && t.start == from
    ensures var name := NewName(ids, Cut(text, t));
            && RenameFrom(text, ids, from) == name + RenameFrom(text, ids, t.end)
            && SpansFrom(text, ids, from, at) == [Span(at, at + |name|)] + SpansFrom(text, ids, t.end, at + |name|)
            && TokensFrom(text, from) == [t] + TokensFrom(text, t.end)
  {
    hide MatchAt, NewName;
    assert t == Span(from, t.end);
  }

  lemma NoStep(text: string, ids: ToolIds, from: nat, at: nat)
    requires from >= |text|
    ensures RenameFrom(text, ids, from) == "" && SpansFrom(text, ids, from, at) == [] && TokensFrom(text, from) == []
  {}

  /** Everything up to the next token is copied, and the token's new name follows it. */
  lemma {:induction false} NextToken(text: string, ids: ToolIds, from: nat, at: nat)
    requires from <= |text| && TokensFrom(text, from) != []
    ensures var t := TokensFrom(text, from)[0]; from <= t.start < t.end <= |text|
    ensures var t := TokensFrom(text, from)[0]; var name := NewName(ids, Cut(text, t));
            && TokensFrom(text, t.end) == TokensFrom(text, from)[1..]
            && RenameFrom(text, ids, from) == text[from..t.start] + (name + RenameFrom(text, ids, t.end))
            && SpansFrom(text, ids, from, at)
               == [Span(at + t.start - from, at + t.start - from + |name|)]
                  + SpansFrom(text, ids, t.end, at + t.start - from + |name|)
    decreases |text| - from
  {
    hide *;
    if from >= |text| {
      NoStep(text, ids, from, at);
    } else {
      match MatchAt(text, from)
      case Some(e) =>
        var t := Span(from, e);
        StepName(text, ids, from, at, t);
        assert ([t] + TokensFrom(text, e))[1..] == TokensFrom(text, e);
      case None =>
        StepChar(text, ids, from, at);
        NextToken(text, ids, from + 1, at + 1);
        var t := TokensFrom(text, from + 1)[0];
    }
  }

  lemma DelimitedNothing(text: string, ids: ToolIds, at: nat)
    ensures Delimited(text, ids, "", at, [], [])
  {}

  lemma {:induction false} SpansDelimitFrom(text: string, ids: ToolIds, from: nat, at: nat)
    ensures Delimited(text, ids, RenameFrom(text, ids, from), at, TokensFrom(text, from), SpansFrom(text, ids, from, at))
    decreases |text| - from
  {
    hide *;
    if from >= |text| {
      NoStep(text, ids, from, at);
      DelimitedNothing(text, ids, at);
    } else {
      match MatchAt(text, from)
      case Some(e) =>
        var t := Span(from, e);
        var after := at + |NewName(ids, Cut(text, t))|;
        StepName(text, ids, from, at, t);
        SpansDelimitFrom(text, ids, e, after);
        DelimitedWithName(text, ids, RenameFrom(text, ids, e), at, t, TokensFrom(text, e), SpansFrom(text, ids, e, after));
      case None =>
        StepChar(text, ids, from, at);
        SpansDelimitFrom(text, ids, from + 1, at + 1);
        DelimitedBehind(text, ids, [text[from]], RenameFrom(text, ids, from + 1), at, TokensFrom(text, from + 1),
                        SpansFrom(text, ids, from + 1, at + 1));
    }
  }

  /** The spans of pinnedTokens delimit the rewritten names of the text as it will be written. */
  lemma SpansDelimit(text: string, ids: ToolIds)
    ensures Delimited(text, ids, RenameTools(text, ids), 0, Tokens(text), RenamedSpans(text, ids))
  {
    SpansDelimitFrom(text, ids, 0, 0);
  }

  // ---------------------------------------------------------------- whole hints inside a text

  predicate HasSpace(value: string) {
    ' ' in value
  }

  /** strings.HasPrefix(read[start:], value) */
  predicate OccursAt(read: string, value: string, start: nat) {
    start + |value| <= |read| && read[start..start + |value|] == value
  }

  predicate Covers(occurrence: Span, span: Span) {
    occurrence.start <= span.start && span.end <= occurrence.end
  }

  /** Every stretch of the text that is one of the values, of those that read as a sentence. */
  ghost function Occurrences(read: string, values: seq<string>): set<Span> {
    set v, s: nat | v in values && HasSpace(v) && 0 <= s < |read| && OccursAt(read, v, s) :: Span(s, s + |v|)
  }

  ghost function OccurrencesBefore(read: string, value: string, bound: nat): set<Span> {
    set s: nat | 0 <= s < bound && OccursAt(read, value, s) :: Span(s, s + |value|)
  }

  /** `inside` is nil when nothing occurs, and else says of each span whether some occurrence covers it. */
  ghost predicate Marks(inside: Option<seq<bool>>, occurrences: set<Span>, spans: seq<Span>) {
    && (inside.None? <==> occurrences == {})
    && (inside.Some? ==>
          |inside.value| == |spans|
          && forall i | 0 <= i < |spans| :: inside.value[i] <==> exists o | o in occurrences :: Covers(o, spans[i]))
  }

  /** The innermost loop: every span the occurrence covers is marked. */
  method MarkCovered(spans: seq<Span>, inside: Option<seq<bool>>, occurrence: Span, ghost before: set<Span>)
    returns (marked: Option<seq<bool>>)
    requires Marks(inside, before, spans)
    ensures Marks(marked, before + {occurrence}, spans)
  {
    var now := if inside.None? then seq(|spans|, _ => false) else inside.value;
    ghost var was := now;
    for index := 0 to |spans|
      invariant |now| == |spans|
      invariant forall i | 0 <= i < index :: now[i] == (was[i] || Covers(occurrence, spans[i]))
      invariant forall i | index <= i < |spans| :: now[i] == was[i]
    {
      if occurrence.start <= spans[index].start && spans[index].end <= occurrence.end {
        now := now[index := true];
      }
    }
    marked := Some(now);
  }

  /** pinnedTokens: which tool names of a text lie inside a whole hint it holds, and nil when it holds none. */
  method PinnedTokens(text: string, values: seq<string>, ids: ToolIds) returns (inside: Option<seq<bool>>)
    ensures Marks(inside, Occurrences(RenameTools(text, ids), values), RenamedSpans(text, ids))
  {
    var read, spans := RewriteNames(text, ids);
    hide Marks, RenameTools, RenamedSpans, OccursAt;
    inside := None;
    NothingMarked(spans);
    assert Occurrences(read, values[..0]) == {};
    for v := 0 to |values|
      invariant Marks(inside, Occurrences(read, values[..v]), spans)
    {
      var value := values[v];
      ghost var before := Occurrences(read, values[..v]);
      MoreValues(read, values, v);
      if !HasSpace(value) {
        continue;
      }
      assert before + OccurrencesBefore(read, value, 0) == before;
      for start := 0 to |read|
        invariant Marks(inside, before + OccurrencesBefore(read, value, start), spans)
      {
        MoreStarts(read, value, start);
        if !OccursAt(read, value, start) {
          continue;
        }
        ghost var sofar := before + OccurrencesBefore(read, value, start);
        var occurrence := Span(start, start + |value|);
        inside := MarkCovered(spans, inside, occurrence, sofar);
        assert sofar + {occurrence} == before + OccurrencesBefore(read, value, start + 1);
      }
    }
    assert values[..|values|] == values;
  }

  lemma NothingMarked(spans: seq<Span>)
    ensures Marks(None, {}, spans)
  {}

  lemma MoreStarts(read: string, value: string, start: nat)
    ensures var before, after := OccurrencesBefore(read, value, start), OccurrencesBefore(read, value, start + 1);
            after == if OccursAt(read, value, start) then before + {Span(start, start + |value|)} else before
  {
    hide OccursAt;
  }

  lemma MoreValues(read: string, values: seq<string>, v: nat)
    requires v < |values|
    ensures var before, after := Occurrences(read, values[..v]), Occurrences(read, values[..v + 1]);
            after == if HasSpace(values[v]) then before + OccurrencesBefore(read, values[v], |read|) else before
  {
    hide OccursAt, HasSpace;
    assert values[..v + 1] == values[..v] + [values[v]];
  }

  ghost predicate CoveredBySome(read: string, values: seq<string>, span: Span) {
    exists v, o: Span ::
      v in values && HasSpace(v) && OccursAt(read, v, o.start) && o.end == o.start + |v| && Covers(o, span)
  }

  lemma OccurrenceListed(read: string, values: seq<string>, v: string, o: Span)
    requires v in values && HasSpace(v) && OccursAt(read, v, o.start) && o.end == o.start + |v|
    ensures o in Occurrences(read, values)
  {
    assert |v| > 0;
    assert o == Span(o.start, o.start + |v|);
  }

  /**
    A tool name is reported inside exactly when some folded value that holds a space occurs, anywhere in the rewritten
    text, over the whole of the name's rewriting; overlapping occurrences count.
  */
  lemma PinnedMeans(text: string, values: seq<string>, ids: ToolIds, inside: seq<bool>, i: nat)
    requires Marks(Some(inside), Occurrences(RenameTools(text, ids), values), RenamedSpans(text, ids))
    requires i < |Tokens(text)|
    ensures |inside| == |Tokens(text)| == |RenamedSpans(text, ids)|
    ensures inside[i] <==> CoveredBySome(RenameTools(text, ids), values, RenamedSpans(text, ids)[i])
  {
    SpansDelimit(text, ids);
    hide RenameTools, RenamedSpans, OccursAt, Delimits, Tokens, NewName, Cut;
    var read, span := RenameTools(text, ids), RenamedSpans(text, ids)[i];
    hide Covers;
    if CoveredBySome(read, values, span) {
      var v, o: Span :| v in values && HasSpace(v) && OccursAt(read, v, o.start) && o.end == o.start + |v| && Covers(o, span);
      OccurrenceListed(read, values, v, o);
    }
  }
}
