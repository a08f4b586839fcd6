/**
  Matching a resource URI against served templates, segment by segment, and sampling a template's own URI.

  `MatchIffExpands` holds the matcher to the meaning of a template: some value for each placeholder expands it to the
  URI. `SampleMatches` ties the brace scanner that samples a template to the slash splitter that matches it.
*/
module UriTemplates {
  import opened Outcomes
  import opened Splitting

  // ---------------------------------------------------------------- the matcher

  predicate Closed(seg: string) {
    |seg| > 0 && seg[|seg| - 1] == '}'
  }

  /** {+name}: takes the rest of the path. */
  predicate Reserved(seg: string) {
    |seg| > 1 && seg[0] == '{' && seg[1] == '+' && Closed(seg)
  }

  /** {name}: takes one segment. A reserved segment is one too, and is asked about first. */
  predicate Placeholder(seg: string) {
    |seg| > 0 && seg[0] == '{' && Closed(seg)
  }

  /** The literal segments matched, when the segments of the URI expand those of the template. */
  function MatchSegments(template: seq<string>, uri: seq<string>): Option<nat> {
    if template == [] then if uri == [] then Some(0) else None
    else if uri == [] then None
    else if Reserved(template[0]) then if |template| == 1 && uri[0] != "" then Some(0) else None
    else if Placeholder(template[0]) then if uri[0] == "" then None else MatchSegments(template[1..], uri[1..])
    else if template[0] != uri[0] then None
    else
      match MatchSegments(template[1..], uri[1..])
      case Some(n) => Some(n + 1)
      case None => None
  }

  function TemplateMatch(template: string, uri: string): Option<nat> {
    MatchSegments(Split(template, '/'), Split(uri, '/'))
  }

  /** templateMatch as it runs, counting literals in a loop over the template's segments. */
  method TemplateMatchInLoop(template: string, uri: string) returns (literals: nat, matched: bool)
    ensures matched == TemplateMatch(template, uri).Some?
    ensures matched ==> literals == TemplateMatch(template, uri).value
  {
    var tSegs, uSegs := Split(template, '/'), Split(uri, '/');
    literals := 0;
    assert tSegs[0..] == tSegs && uSegs[0..] == uSegs;
    ghost var whole := MatchSegments(tSegs, uSegs);
    for i := 0 to |tSegs|
      invariant i <= |uSegs|
      invariant whole == match MatchSegments(tSegs[i..], uSegs[i..]) case Some(n) => Some(n + literals) case None => None
    {
      var seg := tSegs[i];
      if i >= |uSegs| {
        return 0, false;
      }
      assert tSegs[i..][1..] == tSegs[i + 1..] && uSegs[i..][1..] == uSegs[i + 1..];
      if Reserved(seg) {
        return literals, i == |tSegs| - 1 && uSegs[i] != "";
      } else if Placeholder(seg) {
        if uSegs[i] == "" {
          return 0, false;
        }
      } else if seg != uSegs[i] {
        return 0, false;
      } else {
        literals := literals + 1;
      }
    }
    matched := |tSegs| == |uSegs|;
  }

  // ---------------------------------------------------------------- what a template means

  ghost predicate TakesRest(seg: string) {
    exists name :: seg == "{+" + name + "}"
  }

  ghost predicate TakesOne(seg: string) {
    exists name :: seg == "{" + name + "}"
  }

  lemma SegmentsAre(seg: string)
    ensures Reserved(seg) <==> TakesRest(seg)
    ensures Placeholder(seg) && |seg| > 1 <==> TakesOne(seg)
    ensures Placeholder(seg) ==> |seg| > 1
  {
    if Reserved(seg) {
      assert |seg| > 2;
      assert seg == "{+" + seg[2..|seg| - 1] + "}";
    }
    if Placeholder(seg) {
      assert |seg| > 1;
      assert seg == "{" + seg[1..|seg| - 1] + "}";
    }
  }

  /**
    A value a template segment can stand for: {+name} for the rest of the path, which only the last segment may take,
    {name} for one segment, and any other text for itself.
  */
  ghost predicate StandsFor(seg: string, value: string, last: bool) {
    if TakesRest(seg) then last && value != "" && value[0] != '/'
    else if TakesOne(seg) then value != "" && '/' !in value
    else value == seg
  }

  /** One value for each segment, which together expand the template. */
  ghost predicate Assignment(template: seq<string>, values: seq<string>) {
    |values| == |template| && forall i | 0 <= i < |template| :: StandsFor(template[i], values[i], i == |template| - 1)
  }

  ghost predicate Expands(template: seq<string>, uri: string)
    requires |template| >= 1
  {
    exists values :: Assignment(template, values) && Join(values, '/') == uri
  }

  lemma {:induction false} MatchedExpands(template: seq<string>, uri: string) returns (values: seq<string>)
    requires |template| >= 1 && MatchSegments(template, Split(uri, '/')).Some?
    ensures Assignment(template, values) && Join(values, '/') == uri
    decreases |template|
  {
    var segs := Split(uri, '/');
    SegmentsAre(template[0]);
    hide TakesRest, TakesOne;
    if |template| == 1 {
      values := [uri];
      if Reserved(template[0]) {
        FirstSegment(uri);
      } else {
        assert segs[1..] == [];
        JoinSplit(uri, '/');
        assert segs == [segs[0]];
        assert segs[0] in segs;
      }
    } else {
      SplitHead(uri, '/');
      var rest := MatchedExpands(template[1..], Join(segs[1..], '/'));
      values := [segs[0]] + rest;
      assert segs[0] in segs;
    }
  }

  lemma FirstSegment(uri: string)
    ensures Split(uri, '/')[0] != "" <==> uri != "" && uri[0] != '/'
  {}

  lemma {:induction false} ExpandedMatches(template: seq<string>, values: seq<string>)
    requires |template| >= 1 && Assignment(template, values)
    requires forall g | g in template :: '/' !in g
    ensures MatchSegments(template, Split(Join(values, '/'), '/')).Some?
    decreases |template|
  {
    SegmentsAre(template[0]);
    hide TakesRest, TakesOne;
    assert StandsFor(template[0], values[0], 0 == |template| - 1);
    assert template[0] in template;
    if |template| == 1 {
      if Reserved(template[0]) {
        FirstSegment(values[0]);
      } else {
        SplitWhole(values[0], '/');
      }
    } else {
      assert forall i | 0 <= i < |template[1..]| :: template[1..][i] == template[i + 1];
      ExpandedMatches(template[1..], values[1..]);
      SplitAt(values[0], Join(values[1..], '/'), '/');
      var segs := [values[0]] + Split(Join(values[1..], '/'), '/');
      assert segs[1..] == Split(Join(values[1..], '/'), '/');
    }
  }

  /** A template matches a URI exactly when some value for each of its placeholders expands it to the URI. */
  lemma MatchIffExpands(template: string, uri: string)
    ensures TemplateMatch(template, uri).Some? <==> Expands(Split(template, '/'), uri)
  {
    hide Split, Join, MatchSegments;
    if TemplateMatch(template, uri).Some? {
      var values := MatchedExpands(Split(template, '/'), uri);
    }
    forall values | Assignment(Split(template, '/'), values) && Join(values, '/') == uri
      ensures TemplateMatch(template, uri).Some?
    {
      ExpandedMatches(Split(template, '/'), values);
    }
  }

  /** How many segments are no variable. */
  ghost function LiteralSegments(segs: seq<string>): nat {
    if segs == [] then 0 else (if TakesOne(segs[0]) then 0 else 1) + LiteralSegments(segs[1..])
  }

  lemma {:induction false} MatchCounts(template: seq<string>, uri: seq<string>)
    requires MatchSegments(template, uri).Some?
    ensures MatchSegments(template, uri).value == LiteralSegments(template)
    decreases |template|
  {
    if template == [] {
    } else {
      SegmentsAre(template[0]);
      ReservedTakesOne(template[0]);
      hide TakesRest, TakesOne, Reserved, Placeholder;
      if !Reserved(template[0]) {
        MatchCounts(template[1..], uri[1..]);
      } else {
        assert template[1..] == [];
      }
    }
  }

  lemma ReservedTakesOne(seg: string)
    ensures Reserved(seg) ==> Placeholder(seg)
  {}

  /** A match is worth the literal segments of its template. */
  lemma MatchCountsLiterals(template: string, uri: string)
    requires TemplateMatch(template, uri).Some?
    ensures TemplateMatch(template, uri).value == LiteralSegments(Split(template, '/'))
  {
    MatchCounts(Split(template, '/'), Split(uri, '/'));
  }

  // ---------------------------------------------------------------- the most specific template

  /** template k matches, every match before it has fewer literals, and none behind it has more. */
  ghost predicate MostSpecific(templates: seq<string>, uri: string, k: nat) {
    && k < |templates| && TemplateMatch(templates[k], uri).Some?
    && (forall j | 0 <= j < k && TemplateMatch(templates[j], uri).Some? ::
          TemplateMatch(templates[j], uri).value < TemplateMatch(templates[k], uri).value)
    && (forall j | k < j < |templates| && TemplateMatch(templates[j], uri).Some? ::
          TemplateMatch(templates[j], uri).value <= TemplateMatch(templates[k], uri).value)
  }

  /** matchTemplate: the first of the matches with the most literal segments, or none when none matches. */
  method MatchTemplate(templates: seq<string>, uri: string) returns (best: string, found: bool)
    ensures found <==> exists t :: t in templates && TemplateMatch(t, uri).Some?
    ensures found ==> exists k: nat :: MostSpecific(templates, uri, k) && templates[k] == best
    ensures !found ==> best == ""
  {
    hide TemplateMatch;
    best := "";
    var bestLiterals: int := -1;
    ghost var k: nat := 0;
    for i := 0 to |templates|
      invariant bestLiterals >= -1
      invariant bestLiterals == -1 ==> best == "" && forall j | 0 <= j < i :: TemplateMatch(templates[j], uri).None?
      invariant bestLiterals >= 0 ==>
                  k < i && best == templates[k] && TemplateMatch(best, uri).Some? && TemplateMatch(best, uri).value == bestLiterals
      invariant bestLiterals >= 0 ==> MostSpecific(templates[..i], uri, k)
    {
      var literals, matched := TemplateMatchInLoop(templates[i], uri);
      if matched && literals > bestLiterals {
        best, bestLiterals, k := templates[i], literals, i;
      }
    }
    assert templates[..|templates|] == templates;
    found := bestLiterals >= 0;
  }

  // ---------------------------------------------------------------- sampling a template

  /** The first position of c from i on, or the length. */
  function IndexFrom(s: string, c: char, i: nat): (at: nat)
    requires i <= |s|
    ensures i <= at <= |s| && (at < |s| ==> s[at] == c)
    ensures forall j | i <= j < at :: s[j] != c
    decreases |s| - i
  {
    if i == |s| || s[i] == c then i else IndexFrom(s, c, i + 1)
  }

  predicate HasSuffix(s: string, suffix: string) {
    |suffix| <= |s| && s[|s| - |suffix|..] == suffix
  }

  function SampleName(variable: string): (sample: string)
    ensures sample != "" && '/' !in sample
  {
    if HasSuffix(variable, "_id") || HasSuffix(variable, "_iid") then "1" else "sample"
  }

  /** The text behind a closing brace. */
  function TextBehind(rest: string, close: nat): (tail: string)
    requires close < |rest|
    ensures |tail| < |rest|
  {
    rest[close + 1..]
  }

  /** The text in front of a placeholder, the placeholder's sample, and more. */
  function Expanded(rest: string, open: nat, close: nat, more: string): string
    requires open < close < |rest|
  {
    rest[..open] + (SampleName(rest[open + 1..close]) + more)
  }

  /** The expansion of what is left of a template; text with no placeholder that closes is copied. */
  function SampleFrom(rest: string): string
    decreases |rest|
  {
    var open := IndexFrom(rest, '{', 0);
    if open == |rest| then rest
    else
      var close := IndexFrom(rest, '}', open + 1);
      if close == |rest| then rest else Expanded(rest, open, close, SampleFrom(TextBehind(rest, close)))
  }

  lemma SampleUnfold(rest: string, open: nat, close: nat)
    requires open == IndexFrom(rest, '{', 0) < |rest| && close == IndexFrom(rest, '}', open + 1) < |rest|
    ensures open < close && SampleFrom(rest) == Expanded(rest, open, close, SampleFrom(TextBehind(rest, close)))
  {
    hide IndexFrom, Expanded, TextBehind;
  }

  lemma SampleStep(rest: string, open: nat, close: nat)
    requires open == IndexFrom(rest, '{', 0) < |rest| && close == IndexFrom(rest, '}', open + 1) < |rest|
    ensures SampleFrom(rest) == rest[..open] + (SampleName(rest[open + 1..close]) + SampleFrom(rest[close + 1..]))
  {
    hide *;
    SampleUnfold(rest, open, close);
    PartsAre(rest, open, close, SampleFrom(rest[close + 1..]));
  }

  lemma PartsAre(rest: string, open: nat, close: nat, more: string)
    requires open < close < |rest|
    ensures TextBehind(rest, close) == rest[close + 1..]
    ensures Expanded(rest, open, close, more) == rest[..open] + (SampleName(rest[open + 1..close]) + more)
  {
    hide SampleName;
  }

  lemma SampleRest(rest: string)
    requires var open := IndexFrom(rest, '{', 0); open == |rest| || IndexFrom(rest, '}', open + 1) == |rest|
    ensures SampleFrom(rest) == rest
  {}

  /** sampleURI as it runs, consuming `rest`. */
  method SampleURI(template: string) returns (uri: string)
    ensures uri == SampleFrom(template)
  {
    hide SampleFrom, SampleName, IndexFrom;
    uri := "";
    var rest := template;
    while true
      invariant uri + SampleFrom(rest) == SampleFrom(template)
      decreases |rest|
    {
      var open := IndexFrom(rest, '{', 0);
      if open == |rest| {
        SampleRest(rest);
        uri := uri + rest;
        return;
      }
      var close := IndexFrom(rest, '}', open + 1);
      if close == |rest| {
        SampleRest(rest);
        uri := uri + rest;
        return;
      }
      SampleStep(rest, open, close);
      var before, sample := rest[..open], SampleName(rest[open + 1..close]);
      JoinThree(uri, before, sample + SampleFrom(rest[close + 1..]));
      JoinThree(uri + before, sample, SampleFrom(rest[close + 1..]));
      uri := uri + before;
      uri := uri + sample;
      rest := rest[close + 1..];
    }
  }

  /** What stands in a sample for a variable: a number where its name ends in _id or _iid, and a word elsewhere. */
  ghost predicate SampledAs(variable: string, sample: string) {
    if exists front :: variable == front + "_id" || variable == front + "_iid" then sample == "1" else sample == "sample"
  }

  lemma NamesAreSampled(variable: string)
    ensures SampledAs(variable, SampleName(variable))
  {
    if HasSuffix(variable, "_id") {
      assert variable == variable[..|variable| - 3] + "_id";
    }
    if HasSuffix(variable, "_iid") {
      assert variable == variable[..|variable| - 4] + "_iid";
    }
  }

  lemma BracesStand(variable: string, rest: string)
    ensures var t := "{" + (variable + ("}" + rest));
            && |variable| + 2 <= |t| && t[0] == '{' && t[1 + |variable|] == '}'
            && t[1..1 + |variable|] == variable && t[|variable| + 2..] == rest
            && forall j | 1 <= j < 1 + |variable| :: t[j] == variable[j - 1]
  {}

  /** Where the parts of a text with a variable in it stand. */
  lemma VariableStands(before: string, variable: string, rest: string)
    ensures var all, open, close := before + ("{" + (variable + ("}" + rest))), |before|, |before| + 1 + |variable|;
            && close < |all| && all[open] == '{' && all[close] == '}'
            && all[..open] == before && all[open + 1..close] == variable && all[close + 1..] == rest
            && (forall j | 0 <= j < open :: all[j] == before[j])
            && forall j | open + 1 <= j < close :: all[j] == variable[j - open - 1]
  {
    BracesStand(variable, rest);
    TextStands(before, "{" + (variable + ("}" + rest)), variable, rest);
  }

  lemma TextStands(before: string, t: string, variable: string, rest: string)
    requires |variable| + 2 <= |t| && t[0] == '{' && t[1 + |variable|] == '}'
    requires t[1..1 + |variable|] == variable && t[|variable| + 2..] == rest
    requires forall j | 1 <= j < 1 + |variable| :: t[j] == variable[j - 1]
    ensures var all, open, close := before + t, |before|, |before| + 1 + |variable|;
            && close < |all| && all[open] == '{' && all[close] == '}'
            && all[..open] == before && all[open + 1..close] == variable && all[close + 1..] == rest
            && (forall j | 0 <= j < open :: all[j] == before[j])
            && forall j | open + 1 <= j < close :: all[j] == variable[j - open - 1]
  {
    SliceBehind(before, t, 1, 1 + |variable|);
    SliceBehind(before, t, 0, |variable| + 2);
    assert before + t[..0] == before;
  }

  /** A template is sampled from its front: the first variable by its name, and then what is behind it. */
  lemma SampledFromFront(all: string, before: string, variable: string, rest: string)
    requires '{' !in before && '}' !in variable && all == before + ("{" + (variable + ("}" + rest)))
    ensures exists sample :: SampledAs(variable, sample) && SampleFrom(all) == before + (sample + SampleFrom(rest))
  {
    hide SampleFrom, SampleName, IndexFrom, SampledAs;
    VariableStands(before, variable, rest);
    var open, close := |before|, |before| + 1 + |variable|;
    IndexIs(all, '{', 0, open);
    IndexIs(all, '}', open + 1, close);
    SampleStep(all, open, close);
    NamesAreSampled(variable);
  }

  /** Text with no variable, or with one that never closes, is its own sample. */
  lemma SampledAsItIs(before: string, rest: string)
    requires '{' !in before && '}' !in rest
    ensures SampleFrom(before) == before && SampleFrom(before + "{" + rest) == before + "{" + rest
  {
    var all := before + "{" + rest;
    IndexIs(before, '{', 0, |before|);
    SampleRest(before);
    forall j | 0 <= j < |before| ensures all[j] != '{' {
      assert all[j] == before[j];
    }
    forall j | |before| + 1 <= j < |all| ensures all[j] != '}' {
      assert all[j] == rest[j - |before| - 1];
    }
    IndexIs(all, '{', 0, |before|);
    IndexIs(all, '}', |before| + 1, |all|);
    SampleRest(all);
  }

  predicate Plain(s: string) {
    '{' !in s && '}' !in s
  }

  /** A segment that is literal text, or nothing but one placeholder. */
  predicate WholeSegment(seg: string) {
    Plain(seg) || (|seg| >= 2 && seg[0] == '{' && Closed(seg) && Plain(seg[1..|seg| - 1]))
  }

  /** Placeholders are whole segments, and a reserved one comes last. */
  predicate WholeSegments(segs: seq<string>) {
    && (forall g | g in segs :: WholeSegment(g))
    && forall i | 0 <= i < |segs| && Reserved(segs[i]) :: i == |segs| - 1
  }

  function SampleSegment(seg: string): string
    requires WholeSegment(seg)
  {
    if Plain(seg) then seg else SampleName(seg[1..|seg| - 1])
  }

  function SampleSegments(segs: seq<string>): (samples: seq<string>)
    requires forall g | g in segs :: WholeSegment(g)
    ensures |samples| == |segs| && forall i | 0 <= i < |segs| :: samples[i] == SampleSegment(segs[i])
  {
    seq(|segs|, i requires 0 <= i < |segs| => SampleSegment(segs[i]))
  }

  lemma {:induction false} IndexIs(s: string, c: char, i: nat, at: nat)
    requires i <= at <= |s| && (at < |s| ==> s[at] == c) && forall j | i <= j < at :: s[j] != c
    ensures IndexFrom(s, c, i) == at
    decreases at - i
  {
    if i >= at {
    } else {
      IndexIs(s, c, i + 1, at);
    }
  }

  lemma SliceBehind(front: string, rest: string, i: nat, j: nat)
    requires i <= j <= |rest|
    ensures (front + rest)[|front| + i..|front| + j] == rest[i..j]
    ensures (front + rest)[..|front| + i] == front + rest[..i]
    ensures (front + rest)[|front| + j..] == rest[j..]
  {}

  lemma PlainHasNone(lit: string, c: char)
    requires Plain(lit) && (c == '{' || c == '}')
    ensures forall j | 0 <= j < |lit| :: lit[j] != c
  {}

  /** Where a brace first stands behind literal text. */
  lemma IndexBehind(lit: string, rest: string, c: char, i: nat)
    requires i <= |rest|
    ensures IndexFrom(lit + rest, c, |lit| + i) == |lit| + IndexFrom(rest, c, i)
    ensures Plain(lit) && (c == '{' || c == '}') ==> IndexFrom(lit + rest, c, 0) == |lit| + IndexFrom(rest, c, 0)
  {
    hide IndexFrom;
    var all, at, first := lit + rest, IndexFrom(rest, c, i), IndexFrom(rest, c, 0);
    forall j | |lit| + i <= j < |lit| + at ensures all[j] != c {
      assert all[j] == rest[j - |lit|];
    }
    IndexIs(all, c, |lit| + i, |lit| + at);
    if Plain(lit) && (c == '{' || c == '}') {
      PlainHasNone(lit, c);
      forall j | 0 <= j < |lit| + first ensures all[j] != c {
        assert all[j] == if j < |lit| then lit[j] else rest[j - |lit|];
      }
      IndexIs(all, c, 0, |lit| + first);
    }
  }

  /** Literal text in front is copied. */
  lemma SampleBehindPlain(lit: string, rest: string)
    requires Plain(lit)
    ensures SampleFrom(lit + rest) == lit + SampleFrom(rest)
  {
    hide SampleFrom, IndexFrom, Plain, SampleName;
    var open := IndexFrom(rest, '{', 0);
    IndexBehind(lit, rest, '{', 0);
    if open == |rest| {
      SampleRest(rest);
      SampleRest(lit + rest);
    } else {
      var close := IndexFrom(rest, '}', open + 1);
      IndexBehind(lit, rest, '}', open + 1);
      if close == |rest| {
        SampleRest(rest);
        SampleRest(lit + rest);
      } else {
        SampleStep(rest, open, close);
        SampleStep(lit + rest, |lit| + open, |lit| + close);
        SliceBehind(lit, rest, open + 1, close);
        SliceBehind(lit, rest, open, close + 1);
        JoinThree(lit, rest[..open], SampleName(rest[open + 1..close]) + SampleFrom(rest[close + 1..]));
      }
    }
  }

  lemma SampleBehindSegment(seg: string, rest: string)
    requires WholeSegment(seg)
    ensures SampleFrom(seg + rest) == SampleSegment(seg) + SampleFrom(rest)
  {
    if Plain(seg) {
      SampleBehindPlain(seg, rest);
    } else {
      var all, name, close := seg + rest, seg[1..|seg| - 1], |seg| - 1;
      IndexIs(all, '{', 0, 0);
      PlainHasNone(name, '}');
      forall j | 1 <= j < close ensures all[j] != '}' {
        assert all[j] == name[j - 1];
      }
      IndexIs(all, '}', 1, close);
      hide SampleFrom, IndexFrom, SampleName, Plain, Closed;
      SampleStep(all, 0, close);
      assert all[1..close] == name && all[close + 1..] == rest && all[..0] == "";
      assert "" + (SampleName(name) + SampleFrom(rest)) == SampleName(name) + SampleFrom(rest);
    }
  }

  lemma JoinOne(g: string)
    ensures Join([g], '/') == g
  {}

  lemma JoinMore(segs: seq<string>)
    requires |segs| > 1
    ensures Join(segs, '/') == segs[0] + ("/" + Join(segs[1..], '/'))
  {
    JoinThree(segs[0], "/", Join(segs[1..], '/'));
  }

  lemma SampleNothing()
    ensures SampleFrom("") == "" && Plain("/")
  {}

  lemma {:induction false} SampleBySegment(segs: seq<string>)
    requires |segs| >= 1 && forall g | g in segs :: WholeSegment(g)
    ensures SampleFrom(Join(segs, '/')) == Join(SampleSegments(segs), '/')
  {
    hide *;
    SampleNothing();
    assert segs[0] in segs;
    if |segs| == 1 {
      SampleBehindSegment(segs[0], "");
      assert segs == [segs[0]] && SampleSegments(segs) == [SampleSegment(segs[0])];
      JoinOne(segs[0]);
      JoinOne(SampleSegment(segs[0]));
      assert segs[0] + "" == segs[0] && SampleSegment(segs[0]) + "" == SampleSegment(segs[0]);
    } else {
      SampleBySegment(segs[1..]);
      assert SampleSegments(segs)[1..] == SampleSegments(segs[1..]);
      var rest := Join(segs[1..], '/');
      SampleBehindSegment(segs[0], "/" + rest);
      SampleBehindPlain("/", rest);
      JoinMore(segs);
      JoinMore(SampleSegments(segs));
    }
  }

  /** Literal text is its own sample, and a placeholder's sample is never empty. */
  lemma SegmentSamples(seg: string)
    requires WholeSegment(seg)
    ensures if Placeholder(seg) then SampleSegment(seg) != "" else SampleSegment(seg) == seg
    ensures Reserved(seg) ==> Placeholder(seg)
  {
    hide SampleName;
  }

  lemma {:induction false} SamplesMatch(segs: seq<string>)
    requires WholeSegments(segs)
    ensures MatchSegments(segs, SampleSegments(segs)) == Some(LiteralSegments(segs))
  {
    hide WholeSegment, SampleSegment, SampleSegments, Placeholder, Reserved, TakesOne, TakesRest;
    if segs == [] {
    } else {
      assert segs[0] in segs;
      SegmentSamples(segs[0]);
      SegmentsAre(segs[0]);
      assert SampleSegments(segs)[1..] == SampleSegments(segs[1..]);
      assert forall i | 0 <= i < |segs[1..]| :: segs[1..][i] == segs[i + 1];
      SamplesMatch(segs[1..]);
    }
  }

  /** A template whose placeholders are whole segments always matches its own sample. */
  lemma SampleMatches(template: string)
    requires WholeSegments(Split(template, '/'))
    ensures TemplateMatch(template, SampleFrom(template)) == Some(LiteralSegments(Split(template, '/')))
  {
    hide Split, Join, SampleFrom, MatchSegments, LiteralSegments, SampleSegments, Reserved;
    var segs := Split(template, '/');
    JoinSplit(template, '/');
    SampleBySegment(segs);
    var samples := SampleSegments(segs);
    forall g | g in samples ensures '/' !in g {
      var i :| 0 <= i < |samples| && samples[i] == g;
      assert segs[i] in segs;
    }
    SplitJoin(samples, '/');
    SamplesMatch(segs);
  }
}
