/**
  What a run of the hint fixer makes of a file, literal by literal, in terms of the text a literal denotes.

  A piece of a hint is renamed throughout, in production and in test files alike; any other production literal keeps
  every byte, and of any other test literal only names inside a hint it holds are renamed.
*/
module HintPasses {
  import opened Outcomes
  import opened ToolTokens
  import opened PinnedHints
  import opened HintSplice
  import opened HintNames

  function ValuesOf(pass: Pass): seq<string> {
    pass.values
  }

  /** Tab, line feed, vertical tab, form feed, carriage return and space. */
  predicate White(c: char) {
    9 <= c as int <= 13 || c as int == 32
  }

  /** Something besides white space is written, a space among it, and some hint holds the whole of it. */
  ghost predicate PieceOfAHint(text: string, values: seq<string>) {
    && (exists k | 0 <= k < |text| :: !White(text[k]))
    && (exists k | 0 <= k < |text| :: text[k] == ' ')
    && exists before: string, after: string :: before + text + after in values
  }

  lemma PiecesAreParts(text: string, values: seq<string>)
    ensures PieceOfAHint(text, values) <==> PartOfAHint(text, values)
  {
    WhiteIsBlank(text);
    hide White, SpaceChar, Blank;
    if PartOfAHint(text, values) {
      var v :| v in values && Contains(v, text);
      var k: nat :| k <= |v| && OccursAt(v, text, k);
      assert v == v[..k] + text + v[k + |text|..];
    }
    if before: string, after: string :| before + text + after in values {
      var v := before + text + after;
      assert v[|before|..|before| + |text|] == text;
      assert OccursAt(v, text, |before|) && Contains(v, text);
    }
  }

  lemma WhiteIsBlank(text: string)
    ensures Blank(text) <==> !exists k | 0 <= k < |text| :: !White(text[k])
  {
    assert forall c :: White(c) <==> SpaceChar(c);
    hide White, SpaceChar;
  }

  /** The tools a run renames: those the catalog resolves and no rule exempts. */
  function Live(ids: ToolIds, exempt: set<string>): ToolIds {
    map tool | tool in ids && tool !in exempt :: ids[tool]
  }

  /** Of some names, those neither exempt nor a tool of the catalog. */
  function Unresolved(names: seq<string>, exempt: set<string>, ids: ToolIds): seq<string> {
    if names == [] then []
    else (if names[0] !in exempt && names[0] !in ids then [names[0]] else []) + Unresolved(names[1..], exempt, ids)
  }

  /** Every name is decided by whether it is renamed, and unresolved otherwise unless it is exempt. */
  ghost predicate DecidedBy(names: seq<string>, decisions: seq<Decision>, exempt: set<string>, ids: ToolIds) {
    && |names| == |decisions|
    && forall i | 0 <= i < |names| ::
         if names[i] in Live(ids, exempt) then decisions[i] == Rewritten(ids[names[i]])
         else !decisions[i].Rewritten? && (decisions[i].Unknown? <==> names[i] !in exempt && names[i] !in ids)
  }

  lemma {:induction false} UnknownAreUnresolved(names: seq<string>, decisions: seq<Decision>, exempt: set<string>, ids: ToolIds)
    requires DecidedBy(names, decisions, exempt, ids)
    ensures UnknownNames(names, decisions) == Unresolved(names, exempt, ids)
  {
    if names == [] {
    } else {
      UnknownAreUnresolved(names[1..], decisions[1..], exempt, ids);
    }
  }

  /** Token by token, deciding like that is renaming. */
  lemma {:induction false} DecidedIsRenamed(text: string, from: nat, decisions: seq<Decision>, exempt: set<string>, ids: ToolIds)
    requires from <= |text| && |TokensFrom(text, from)| == |decisions| && Within(text, TokensFrom(text, from))
    requires DecidedBy(Names(text, TokensFrom(text, from)), decisions, exempt, ids)
    ensures RewriteTokens(text, from, decisions) == RenameFrom(text, Live(ids, exempt), from)
    decreases |decisions|
  {
    hide *;
    if decisions == [] {
      NoTokens(TokensFrom(text, from));
      NoMoreTokens(text, Live(ids, exempt), from, 0);
      RewriteDone(text, from, decisions);
    } else {
      FirstToken(text, from);
      NamesFromStep(text, from);
      NextToken(text, Live(ids, exempt), from, 0);
      var t := TokensFrom(text, from)[0];
      DecidedFirst(Cut(text, t), Names(text, TokensFrom(text, t.end)), decisions, exempt, ids);
      DecidedIsRenamed(text, t.end, decisions[1..], exempt, ids);
      RewriteStep(text, from, decisions, t);
      NewTextIsName(text, t, decisions[0], Live(ids, exempt));
    }
  }

  lemma NoTokens(tokens: seq<Span>)
    ensures |tokens| == 0 ==> tokens == []
  {}

  lemma DecidedFirst(name: string, names: seq<string>, decisions: seq<Decision>, exempt: set<string>, ids: ToolIds)
    requires DecidedBy([name] + names, decisions, exempt, ids)
    ensures DecidedBy(names, decisions[1..], exempt, ids)
    ensures if name in Live(ids, exempt) then decisions[0] == Rewritten(Live(ids, exempt)[name]) else !decisions[0].Rewritten?
  {
    var all := [name] + names;
    assert forall i | 0 <= i < |names| :: all[i + 1] == names[i] && decisions[1..][i] == decisions[i + 1];
    assert all[0] == name;
  }

  lemma NewTextIsName(text: string, t: Span, d: Decision, live: ToolIds)
    requires t.start <= t.end <= |text|
    requires if Cut(text, t) in live then d == Rewritten(live[Cut(text, t)]) else !d.Rewritten?
    ensures NewText(text, t, d) == NewName(live, Cut(text, t))
  {}

  lemma WholeDecided(lit: Literal, exempt: set<string>, ids: ToolIds)
    ensures DecidedBy(TokenNames(lit.spelled), DecisionsOf(lit, EveryToken, exempt, ids), exempt, ids)
  {
    AsManyNames(lit.spelled);
    hide TokenNames, Tokens, Align;
  }

  lemma PieceIsAdmitted(pass: Pass, text: string, ids: ToolIds)
    requires PieceOfAHint(text, ValuesOf(pass))
    ensures AdmissionOf(pass, text, ids) == Some(EveryToken)
  {
    PiecesAreParts(text, ValuesOf(pass));
    hide PartOfAHint, PieceOfAHint, Pinning;
  }

  /** The bytes that stand in a literal's place after the run. */
  ghost function PlaceOf(source: string, judged: seq<Judged>, k: nat, exempt: set<string>, ids: ToolIds): string
    requires Located(source, judged) && k < |judged|
  {
    LocatedAt(source, judged, k);
    var lit := judged[k].literal;
    RewriteRange(source, Members(AllEdits(judged, exempt, ids)), lit.start, lit.start + |lit.spelled|)
  }

  lemma AdmittedPlace(source: string, judged: seq<Judged>, k: nat, exempt: set<string>, ids: ToolIds)
    requires Located(source, judged) && k < |judged| && judged[k].admission.Some?
    ensures var lit := judged[k].literal; var decisions := DecisionsOf(lit, judged[k].admission.value, exempt, ids);
            && |TokensFrom(lit.spelled, 0)| == |decisions|
            && PlaceOf(source, judged, k, exempt, ids) == RewriteTokens(lit.spelled, 0, decisions)
  {
    hide *;
    var lit := judged[k].literal;
    LocatedAt(source, judged, k);
    OwnEdits(source, judged, k, exempt, ids);
    Admitted(judged[k], exempt, ids);
    WholeText(lit.spelled);
    PlaceIs(source, judged, k, exempt, ids);
    LiteralRewritten(source, Members(AllEdits(judged, exempt, ids)), lit, 0,
                     DecisionsOf(lit, judged[k].admission.value, exempt, ids));
  }

  lemma PlaceIs(source: string, judged: seq<Judged>, k: nat, exempt: set<string>, ids: ToolIds)
    requires Located(source, judged) && k < |judged|
    ensures var lit := judged[k].literal;
            && lit.start + |lit.spelled| <= |source|
            && PlaceOf(source, judged, k, exempt, ids)
               == RewriteRange(source, Members(AllEdits(judged, exempt, ids)), lit.start, lit.start + |lit.spelled|)
  {
    LocatedAt(source, judged, k);
  }

  /**
    A literal that is a piece of a hint has, after the run, every tool it spells renamed that the catalog resolves and no
    rule exempts, and nothing else changed; the names reported for it are the ones neither exempt nor resolved.
  */
  lemma PieceIsRenamed(source: string, literals: seq<Literal>, pass: Pass, k: nat, exempt: set<string>, ids: ToolIds)
    requires k < |literals| && PieceOfAHint(literals[k].text, ValuesOf(pass))
    requires Located(source, JudgedBy(pass, literals, ids))
    ensures var judged := JudgedBy(pass, literals, ids);
            && PlaceOf(source, judged, k, exempt, ids) == RenameTools(literals[k].spelled, Live(ids, exempt))
            && UnknownOf(judged[k], exempt, ids) == Unresolved(TokenNames(literals[k].spelled), exempt, ids)
  {
    hide *;
    var lit, judged := literals[k], JudgedBy(pass, literals, ids);
    PieceIsAdmitted(pass, lit.text, ids);
    JudgedAs(pass, literals, ids, k);
    AdmittedPlace(source, judged, k, exempt, ids);
    Admitted(judged[k], exempt, ids);
    WholeText(lit.spelled);
    WholeDecided(lit, exempt, ids);
    UnknownAreUnresolved(TokenNames(lit.spelled), DecisionsOf(lit, EveryToken, exempt, ids), exempt, ids);
    DecidedIsRenamed(lit.spelled, 0, DecisionsOf(lit, EveryToken, exempt, ids), exempt, ids);
    RenamedFromStart(lit.spelled, Live(ids, exempt));
  }

  lemma RenamedFromStart(text: string, ids: ToolIds)
    ensures RenameTools(text, ids) == RenameFrom(text, ids, 0)
  {}

  lemma JudgedAs(pass: Pass, literals: seq<Literal>, ids: ToolIds, k: nat)
    requires k < |literals|
    ensures JudgedBy(pass, literals, ids)[k] == Judged(literals[k], AdmissionOf(pass, literals[k].text, ids))
  {}

  lemma OtherIsRefused(pass: Pass, text: string, ids: ToolIds)
    requires pass.Production? && !PieceOfAHint(text, ValuesOf(pass))
    ensures AdmissionOf(pass, text, ids) == None
  {
    PiecesAreParts(text, ValuesOf(pass));
    hide PartOfAHint, PieceOfAHint;
  }

  /** Any other literal of a production file keeps every byte, and nothing is reported for it. */
  lemma OtherProductionIsKept(source: string, literals: seq<Literal>, pass: Pass, k: nat, exempt: set<string>, ids: ToolIds)
    requires k < |literals| && pass.Production? && !PieceOfAHint(literals[k].text, ValuesOf(pass))
    requires Located(source, JudgedBy(pass, literals, ids))
    ensures var judged := JudgedBy(pass, literals, ids);
            PlaceOf(source, judged, k, exempt, ids) == literals[k].spelled && UnknownOf(judged[k], exempt, ids) == []
  {
    hide *;
    OtherIsRefused(pass, literals[k].text, ids);
    JudgedAs(pass, literals, ids, k);
    PlaceIs(source, JudgedBy(pass, literals, ids), k, exempt, ids);
    OthersAreKept(source, JudgedBy(pass, literals, ids), k, exempt, ids);
    NotAdmitted(JudgedBy(pass, literals, ids)[k], exempt, ids);
  }

  /** Of a test literal that is no piece of a hint, exactly the names inside a hint it holds are up for renaming. */
  lemma PinningIsKeptOutside(source: string, literals: seq<Literal>, values: seq<string>, k: nat, exempt: set<string>,
                             ids: ToolIds, i: nat)
    requires k < |literals| && !PieceOfAHint(literals[k].text, values) && i < |Tokens(literals[k].spelled)|
    requires Located(source, JudgedBy(TestFiles(values), literals, ids))
    ensures var judged, lit := JudgedBy(TestFiles(values), literals, ids), literals[k];
            var read, renamed := RenameTools(lit.text, ids), RenamedAll(values, ids);
            && (Occurrences(read, renamed) == {} ==> PlaceOf(source, judged, k, exempt, ids) == lit.spelled)
            && (Occurrences(read, renamed) != {} ==>
                  var tool, position := TokenNames(lit.spelled)[i], Align(TokenNames(lit.spelled), TokenNames(lit.text), 0)[i];
                  && judged[k].admission.Some? && |RenamedSpans(lit.text, ids)| == |Tokens(lit.text)| > position
                  && var decisions := DecisionsOf(lit, judged[k].admission.value, exempt, ids);
                  && |TokensFrom(lit.spelled, 0)| == |decisions|
                  && PlaceOf(source, judged, k, exempt, ids) == RewriteTokens(lit.spelled, 0, decisions)
                  && decisions[i] ==
                     if position < 0 || !CoveredBySome(read, renamed, RenamedSpans(lit.text, ids)[position]) then OutsideHint
                     else if tool in exempt then Exempt
                     else if tool in ids then Rewritten(ids[tool])
                     else Unknown)
  {
    var judged, lit := JudgedBy(TestFiles(values), literals, ids), literals[k];
    PiecesAreParts(lit.text, values);
    JudgedAs(TestFiles(values), literals, ids, k);
    PinnedRewrites(lit, values, exempt, ids, i);
    PinnedDecides(lit, values, exempt, ids, i);
    hide *;
    PlaceIs(source, judged, k, exempt, ids);
    if judged[k].admission.Some? {
      AdmittedPlace(source, judged, k, exempt, ids);
    } else {
      OthersAreKept(source, judged, k, exempt, ids);
    }
  }

  lemma PinnedDecides(lit: Literal, values: seq<string>, exempt: set<string>, ids: ToolIds, i: nat)
    requires !PartOfAHint(lit.text, values) && i < |Tokens(lit.spelled)|
    ensures var admission := AdmissionOf(TestFiles(values), lit.text, ids);
            var read, renamed := RenameTools(lit.text, ids), RenamedAll(values, ids);
            admission.Some? ==>
              var tool, position := TokenNames(lit.spelled)[i], Align(TokenNames(lit.spelled), TokenNames(lit.text), 0)[i];
              && |RenamedSpans(lit.text, ids)| == |Tokens(lit.text)| > position
              && DecisionsOf(lit, admission.value, exempt, ids)[i] ==
                 if position < 0 || !CoveredBySome(read, renamed, RenamedSpans(lit.text, ids)[position]) then OutsideHint
                 else if tool in exempt then Exempt
                 else if tool in ids then Rewritten(ids[tool])
                 else Unknown
  {
    hide RenameTools, RenamedSpans, Occurrences, CoveredBySome, Covers, Tokens, TokenNames, PartOfAHint;
    var admission := AdmissionOf(TestFiles(values), lit.text, ids);
    var tools, textTools := TokenNames(lit.spelled), TokenNames(lit.text);
    AsManyNames(lit.spelled);
    AsManyNames(lit.text);
    AlignedAscend(tools, textTools, 0);
    SpansDelimit(lit.text, ids);
    if admission.Some? {
      var position := Align(tools, textTools, 0)[i];
      PinningMarks(lit.text, values, ids);
      if position >= 0 {
        PinnedMeans(lit.text, RenamedAll(values, ids), ids, admission.value.inside, position);
      }
    }
  }

  /** A stretch of the file no literal reaches into is copied. */
  lemma BetweenLiteralsIsKept(source: string, judged: seq<Judged>, i: nat, j: nat, exempt: set<string>, ids: ToolIds)
    requires Located(source, judged) && i <= j <= |source|
    requires forall k | 0 <= k < |judged| ::
               j <= judged[k].literal.start || judged[k].literal.start + |judged[k].literal.spelled| <= i
    ensures RewriteRange(source, Members(AllEdits(judged, exempt, ids)), i, j) == source[i..j]
  {
    hide RewriteRange, EditsOf;
    AllEditsDisjoint(source, judged, exempt, ids);
    forall e | e in AllEdits(judged, exempt, ids) ensures !(i <= e.start < j) {
      var a :| a in judged && e in EditsOf(a, exempt, ids);
      var k :| 0 <= k < |judged| && judged[k] == a;
      EditsOfInside(a, exempt, ids);
    }
    CopiedToTheEnd(source, Members(AllEdits(judged, exempt, ids)), i, j);
  }
}
