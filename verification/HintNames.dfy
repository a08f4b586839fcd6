/**
  What a rewritten literal still spells: the tool names the fixer decided to leave, in order, and no other, as long as
  no action ID spells a tool name itself.
*/
module HintNames {
  import opened ToolTokens
  import opened PinnedHints
  import opened HintSplice

  /** What stands in a token's place after the run. */
  function NewText(spelled: string, t: Span, d: Decision): string
    requires t.start <= t.end <= |spelled|
  {
    if d.Rewritten? then d.id else Cut(spelled, t)
  }

  /** The spelling from `from` on, each remaining token replaced or kept as decided. */
  function RewriteTokens(spelled: string, from: nat, decisions: seq<Decision>): string
    requires from <= |spelled| && |TokensFrom(spelled, from)| == |decisions|
    decreases |decisions|
  {
    if decisions == [] then spelled[from..]
    else
      FirstToken(spelled, from);
      var t := TokensFrom(spelled, from)[0];
      spelled[from..t.start] + (NewText(spelled, t, decisions[0]) + RewriteTokens(spelled, t.end, decisions[1..]))
  }

  lemma FirstToken(spelled: string, from: nat)
    requires from <= |spelled| && TokensFrom(spelled, from) != []
    ensures var t := TokensFrom(spelled, from)[0];
            && from <= t.start < t.end <= |spelled|
            && TokensFrom(spelled, t.end) == TokensFrom(spelled, from)[1..]
  {
    NextToken(spelled, map[], from, 0);
  }

  /** The names decided to be left as they are. */
  function KeptNames(names: seq<string>, decisions: seq<Decision>): seq<string>
    requires |names| == |decisions|
  {
    if names == [] then []
    else (if decisions[0].Rewritten? then [] else [names[0]]) + KeptNames(names[1..], decisions[1..])
  }

  /** No action ID a name is rewritten to spells a tool name. */
  ghost predicate IdsSpellNoTool(decisions: seq<Decision>) {
    forall d | d in decisions && d.Rewritten? :: TokenNames(d.id) == []
  }

  /** A place a token may have ended at: the start of the text, or behind a word and before none. */
  predicate Edge(text: string, from: nat) {
    from <= |text| && (from == 0 || from == |text| || !WordChar(text[from]))
  }

  /** No token starts between `from` and the first one found from there. */
  lemma NoneBefore(text: string, from: nat, to: nat)
    requires from <= to <= |text|
    requires TokensFrom(text, from) == [] || to <= TokensFrom(text, from)[0].start
    ensures forall s: nat, e: nat | from <= s < to :: !TokenAt(text, s, e)
  {
    TokensFromExact(text, from);
    TokensWithin(text, from);
    hide TokenAt, TokensFrom;
    forall s: nat, e: nat | from <= s < to ensures !TokenAt(text, s, e) {
      var tokens := TokensFrom(text, from);
      if Span(s, e) in tokens {
        var i :| 0 <= i < |tokens| && tokens[i] == Span(s, e);
        assert tokens[0] in tokens;
        FoundPast(tokens, i, to);
      }
    }
  }

  lemma FoundPast(tokens: seq<Span>, i: nat, to: nat)
    requires i < |tokens| && Ascending(tokens) && to <= tokens[0].start && tokens[0].start < tokens[0].end
    ensures to <= tokens[i].start
  {}

  /** A stretch between two edges that no token starts in spells none. */
  lemma GapSpellsNone(text: string, from: nat, to: nat)
    requires from <= to <= |text| && Edge(text, from)
    requires to == |text| || from == to || !WordChar(text[to - 1])
    requires forall s: nat, e: nat | from <= s < to :: !TokenAt(text, s, e)
    ensures TokenNames(text[from..to]) == []
  {
    var gap := text[from..to];
    TokensExact(gap);
    SomeMember(Tokens(gap));
    forall t ensures t !in Tokens(gap) {
      if TokenAt(gap, t.start, t.end) {
        GapToken(text, from, to, t.start, t.end);
      }
      assert t == Span(t.start, t.end);
    }
  }

  lemma GapToken(text: string, from: nat, to: nat, s: nat, e: nat)
    requires from <= to <= |text| && Edge(text, from)
    requires to == |text| || from == to || !WordChar(text[to - 1])
    requires TokenAt(text[from..to], s, e)
    ensures from + s < to && TokenAt(text, from + s, from + e)
  {
    var gap := text[from..to];
    TokenInside(gap, s, e);
    TokenIsWord(gap, s, e);
    assert forall i | 0 <= i < |gap| :: gap[i] == text[from + i];
    forall i | from + s + 7 <= i < from + e ensures NameChar(text[i]) {
      assert NameChar(gap[i - from]);
    }
    assert WordChar(gap[s]) && WordChar(gap[e - 1]);
    assert PrefixAt(text, from + s);
  }

  /** A tool name on its own spells itself. */
  lemma NameSpellsItself(text: string, t: Span)
    requires TokenAt(text, t.start, t.end)
    ensures TokenNames(text[t.start..t.end]) == [text[t.start..t.end]]
  {
    var name := text[t.start..t.end];
    assert forall i | 0 <= i < |name| :: name[i] == text[t.start + i];
    forall i | 7 <= i < |name| ensures NameChar(name[i]) {
      assert NameChar(text[t.start + i]);
    }
    assert TokenAt(name, 0, |name|);
    MatchIsToken(name, 0, |name|);
    assert TokensFrom(name, |name|) == [];
    assert TokensFrom(name, 0) == [Span(0, |name|)] + TokensFrom(name, |name|);
    assert name[0..|name|] == name;
  }

  /** What follows a token starts with no word character, rewritten or not. */
  lemma {:induction false} RewriteStarts(spelled: string, from: nat, decisions: seq<Decision>)
    requires from <= |spelled| && |TokensFrom(spelled, from)| == |decisions|
    requires from > 0 && Edge(spelled, from)
    ensures var rest := RewriteTokens(spelled, from, decisions); rest == "" || !WordChar(rest[0])
  {
    if decisions == [] {
    } else {
      FirstToken(spelled, from);
      TokensFromExact(spelled, from);
      var t := TokensFrom(spelled, from)[0];
      assert t in TokensFrom(spelled, from);
      TokenIsWord(spelled, t.start, t.end);
      assert WordChar(spelled[t.start]);
    }
  }

  lemma NamesFromStep(spelled: string, from: nat)
    requires from <= |spelled| && TokensFrom(spelled, from) != []
    ensures Within(spelled, TokensFrom(spelled, from)) && TokensFrom(spelled, from)[0].start < TokensFrom(spelled, from)[0].end <= |spelled|
    ensures Within(spelled, TokensFrom(spelled, TokensFrom(spelled, from)[0].end))
    ensures var t := TokensFrom(spelled, from)[0];
            Names(spelled, TokensFrom(spelled, from)) == [Cut(spelled, t)] + Names(spelled, TokensFrom(spelled, t.end))
  {
    FirstToken(spelled, from);
    TokensWithin(spelled, from);
    TokensWithin(spelled, TokensFrom(spelled, from)[0].end);
  }

  /** The gap before the first token spells nothing; the token stands between edges. */
  lemma FirstStep(spelled: string, from: nat)
    requires from <= |spelled| && Edge(spelled, from) && TokensFrom(spelled, from) != []
    ensures var t := TokensFrom(spelled, from)[0];
            && from <= t.start < t.end <= |spelled| && TokenAt(spelled, t.start, t.end)
            && Edge(spelled, t.end) && (t.start == 0 || !WordChar(spelled[t.start - 1]))
            && TokenNames(spelled[from..t.start]) == []
  {
    var t := TokensFrom(spelled, from)[0];
    FirstToken(spelled, from);
    TokensFromExact(spelled, from);
    assert t in TokensFrom(spelled, from);
    NoneBefore(spelled, from, t.start);
    hide TokenAt, TokensFrom, Edge;
    GapSpellsNone(spelled, from, t.start);
  }

  lemma LastStep(spelled: string, from: nat)
    requires from <= |spelled| && Edge(spelled, from) && TokensFrom(spelled, from) == []
    ensures Within(spelled, TokensFrom(spelled, from))
    ensures TokenNames(RewriteTokens(spelled, from, [])) == KeptNames(Names(spelled, TokensFrom(spelled, from)), []) == []
  {
    NoneBefore(spelled, from, |spelled|);
    GapSpellsNone(spelled, from, |spelled|);
    assert spelled[from..|spelled|] == spelled[from..];
  }

  lemma {:induction false} RewriteSpells(spelled: string, from: nat, decisions: seq<Decision>)
    requires from <= |spelled| && Edge(spelled, from) && |TokensFrom(spelled, from)| == |decisions|
    requires IdsSpellNoTool(decisions)
    ensures Within(spelled, TokensFrom(spelled, from))
    ensures TokenNames(RewriteTokens(spelled, from, decisions))
         == KeptNames(Names(spelled, TokensFrom(spelled, from)), decisions)
    decreases |decisions|
  {
    hide *;
    TokensWithin(spelled, from);
    if decisions == [] {
      LastStep(spelled, from);
    } else {
      FirstToken(spelled, from);
      NamesFromStep(spelled, from);
      FirstStep(spelled, from);
      var t := TokensFrom(spelled, from)[0];
      var gap, piece := spelled[from..t.start], NewText(spelled, t, decisions[0]);
      var rest := RewriteTokens(spelled, t.end, decisions[1..]);
      PieceSpells(spelled, t, decisions);
      RewriteStarts(spelled, t.end, decisions[1..]);
      RewriteSpells(spelled, t.end, decisions[1..]);
      ApartAfter(gap, piece + rest);
      ApartBefore(piece, rest);
      JoinedNames(gap, piece + rest);
      JoinedNames(piece, rest);
      RewriteStep(spelled, from, decisions, t);
      KeptStep(Cut(spelled, t), Names(spelled, TokensFrom(spelled, t.end)), decisions);
      assert [] + TokenNames(piece + rest) == TokenNames(piece + rest);
    }
  }

  lemma PieceSpells(spelled: string, t: Span, decisions: seq<Decision>)
    requires TokenAt(spelled, t.start, t.end) && decisions != [] && IdsSpellNoTool(decisions)
    ensures t.start <= t.end <= |spelled|
    ensures TokenNames(NewText(spelled, t, decisions[0])) == if decisions[0].Rewritten? then [] else [Cut(spelled, t)]
    ensures IdsSpellNoTool(decisions[1..])
  {
    TokenInside(spelled, t.start, t.end);
    NameSpellsItself(spelled, t);
    assert decisions[0] in decisions;
  }

  lemma ApartAfter(a: string, b: string)
    requires a == "" || !WordChar(a[|a| - 1])
    ensures Apart(a, b)
  {}

  lemma ApartBefore(a: string, b: string)
    requires b == "" || !WordChar(b[0])
    ensures Apart(a, b)
  {}

  lemma RewriteStep(spelled: string, from: nat, decisions: seq<Decision>, t: Span)
    requires from <= |spelled| && |TokensFrom(spelled, from)| == |decisions| > 0 && t == TokensFrom(spelled, from)[0]
    requires from <= t.start < t.end <= |spelled| && |TokensFrom(spelled, t.end)| == |decisions| - 1
    ensures RewriteTokens(spelled, from, decisions)
         == spelled[from..t.start] + (NewText(spelled, t, decisions[0]) + RewriteTokens(spelled, t.end, decisions[1..]))
  {}

  lemma KeptStep(name: string, names: seq<string>, decisions: seq<Decision>)
    requires |decisions| == |names| + 1
    ensures KeptNames([name] + names, decisions)
         == (if decisions[0].Rewritten? then [] else [name]) + KeptNames(names, decisions[1..])
  {}

  // ---------------------------------------------------------------- in the file

  /** The edits that start between lo and hi are these. */
  ghost predicate EditsBetween(edits: set<Replacement>, lo: nat, hi: nat, these: seq<Replacement>) {
    forall e :: e in edits && lo <= e.start < hi <==> e in these
  }

  /** The stretch of a literal is rewritten token by token as decided. */
  lemma {:induction false} LiteralRewritten(source: string, edits: set<Replacement>, lit: Literal, from: nat, decisions: seq<Decision>)
    requires lit.start + |lit.spelled| <= |source| && source[lit.start..lit.start + |lit.spelled|] == lit.spelled
    requires from <= |lit.spelled| && |TokensFrom(lit.spelled, from)| == |decisions|
    requires EditsBetween(edits, lit.start + from, lit.start + |lit.spelled|,
                          EditsFor(lit.start, TokensFrom(lit.spelled, from), decisions))
    ensures RewriteRange(source, edits, lit.start + from, lit.start + |lit.spelled|)
         == RewriteTokens(lit.spelled, from, decisions)
    decreases |decisions|
  {
    hide *;
    var end := lit.start + |lit.spelled|;
    if decisions == [] {
      NoEditsLeft(edits, lit, from, decisions);
      RewriteDone(lit.spelled, from, decisions);
      CopiedToTheEnd(source, edits, lit.start + from, end);
      SourceIsSpelled(source, lit, from, |lit.spelled|);
      assert lit.spelled[from..|lit.spelled|] == lit.spelled[from..];
    } else {
      FirstToken(lit.spelled, from);
      var t, d := TokensFrom(lit.spelled, from)[0], decisions[0];
      EditsPast(edits, lit, from, decisions, t);
      LiteralRewritten(source, edits, lit, t.end, decisions[1..]);
      SourceIsSpelled(source, lit, from, t.start);
      SourceIsSpelled(source, lit, t.start, t.end);
      RewriteStep(lit.spelled, from, decisions, t);
      NewTextIs(lit.spelled, t, d);
      Copied(source, edits, lit.start + from, lit.start + t.start, end);
      if d.Rewritten? {
        Replaced(source, edits, Replacement(lit.start + t.start, lit.start + t.end, d.id), end);
      } else {
        Copied(source, edits, lit.start + t.start, lit.start + t.end, end);
      }
    }
  }

  lemma NewTextIs(spelled: string, t: Span, d: Decision)
    requires t.start <= t.end <= |spelled|
    ensures NewText(spelled, t, d) == if d.Rewritten? then d.id else spelled[t.start..t.end]
  {}

  lemma RewriteDone(spelled: string, from: nat, decisions: seq<Decision>)
    requires from <= |spelled| && |TokensFrom(spelled, from)| == |decisions| == 0
    ensures RewriteTokens(spelled, from, decisions) == spelled[from..]
  {}

  lemma NoEditsLeft(edits: set<Replacement>, lit: Literal, from: nat, decisions: seq<Decision>)
    requires |TokensFrom(lit.spelled, from)| == |decisions| == 0
    requires EditsBetween(edits, lit.start + from, lit.start + |lit.spelled|,
                          EditsFor(lit.start, TokensFrom(lit.spelled, from), decisions))
    ensures forall e | e in edits :: !(lit.start + from <= e.start < lit.start + |lit.spelled|)
  {
    hide TokensFrom;
  }

  lemma SourceIsSpelled(source: string, lit: Literal, i: nat, j: nat)
    requires lit.start + |lit.spelled| <= |source| && source[lit.start..lit.start + |lit.spelled|] == lit.spelled
    requires i <= j <= |lit.spelled|
    ensures source[lit.start + i..lit.start + j] == lit.spelled[i..j]
  {
    forall k | i <= k < j ensures source[lit.start + k] == lit.spelled[k] {
      assert source[lit.start..lit.start + |lit.spelled|][k] == lit.spelled[k];
    }
  }

  /** Behind the first token the literal's edits are those of its other tokens; on it there is its own, or none. */
  lemma EditsPast(edits: set<Replacement>, lit: Literal, from: nat, decisions: seq<Decision>, t: Span)
    requires from <= |lit.spelled| && |TokensFrom(lit.spelled, from)| == |decisions| > 0 && t == TokensFrom(lit.spelled, from)[0]
    requires from <= t.start < t.end <= |lit.spelled| && TokensFrom(lit.spelled, t.end) == TokensFrom(lit.spelled, from)[1..]
    requires EditsBetween(edits, lit.start + from, lit.start + |lit.spelled|,
                          EditsFor(lit.start, TokensFrom(lit.spelled, from), decisions))
    ensures EditsBetween(edits, lit.start + t.end, lit.start + |lit.spelled|,
                         EditsFor(lit.start, TokensFrom(lit.spelled, t.end), decisions[1..]))
    ensures forall e | e in edits :: !(lit.start + from <= e.start < lit.start + t.start)
    ensures var own := Replacement(lit.start + t.start, lit.start + t.end, if decisions[0].Rewritten? then decisions[0].id else "");
            && (decisions[0].Rewritten? ==> own in edits)
            && forall e | e in edits && lit.start + t.start <= e.start < lit.start + t.end :: decisions[0].Rewritten? && e == own
  {
    hide TokensFrom, FromToken;
    var rest := EditsFor(lit.start, TokensFrom(lit.spelled, t.end), decisions[1..]);
    EditsForTokens(lit.start, TokensFrom(lit.spelled, t.end), decisions[1..]);
    TokensWithin(lit.spelled, t.end);
    forall e | e in rest ensures lit.start + t.end <= e.start {
      var u :| u in TokensFrom(lit.spelled, t.end) && FromToken(e, lit.start, u);
      FromTokenStarts(e, lit.start, u);
    }
  }

  lemma FromTokenStarts(e: Replacement, start: nat, t: Span)
    requires FromToken(e, start, t)
    ensures e.start == start + t.start
  {}

  /** Within the stretch of one literal, the edits of the whole file are the literal's own. */
  lemma OwnEdits(source: string, literals: seq<Judged>, k: nat, exempt: set<string>, ids: ToolIds)
    requires Located(source, literals) && k < |literals|
    ensures var lit := literals[k].literal;
            EditsBetween(Members(AllEdits(literals, exempt, ids)), lit.start, lit.start + |lit.spelled|,
                         EditsOf(literals[k], exempt, ids))
  {
    var lit, all := literals[k].literal, AllEdits(literals, exempt, ids);
    AllEditsDisjoint(source, literals, exempt, ids);
    AllEditsHold(literals, k, exempt, ids);
    EditsOfInside(literals[k], exempt, ids);
    forall e | e in all && lit.start <= e.start < lit.start + |lit.spelled| ensures e in EditsOf(literals[k], exempt, ids) {
      hide *;
      var j :| j in literals && e in EditsOf(j, exempt, ids);
      var i :| 0 <= i < |literals| && literals[i] == j;
      EditsOfInside(j, exempt, ids);
      if i != k {
        OtherPlace(source, literals, i, k, e);
      }
    }
    hide AllEdits, EditsOf, Disjoint, Located;
  }

  lemma OtherPlace(source: string, literals: seq<Judged>, i: nat, k: nat, e: Replacement)
    requires Located(source, literals) && i < |literals| && k < |literals| && i != k
    requires literals[i].literal.start <= e.start < e.end <= literals[i].literal.start + |literals[i].literal.spelled|
    ensures !(literals[k].literal.start <= e.start < literals[k].literal.start + |literals[k].literal.spelled|)
  {
    var (a, b) := if i < k then (i, k) else (k, i);
    assert LiteralsApart(literals[a].literal, literals[b].literal);
  }

  lemma {:induction false} AllEditsHold(literals: seq<Judged>, k: nat, exempt: set<string>, ids: ToolIds)
    requires k < |literals|
    ensures forall e | e in EditsOf(literals[k], exempt, ids) :: e in AllEdits(literals, exempt, ids)
    decreases |literals|
  {
    hide EditsOf;
    if k >= |literals| - 1 {
    } else {
      AllEditsHold(literals[..|literals| - 1], k, exempt, ids);
    }
  }

  /**
    In the rewritten file, the place of an admitted literal spells exactly the tool names the fixer left: those outside
    the hint, the exempt ones and the ones the catalog does not resolve, in their order.
  */
  lemma OnlyKeptNamesRemain(source: string, literals: seq<Judged>, k: nat, exempt: set<string>, ids: ToolIds)
    requires Located(source, literals) && k < |literals| && literals[k].admission.Some?
    requires forall tool | tool in ids :: TokenNames(ids[tool]) == []
    ensures var lit := literals[k].literal; var decisions := DecisionsOf(lit, literals[k].admission.value, exempt, ids);
            && lit.start + |lit.spelled| <= |source|
            && TokenNames(RewriteRange(source, Members(AllEdits(literals, exempt, ids)), lit.start, lit.start + |lit.spelled|))
               == KeptNames(TokenNames(lit.spelled), decisions)
  {
    hide *;
    var lit, admission := literals[k].literal, literals[k].admission.value;
    var decisions := DecisionsOf(lit, admission, exempt, ids);
    LocatedAt(source, literals, k);
    DecidedIds(lit, admission, exempt, ids);
    OwnEdits(source, literals, k, exempt, ids);
    Admitted(literals[k], exempt, ids);
    WholeText(lit.spelled);
    LiteralRewritten(source, Members(AllEdits(literals, exempt, ids)), lit, 0, decisions);
    RewriteSpells(lit.spelled, 0, decisions);
  }

  lemma LocatedAt(source: string, literals: seq<Judged>, k: nat)
    requires Located(source, literals) && k < |literals|
    ensures var lit := literals[k].literal;
            lit.start + |lit.spelled| <= |source| && source[lit.start..lit.start + |lit.spelled|] == lit.spelled
  {
    assert literals[k] in literals;
  }

  lemma DecidedIds(lit: Literal, admission: Admission, exempt: set<string>, ids: ToolIds)
    requires forall tool | tool in ids :: TokenNames(ids[tool]) == []
    ensures IdsSpellNoTool(DecisionsOf(lit, admission, exempt, ids))
  {
    hide TokenNames, Tokens, Align, InHint;
  }

  lemma WholeText(text: string)
    ensures Tokens(text) == TokensFrom(text, 0) && Edge(text, 0) && Within(text, Tokens(text))
    ensures TokenNames(text) == Names(text, Tokens(text))
  {
    AllInside(text);
  }

  /** A literal that is not admitted keeps every byte. */
  lemma OthersAreKept(source: string, literals: seq<Judged>, k: nat, exempt: set<string>, ids: ToolIds)
    requires Located(source, literals) && k < |literals| && literals[k].admission.None?
    ensures var lit := literals[k].literal;
            && lit.start + |lit.spelled| <= |source|
            && RewriteRange(source, Members(AllEdits(literals, exempt, ids)), lit.start, lit.start + |lit.spelled|) == lit.spelled
  {
    hide *;
    var lit := literals[k].literal;
    LocatedAt(source, literals, k);
    OwnEdits(source, literals, k, exempt, ids);
    NotAdmitted(literals[k], exempt, ids);
    NoneBetween(Members(AllEdits(literals, exempt, ids)), lit.start, lit.start + |lit.spelled|);
    CopiedToTheEnd(source, Members(AllEdits(literals, exempt, ids)), lit.start, lit.start + |lit.spelled|);
  }

  lemma NoneBetween(edits: set<Replacement>, lo: nat, hi: nat)
    requires EditsBetween(edits, lo, hi, [])
    ensures forall e | e in edits :: !(lo <= e.start < hi)
  {}
}
