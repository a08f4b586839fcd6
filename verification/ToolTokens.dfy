/**
  The tool names of a text: the matches of \bgitlab_[a-z0-9_]+\b, leftmost first and without overlap.

  A text is a string of bytes; a byte outside ASCII is no word character, which is what \b takes it for.
*/
module ToolTokens {
  import opened Outcomes

  /** The half-open stretch of a text from start to end. */
  datatype Span = Span(start: nat, end: nat)

  predicate WordChar(c: char) {
    'a' <= c <= 'z' || 'A' <= c <= 'Z' || '0' <= c <= '9' || c == '_'
  }

  predicate NameChar(c: char) {
    'a' <= c <= 'z' || '0' <= c <= '9' || c == '_'
  }

  predicate PrefixAt(text: string, i: nat) {
    && i + 7 <= |text|
    && text[i] == 'g' && text[i + 1] == 'i' && text[i + 2] == 't' && text[i + 3] == 'l' && text[i + 4] == 'a'
    && text[i + 5] == 'b' && text[i + 6] == '_'
  }

  /** Name characters are the lower-case letters, the digits and the underscore; word characters capitals as well. */
  lemma CharactersAre(c: char)
    ensures var n := c as int;
            && (NameChar(c) <==> 97 <= n < 97 + 26 || 48 <= n < 48 + 10 || n == 95)
            && (WordChar(c) <==> NameChar(c) || 65 <= n < 65 + 26)
  {}

  /** The text from s to e is a tool name standing between word boundaries. */
  predicate TokenAt(text: string, s: nat, e: nat) {
    && s + 8 <= e <= |text|
    && PrefixAt(text, s)
    && (forall i | s + 7 <= i < e :: NameChar(text[i]))
    && (s == 0 || !WordChar(text[s - 1]))
    && (e == |text| || !WordChar(text[e]))
  }

  lemma PrefixIsSpelled(before: string, name: string, after: string)
    requires |name| >= 7
    ensures PrefixAt(before + name + after, |before|) <==> "gitlab_" <= name
  {
    var text, s := before + name + after, |before|;
    assert forall i | 0 <= i < |name| :: name[i] == text[s + i];
  }

  /** A token is a stretch that starts with "gitlab_", goes on in name characters, and has no word character beside it. */
  lemma TokenIsSpelled(before: string, name: string, after: string)
    ensures TokenAt(before + name + after, |before|, |before| + |name|)
      <==> && "gitlab_" <= name && |name| > 7 && (forall c | c in name[7..] :: NameChar(c))
           && (before == "" || !WordChar(before[|before| - 1])) && (after == "" || !WordChar(after[0]))
  {
    hide NameChar, WordChar, PrefixAt;
    if |name| > 7 {
      PrefixIsSpelled(before, name, after);
      var text, s := before + name + after, |before|;
      assert name[7..] == text[s + 7..s + |name|];
      assert forall i | s + 7 <= i < s + |name| :: text[i] == name[7..][i - s - 7];
    }
  }

  /** Where the run of name characters from i on ends. */
  function RunEnd(text: string, i: nat): (e: nat)
    requires i <= |text|
    ensures i <= e <= |text|
    ensures forall j | i <= j < e :: NameChar(text[j])
    ensures e == |text| || !NameChar(text[e])
    decreases |text| - i
  {
    if i < |text| && NameChar(text[i]) then RunEnd(text, i + 1) else i
  }

  /** The end of the match that starts at s, if one does; the run is taken greedily. */
  function MatchAt(text: string, s: nat): (e: Option<nat>)
    ensures e.Some? ==> s < e.value <= |text|
  {
    if !PrefixAt(text, s) || (s > 0 && WordChar(text[s - 1])) then None
    else
      var e := RunEnd(text, s + 7);
      if e > s + 7 && (e == |text| || !WordChar(text[e])) then Some(e) else None
  }

  /** The matches from `from` on, as the expression engine finds them one after the other. */
  function TokensFrom(text: string, from: nat): seq<Span>
    decreases |text| - from
  {
    if from >= |text| then []
    else
      match MatchAt(text, from)
      case Some(e) => [Span(from, e)] + TokensFrom(text, e)
      case None => TokensFrom(text, from + 1)
  }

  function Tokens(text: string): seq<Span> {
    TokensFrom(text, 0)
  }

  /** The greedy run ends where the token does. */
  lemma {:induction false} RunEndIs(text: string, i: nat, e: nat)
    requires i <= e <= |text| && (e == |text| || !NameChar(text[e]))
    requires forall j | i <= j < e :: NameChar(text[j])
    ensures RunEnd(text, i) == e
    decreases e - i
  {
    if i >= e {
    } else {
      RunEndIs(text, i + 1, e);
    }
  }

  /** The greedy run is the only one that can end at a boundary, so the match is the declared one. */
  lemma MatchIsToken(text: string, s: nat, e: nat)
    ensures MatchAt(text, s) == Some(e) <==> TokenAt(text, s, e)
  {
    if TokenAt(text, s, e) {
      RunEndIs(text, s + 7, e);
    }
  }

  /** Every character of a token is a word character. */
  lemma TokenIsWord(text: string, s: nat, e: nat)
    requires TokenAt(text, s, e)
    ensures forall k | s <= k < e :: WordChar(text[k])
  {
    forall k | s <= k < e ensures WordChar(text[k]) {
      assert k < s + 7 || NameChar(text[k]);
    }
  }

  /** Tokens ascend and never touch. */
  ghost predicate Ascending(spans: seq<Span>) {
    forall i, j | 0 <= i < j < |spans| :: spans[i].end <= spans[j].start
  }

  /** The search finds every token from `from` on and nothing else, in ascending order. */
  lemma {:induction false} TokensFromExact(text: string, from: nat)
    ensures forall t | t in TokensFrom(text, from) :: from <= t.start && TokenAt(text, t.start, t.end)
    ensures forall s: nat, e: nat | TokenAt(text, s, e) && from <= s :: Span(s, e) in TokensFrom(text, from)
    ensures Ascending(TokensFrom(text, from))
    decreases |text| - from
  {
    hide TokenAt;
    if from < |text| {
      forall s: nat, e: nat | TokenAt(text, s, e) && from <= s
        ensures if s == from then MatchAt(text, from) == Some(e)
                else MatchAt(text, from).Some? ==> MatchAt(text, from).value <= s
      {
        MatchIsToken(text, s, e);
        if s > from && MatchAt(text, from).Some? {
          TokensApart(text, from, MatchAt(text, from).value, s, e);
        }
      }
      match MatchAt(text, from)
      case Some(e) =>
        MatchIsToken(text, from, e);
        TokensFromExact(text, e);
      case None =>
        TokensFromExact(text, from + 1);
    } else {
      forall s: nat, e: nat | TokenAt(text, s, e) ensures s < |text| {
        TokenInside(text, s, e);
      }
    }
  }

  lemma TokenInside(text: string, s: nat, e: nat)
    requires TokenAt(text, s, e)
    ensures s + 8 <= e <= |text|
  {}

  /** A match cannot start inside another: the character before it is a word character. */
  lemma TokensApart(text: string, s: nat, e: nat, s': nat, e': nat)
    requires MatchAt(text, s) == Some(e) && TokenAt(text, s', e') && s < s'
    ensures e <= s'
  {
    MatchIsToken(text, s, e);
    TokenIsWord(text, s, e);
    assert !WordChar(text[s' - 1]);
  }

  /** The tokens of a text are exactly the declared ones, in ascending order. */
  lemma TokensExact(text: string)
    ensures forall s: nat, e: nat :: Span(s, e) in Tokens(text) <==> TokenAt(text, s, e)
    ensures Ascending(Tokens(text))
  {
    TokensFromExact(text, 0);
  }

  // ---------------------------------------------------------------- names

  function Cut(text: string, t: Span): string
    requires t.start <= t.end <= |text|
  {
    text[t.start..t.end]
  }

  /** Every span lies in the text. */
  predicate Within(text: string, spans: seq<Span>) {
    forall t | t in spans :: t.start < t.end <= |text|
  }

  function Names(text: string, spans: seq<Span>): (names: seq<string>)
    requires Within(text, spans)
    ensures |names| == |spans|
  {
    seq(|spans|, i requires 0 <= i < |spans| => Cut(text, spans[i]))
  }

  lemma {:induction false} TokensWithin(text: string, from: nat)
    ensures Within(text, TokensFrom(text, from))
    ensures forall t | t in TokensFrom(text, from) :: from <= t.start
    decreases |text| - from
  {
    if from >= |text| {
    } else {
      match MatchAt(text, from)
      case Some(e) => TokensWithin(text, e);
      case None => TokensWithin(text, from + 1);
    }
  }

  /** The tool names of a text, in order. */
  function TokenNames(text: string): seq<string> {
    TokensWithin(text, 0);
    Names(text, Tokens(text))
  }

  // ---------------------------------------------------------------- joining texts

  lemma SomeMember(spans: seq<Span>)
    ensures spans == [] || exists t :: t in spans
  {
    if spans != [] {
      assert spans[0] in spans;
    }
  }

  lemma {:induction false} AscendingSame(xs: seq<Span>, ys: seq<Span>)
    requires Ascending(xs) && Ascending(ys)
    requires forall t | t in xs || t in ys :: t.start < t.end
    requires forall t :: t in xs <==> t in ys
    ensures xs == ys
    decreases |xs|
  {
    if xs == [] {
      SomeMember(ys);
    } else {
      assert xs[0] in xs;
      assert ys[0] in ys;
      var i :| 0 <= i < |ys| && ys[i] == xs[0];
      var j :| 0 <= j < |xs| && xs[j] == ys[0];
      assert i == 0;
      forall t ensures t in xs[1..] <==> t in ys[1..] {
        assert t in xs[1..] ==> t in xs && t != xs[0];
        assert t in ys[1..] ==> t in ys && t != ys[0];
        assert t in xs && t != xs[0] ==> t in xs[1..];
        assert t in ys && t != ys[0] ==> t in ys[1..];
      }
      AscendingSame(xs[1..], ys[1..]);
    }
  }

  function Shift(spans: seq<Span>, offset: nat): (shifted: seq<Span>)
    ensures |shifted| == |spans|
    ensures forall i | 0 <= i < |spans| :: shifted[i] == Span(spans[i].start + offset, spans[i].end + offset)
  {
    seq(|spans|, i requires 0 <= i < |spans| => Span(spans[i].start + offset, spans[i].end + offset))
  }

  /** No word runs across the joint of two texts. */
  predicate Apart(a: string, b: string) {
    a == "" || b == "" || !WordChar(a[|a| - 1]) || !WordChar(b[0])
  }

  lemma NoWordAcross(a: string, b: string)
    requires Apart(a, b) && b != ""
    ensures a == "" || !WordChar((a + b)[|a| - 1]) || !WordChar((a + b)[|a|])
  {}

  lemma JoinedToken(a: string, b: string, s: nat, e: nat)
    requires Apart(a, b)
    ensures TokenAt(a + b, s, e) <==> (TokenAt(a, s, e) || (s >= |a| && e >= |a| && TokenAt(b, s - |a|, e - |a|)))
  {
    hide TokenAt;
    var ab := a + b;
    if TokenAt(ab, s, e) {
      TokenInside(ab, s, e);
      TokenIsWord(ab, s, e);
      if e <= |a| {
        assert ab[e - 1] == a[e - 1];
        TokenOfFirst(a, b, s, e);
      } else {
        NoWordAcross(a, b);
        assert ab[s] == b[s - |a|];
        TokenOfSecond(a, b, s, e);
      }
    }
    if TokenAt(a, s, e) {
      TokenInside(a, s, e);
      TokenIsWord(a, s, e);
      TokenOfFirst(a, b, s, e);
    }
    if s >= |a| && e >= |a| && TokenAt(b, s - |a|, e - |a|) {
      TokenInside(b, s - |a|, e - |a|);
      TokenIsWord(b, s - |a|, e - |a|);
      TokenOfSecond(a, b, s, e);
    }
  }

  lemma TokenOfFirst(a: string, b: string, s: nat, e: nat)
    requires Apart(a, b) && s < e <= |a| && WordChar(a[e - 1])
    ensures TokenAt(a + b, s, e) <==> TokenAt(a, s, e)
  {
    assert forall i | 0 <= i < |a| :: (a + b)[i] == a[i];
    if e == |a| && b != "" {
      assert (a + b)[e] == b[0];
    }
  }

  lemma TokenOfSecond(a: string, b: string, s: nat, e: nat)
    requires Apart(a, b) && |a| <= s < e <= |a| + |b| && WordChar(b[s - |a|])
    ensures TokenAt(a + b, s, e) <==> TokenAt(b, s - |a|, e - |a|)
  {
    var ab, s', e' := a + b, s - |a|, e - |a|;
    assert forall i | |a| <= i < |ab| :: ab[i] == b[i - |a|];
    if TokenAt(ab, s, e) {
      forall i | s' + 7 <= i < e' ensures NameChar(b[i]) {
        assert NameChar(ab[i + |a|]);
      }
    }
    if s == |a| && a != "" {
      assert !WordChar(ab[s - 1]);
    }
    if TokenAt(b, s', e') {
      forall i | s + 7 <= i < e ensures NameChar(ab[i]) {
        assert NameChar(b[i - |a|]);
      }
    }
  }

  lemma ShiftedMember(spans: seq<Span>, offset: nat, t: Span)
    ensures t in Shift(spans, offset) <==>
              t.start >= offset && t.end >= offset && Span(t.start - offset, t.end - offset) in spans
  {
    if t in Shift(spans, offset) {
      var i :| 0 <= i < |spans| && t == Shift(spans, offset)[i];
      assert spans[i] == Span(t.start - offset, t.end - offset);
    }
    if t.start >= offset && t.end >= offset && Span(t.start - offset, t.end - offset) in spans {
      var i :| 0 <= i < |spans| && spans[i] == Span(t.start - offset, t.end - offset);
      assert Shift(spans, offset)[i] == t;
    }
  }

  /** Joined where no word crosses, two texts spell their tokens one after the other. */
  lemma JoinedTokens(a: string, b: string)
    requires Apart(a, b)
    ensures Tokens(a + b) == Tokens(a) + Shift(Tokens(b), |a|)
  {
    hide TokenAt, Tokens, Ascending, Shift;
    TokensExact(a);
    TokensExact(b);
    TokensExact(a + b);
    var joined := Tokens(a) + Shift(Tokens(b), |a|);
    forall t ensures t in Tokens(a + b) <==> t in joined {
      JoinedToken(a, b, t.start, t.end);
      ShiftedMember(Tokens(b), |a|, t);
      assert t == Span(t.start, t.end);
    }
    AllInside(a + b);
    JoinedAscending(a, b);
    AscendingSame(Tokens(a + b), joined);
  }

  lemma AllInside(text: string)
    ensures forall t | t in Tokens(text) :: t.start < t.end <= |text|
  {
    TokensWithin(text, 0);
  }

  lemma JoinedAscending(a: string, b: string)
    ensures Ascending(Tokens(a) + Shift(Tokens(b), |a|))
    ensures forall t | t in Tokens(a) + Shift(Tokens(b), |a|) :: t.start < t.end
  {
    hide Tokens;
    TokensExact(a);
    TokensExact(b);
    AllInside(a);
    AllInside(b);
    assert forall i | 0 <= i < |Tokens(a)| :: Tokens(a)[i] in Tokens(a);
    assert forall i | 0 <= i < |Tokens(b)| :: Tokens(b)[i] in Tokens(b);
  }

  lemma NameBehind(a: string, b: string, t: Span)
    requires t.start < t.end <= |b|
    ensures (a + b)[|a| + t.start..|a| + t.end] == b[t.start..t.end]
  {}

  lemma JoinedNames(a: string, b: string)
    requires Apart(a, b)
    ensures TokenNames(a + b) == TokenNames(a) + TokenNames(b)
  {
    JoinedTokens(a, b);
    AllInside(a);
    AllInside(b);
    hide Tokens, Apart;
    var n := |Tokens(a)|;
    forall i | 0 <= i < n + |Tokens(b)| ensures TokenNames(a + b)[i] == (TokenNames(a) + TokenNames(b))[i] {
      if i < n {
        assert Tokens(a)[i] in Tokens(a);
      } else {
        assert Tokens(b)[i - n] in Tokens(b);
        NameBehind(a, b, Tokens(b)[i - n]);
      }
    }
  }
}
