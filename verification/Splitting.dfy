/** strings.Split and strings.Join on one separator character, and white space as Go's strings package reads it. */
module Splitting {

  /** strings.Split */
  function Split(s: string, sep: char): (segs: seq<string>)
    ensures |segs| >= 1
    ensures forall g | g in segs :: sep !in g
  {
    if s == "" then [""]
    else
      var rest := Split(s[1..], sep);
      if s[0] == sep then [""] + rest else [[s[0]] + rest[0]] + rest[1..]
  }

  /** strings.Join */
  function Join(segs: seq<string>, sep: char): string
    requires |segs| >= 1
  {
    if |segs| == 1 then segs[0] else segs[0] + [sep] + Join(segs[1..], sep)
  }

  lemma {:induction false} JoinSplit(s: string, sep: char)
    ensures Join(Split(s, sep), sep) == s
  {
    if s == "" {
    } else {
      JoinSplit(s[1..], sep);
      var rest := Split(s[1..], sep);
      assert s == [s[0]] + s[1..];
      if s[0] == sep {
        assert ([""] + rest)[1..] == rest;
      } else {
        assert ([[s[0]] + rest[0]] + rest[1..])[1..] == rest[1..];
      }
    }
  }

  /** There is one segment more than there are separators. */
  lemma {:induction false} SplitCounts(s: string, sep: char)
    ensures |Split(s, sep)| == 1 + multiset(s)[sep]
  {
    if s == "" {
    } else {
      SplitCounts(s[1..], sep);
      assert s == [s[0]] + s[1..];
    }
  }

  lemma {:induction false} SplitWhole(a: string, sep: char)
    requires sep !in a
    ensures Split(a, sep) == [a]
  {
    if a == "" {
    } else {
      SplitWhole(a[1..], sep);
      assert [a[0]] + a[1..] == a;
    }
  }

  lemma {:induction false} SplitAt(a: string, rest: string, sep: char)
    requires sep !in a
    ensures Split(a + [sep] + rest, sep) == [a] + Split(rest, sep)
  {
    var s := a + [sep] + rest;
    if a == "" {
      assert s[1..] == rest;
    } else {
      SplitAt(a[1..], rest, sep);
      assert s[1..] == a[1..] + [sep] + rest;
      assert [a[0]] + a[1..] == a;
    }
  }

  lemma {:induction false} SplitJoin(segs: seq<string>, sep: char)
    requires |segs| >= 1 && forall g | g in segs :: sep !in g
    ensures Split(Join(segs, sep), sep) == segs
  {
    if |segs| == 1 {
      SplitWhole(segs[0], sep);
    } else {
      SplitAt(segs[0], Join(segs[1..], sep), sep);
      SplitJoin(segs[1..], sep);
    }
  }

  /** The first segment, the separator, and the join of the others. */
  lemma SplitHead(s: string, sep: char)
    requires |Split(s, sep)| > 1
    ensures s == Split(s, sep)[0] + [sep] + Join(Split(s, sep)[1..], sep)
    ensures Split(Join(Split(s, sep)[1..], sep), sep) == Split(s, sep)[1..]
  {
    JoinSplit(s, sep);
    SplitJoin(Split(s, sep)[1..], sep);
  }

  // ---------------------------------------------------------------- white space

  /** unicode.IsSpace */
  predicate IsSpace(c: char) {
    || c in {' ', '\t', '\n', '\r', '\U{0B}', '\U{0C}', '\U{85}', '\U{A0}', '\U{1680}'}
    || '\U{2000}' <= c <= '\U{200A}'
    || c in {'\U{2028}', '\U{2029}', '\U{202F}', '\U{205F}', '\U{3000}'}
  }

  /** White space by code point. */
  lemma SpacesAre(c: char)
    ensures var n := c as int;
            IsSpace(c) <==> || 9 <= n <= 13 || n == 32 || n == 133 || n == 160 || n == 5760 || 8192 <= n <= 8202
                            || n == 8232 || n == 8233 || n == 8239 || n == 8287 || n == 12288
  {}

  predicate AllSpace(s: string) {
    forall c | c in s :: IsSpace(c)
  }

  predicate NoSpace(s: string) {
    forall c | c in s :: !IsSpace(c)
  }

  /** strings.Fields */
  function Fields(s: string): (words: seq<string>)
    ensures s != "" && !IsSpace(s[0]) ==> |words| > 0
  {
    if s == "" then []
    else
      var rest := Fields(s[1..]);
      if IsSpace(s[0]) then rest
      else if |s| == 1 || IsSpace(s[1]) then [[s[0]]] + rest
      else [[s[0]] + rest[0]] + rest[1..]
  }

  lemma {:induction false} FieldsOfWord(word: string, rest: string)
    requires word != "" && NoSpace(word) && (rest == "" || IsSpace(rest[0]))
    ensures Fields(word + rest) == [word] + Fields(rest)
  {
    hide IsSpace;
    var s := word + rest;
    assert word[0] in word;
    if |word| == 1 {
      assert s[1..] == rest && [s[0]] == word;
    } else {
      assert s[1..] == word[1..] + rest && s[1] == word[1] && word[1] in word;
      assert NoSpace(word[1..]) by {
        assert forall c | c in word[1..] :: c in word;
      }
      FieldsOfWord(word[1..], rest);
      assert [word[0]] + word[1..] == word;
    }
  }

  lemma FieldsSkip(c: char, rest: string)
    requires IsSpace(c)
    ensures Fields([c] + rest) == Fields(rest)
  {
    assert ([c] + rest)[1..] == rest;
  }

  /** Words put between single spaces are read back as those words. */
  lemma {:induction false} FieldsOfJoin(words: seq<string>)
    requires |words| >= 1 && forall w | w in words :: w != "" && NoSpace(w)
    ensures Fields(Join(words, ' ')) == words
  {
    assert words[0] in words;
    if |words| == 1 {
      FieldsOfWord(words[0], "");
      assert words[0] + "" == words[0] && words == [words[0]] + Fields("");
    } else {
      var rest := Join(words[1..], ' ');
      assert forall w | w in words[1..] :: w in words;
      FieldsOfJoin(words[1..]);
      FieldsOfWord(words[0], [' '] + rest);
      FieldsSkip(' ', rest);
      assert words[0] + [' '] + rest == words[0] + ([' '] + rest);
      assert words == [words[0]] + words[1..];
    }
  }

  /** strings.TrimLeft and strings.TrimRight on white space */
  function TrimLeft(s: string): string {
    if s != "" && IsSpace(s[0]) then TrimLeft(s[1..]) else s
  }

  function TrimRight(s: string): string {
    if s != "" && IsSpace(s[|s| - 1]) then TrimRight(s[..|s| - 1]) else s
  }

  /** strings.TrimSpace */
  function TrimSpace(s: string): string {
    TrimRight(TrimLeft(s))
  }

  /** Neither end is white space. */
  predicate Trimmed(s: string) {
    s != "" ==> !IsSpace(s[0]) && !IsSpace(s[|s| - 1])
  }

  lemma {:induction false} TrimLeftOf(space: string, s: string)
    requires AllSpace(space) && (s != "" ==> !IsSpace(s[0]))
    ensures TrimLeft(space + s) == s
  {
    hide IsSpace;
    if space == "" {
      assert space + s == s;
    } else {
      assert space[0] in space && (space + s)[1..] == space[1..] + s;
      assert AllSpace(space[1..]) by {
        assert forall c | c in space[1..] :: c in space;
      }
      TrimLeftOf(space[1..], s);
    }
  }

  lemma {:induction false} TrimRightOf(s: string, space: string)
    requires AllSpace(space) && (s != "" ==> !IsSpace(s[|s| - 1]))
    ensures TrimRight(s + space) == s
  {
    hide IsSpace;
    if space == "" {
      assert s + space == s;
    } else {
      var last := |space| - 1;
      assert space[last] in space && (s + space)[..|s| + last] == s + space[..last];
      assert AllSpace(space[..last]) by {
        assert forall c | c in space[..last] :: c in space;
      }
      TrimRightOf(s, space[..last]);
    }
  }

  lemma {:induction false} TrimLeftLeaves(s: string) returns (space: string)
    ensures AllSpace(space) && s == space + TrimLeft(s)
    ensures TrimLeft(s) != "" ==> !IsSpace(TrimLeft(s)[0])
  {
    hide IsSpace;
    space := "";
    if s != "" && IsSpace(s[0]) {
      var rest := TrimLeftLeaves(s[1..]);
      space := [s[0]] + rest;
      assert s == [s[0]] + s[1..];
    }
  }

  lemma {:induction false} TrimRightLeaves(s: string) returns (space: string)
    ensures AllSpace(space) && s == TrimRight(s) + space
    ensures TrimRight(s) != "" ==> !IsSpace(TrimRight(s)[|TrimRight(s)| - 1])
  {
    hide IsSpace;
    space := "";
    if s != "" && IsSpace(s[|s| - 1]) {
      var rest := TrimRightLeaves(s[..|s| - 1]);
      space := rest + [s[|s| - 1]];
      assert s == s[..|s| - 1] + [s[|s| - 1]];
    }
  }

  /** What trimming takes off is white space, and what it leaves has none at its ends. */
  lemma TrimLeaves(s: string) returns (before: string, after: string)
    ensures AllSpace(before) && AllSpace(after) && s == before + TrimSpace(s) + after
    ensures Trimmed(TrimSpace(s))
  {
    before := TrimLeftLeaves(s);
    after := TrimRightLeaves(TrimLeft(s));
    hide IsSpace, TrimLeft, TrimRight;
    var t := TrimSpace(s);
    if t != "" {
      assert TrimLeft(s)[0] == t[0];
    }
  }

  lemma TrimOf(before: string, s: string, after: string)
    requires AllSpace(before) && AllSpace(after) && Trimmed(s) && s != ""
    ensures TrimSpace(before + s + after) == s
  {
    assert before + s + after == before + (s + after);
    TrimLeftOf(before, s + after);
    TrimRightOf(s, after);
  }
}
