/**
  Package patterns of one module, and which of a list another of the list already loads.

  A pattern is held to the packages it loads. `EnclosesIffLoadsAll` says enclosure is exactly inclusion of those sets,
  `OutermostLoadsTheSame` which lists lose no package when enclosed patterns are set aside, and `NamesWholeMeans` what
  the comparison of two lists is worth.
*/
module PackagePatterns {
  import opened StringOrder

  predicate HasPrefix(s: string, prefix: string) {
    |prefix| <= |s| && s[..|prefix|] == prefix
  }

  /** Ends in three dots. */
  predicate Wildcard(pattern: string) {
    |pattern| >= 3 && pattern[|pattern| - 3..] == "..."
  }

  /** What stands in front of the three dots. */
  function Front(pattern: string): string
    requires Wildcard(pattern)
  {
    pattern[..|pattern| - 3]
  }

  /** enclosesPattern */
  predicate Encloses(wildcard: string, pattern: string) {
    && Wildcard(wildcard) && wildcard != pattern
    && (HasPrefix(pattern, Front(wildcard)) || pattern + "/" == Front(wildcard))
  }

  /** normalizePattern, where the separator is a slash already. */
  function Normalize(pattern: string): string {
    if HasPrefix(pattern, "./") then pattern[2..] else pattern
  }

  /** A leading dot and slash is dropped, and nothing else. */
  lemma NormalizeIs(pattern: string)
    ensures Normalize("./" + pattern) == pattern
    ensures !("./" <= pattern) ==> Normalize(pattern) == pattern
  {
    assert ("./" + pattern)[..2] == "./" && ("./" + pattern)[2..] == pattern;
  }

  // ---------------------------------------------------------------- what a pattern loads

  predicate NoDots(s: string) {
    forall i | 0 <= i && i + 2 < |s| :: !(s[i] == '.' && s[i + 1] == '.' && s[i + 2] == '.')
  }

  /** A wildcard is "..." or ends in "/...", and three dots stand nowhere else. */
  predicate WellFormed(pattern: string) {
    if Wildcard(pattern) then SlashFront(pattern) && NoDots(Front(pattern)) else NoDots(pattern)
  }

  predicate SlashFront(pattern: string)
    requires Wildcard(pattern)
  {
    Front(pattern) == "" || Front(pattern)[|Front(pattern)| - 1] == '/'
  }

  /** The packages go list matches: a path itself, the directory in front of "/..." and everything below it, or all. */
  predicate Loads(pattern: string, pkg: string) {
    if Wildcard(pattern) then HasPrefix(pkg, Front(pattern)) || pkg + "/" == Front(pattern) else pkg == pattern
  }

  ghost predicate LoadsAll(pattern: string, other: string) {
    forall pkg | Loads(other, pkg) :: Loads(pattern, pkg)
  }

  lemma FrontAndDots(pattern: string)
    requires Wildcard(pattern)
    ensures pattern == Front(pattern) + "..."
  {}

  lemma PrefixTransitive(a: string, b: string, c: string)
    requires HasPrefix(b, a) && HasPrefix(c, b)
    ensures HasPrefix(c, a)
  {
    assert c[..|b|][..|a|] == c[..|a|];
  }

  /** A front that ends in a slash, or is empty, cannot reach into the dots. */
  lemma FrontStopsBeforeDots(front: string, other: string)
    requires front == "" || front[|front| - 1] == '/'
    requires HasPrefix(other + "...", front)
    ensures HasPrefix(other, front)
  {
    var all := other + "...";
    if front != "" {
      assert all[|front| - 1] == front[|front| - 1];
    }
  }

  lemma DotsBeforeSlash(other: string)
    ensures !NoDots(other + ".../")
  {
    var s := other + ".../";
    var i := |other|;
    assert s[i] == '.' && s[i + 1] == '.' && s[i + 2] == '.';
  }

  lemma WildcardInFronts(a: string, b: string)
    requires Wildcard(a) && Wildcard(b) && SlashFront(a)
    ensures HasPrefix(b, Front(a)) <==> HasPrefix(Front(b), Front(a))
  {
    FrontAndDots(b);
    if HasPrefix(b, Front(a)) {
      FrontStopsBeforeDots(Front(a), Front(b));
    }
    if HasPrefix(Front(b), Front(a)) {
      assert b[..|Front(a)|] == Front(b)[..|Front(a)|];
    }
  }

  /** Between two well-formed wildcards, enclosure is a matter of their fronts. */
  lemma WildcardEncloses(a: string, b: string)
    requires WellFormed(a) && WellFormed(b) && Wildcard(a) && Wildcard(b)
    ensures Encloses(a, b) <==> a != b && HasPrefix(Front(b), Front(a))
  {
    WildcardInFronts(a, b);
    DotsBeforeSlash(Front(b));
    FrontAndDots(b);
    assert Front(b) + "..." + "/" == Front(b) + ".../";
    hide HasPrefix, NoDots, Front;
  }

  lemma SlashAfter(front: string, pkg: string, outer: string)
    requires pkg + "/" == front && HasPrefix(front, outer) && (outer == "" || outer[|outer| - 1] == '/')
    ensures HasPrefix(pkg, outer) || pkg + "/" == outer
  {
    if |outer| <= |pkg| {
      assert pkg == front[..|pkg|];
      assert front[..|outer|] == pkg[..|outer|];
    } else {
      assert |outer| == |front|;
    }
  }

  lemma EnclosedIsLoaded(w: string, p: string)
    requires WellFormed(w) && WellFormed(p) && Encloses(w, p)
    ensures LoadsAll(w, p)
  {
    if Wildcard(p) {
      WildcardEncloses(w, p);
      forall pkg | Loads(p, pkg) ensures Loads(w, pkg) {
        if HasPrefix(pkg, Front(p)) {
          PrefixTransitive(Front(w), Front(p), pkg);
        } else {
          SlashAfter(Front(p), pkg, Front(w));
        }
      }
    }
  }

  lemma LoadedIsEnclosed(w: string, p: string)
    requires WellFormed(w) && WellFormed(p) && w != p && LoadsAll(w, p)
    ensures Encloses(w, p)
  {
    if Wildcard(p) {
      // The front itself, and one name no literal pattern is, are among what p loads.
      var below := Front(p) + "x" + w;
      assert HasPrefix(below, Front(p)) && |below| > |w|;
      assert Loads(p, below) && Loads(w, below);
      assert Wildcard(w);
      var at := Front(p) + "..";
      assert HasPrefix(at, Front(p));
      assert Loads(p, at) && Loads(w, at);
      if HasPrefix(at, Front(w)) {
        FrontOfFront(Front(w), Front(p));
      } else {
        assert at + "/" == Front(w);
        assert Loads(p, Front(p)) by {
          assert HasPrefix(Front(p), Front(p));
        }
        assert Loads(w, Front(p));
        assert |Front(w)| == |Front(p)| + 3;
        assert Front(p) + "/" != Front(w);
      }
      WildcardEncloses(w, p);
    } else {
      assert Loads(p, p);
    }
  }

  lemma FrontOfFront(outer: string, inner: string)
    requires HasPrefix(inner + "..", outer) && (outer == "" || outer[|outer| - 1] == '/')
    ensures HasPrefix(inner, outer)
  {
    var all := inner + "..";
    if outer != "" {
      assert all[|outer| - 1] == outer[|outer| - 1];
    }
  }

  /** One pattern encloses another exactly when it is another pattern that loads everything the first does. */
  lemma EnclosesIffLoadsAll(w: string, p: string)
    requires WellFormed(w) && WellFormed(p)
    ensures Encloses(w, p) <==> w != p && LoadsAll(w, p)
  {
    hide WellFormed, LoadsAll;
    if Encloses(w, p) {
      EnclosedIsLoaded(w, p);
    }
    if w != p && LoadsAll(w, p) {
      LoadedIsEnclosed(w, p);
    }
  }

  lemma PrefixBothWays(a: string, b: string)
    ensures HasPrefix(a, b) && HasPrefix(b, a) <==> a == b
  {
    if HasPrefix(a, b) && HasPrefix(b, a) {
      assert a == a[..|b|] && b == b[..|a|];
    }
  }

  lemma FrontsDecide(a: string, b: string)
    requires Wildcard(a) && Wildcard(b)
    ensures Front(a) == Front(b) <==> a == b
  {
    FrontAndDots(a);
    FrontAndDots(b);
  }

  /** Well-formed patterns that enclose each other do not exist. */
  lemma EnclosesAsymmetric(a: string, b: string)
    requires WellFormed(a) && WellFormed(b) && Encloses(a, b)
    ensures !Encloses(b, a)
  {
    if Wildcard(b) {
      WildcardEncloses(a, b);
      WildcardEncloses(b, a);
      PrefixBothWays(Front(a), Front(b));
      FrontsDecide(a, b);
    }
  }

  lemma EnclosesTransitive(a: string, b: string, c: string)
    requires WellFormed(a) && WellFormed(b) && WellFormed(c)
    requires Encloses(a, b) && Encloses(b, c)
    ensures Encloses(a, c)
  {
    EnclosesIffLoadsAll(a, b);
    EnclosesIffLoadsAll(b, c);
    EnclosesAsymmetric(a, b);
    EnclosesIffLoadsAll(a, c);
    hide WellFormed, Encloses, Loads;
  }

  // ---------------------------------------------------------------- patterns that enclose each other

  lemma StackedEnclose(a: string, b: string)
    requires Wildcard(a) && Wildcard(b) && a == b + "/..."
    ensures Encloses(a, b) && Encloses(b, a)
  {
    assert Front(a) == b + "/";
    assert a[..|Front(b)|] == Front(b);
  }

  lemma EnclosesInFronts(a: string, b: string)
    requires Wildcard(a) && Wildcard(b) && SlashFront(a) && Encloses(a, b)
    ensures HasPrefix(Front(b), Front(a)) || a == b + "/..."
  {
    FrontAndDots(a);
    FrontAndDots(b);
    if HasPrefix(b, Front(a)) {
      FrontStopsBeforeDots(Front(a), Front(b));
    } else {
      assert b + "/" + "..." == b + "/...";
    }
  }

  /** Wildcards that hold other dots can enclose each other, and only when one is the other with "/..." behind it. */
  lemma MutualOnlyWhenStacked(a: string, b: string)
    requires Wildcard(a) && Wildcard(b) && SlashFront(a) && SlashFront(b)
    ensures Encloses(a, b) && Encloses(b, a) <==> a == b + "/..." || b == a + "/..."
  {
    if Encloses(a, b) && Encloses(b, a) {
      EnclosesInFronts(a, b);
      EnclosesInFronts(b, a);
      PrefixBothWays(Front(a), Front(b));
      FrontsDecide(a, b);
    }
    if a == b + "/..." {
      StackedEnclose(a, b);
    }
    if b == a + "/..." {
      StackedEnclose(b, a);
    }
  }

  // ---------------------------------------------------------------- a list without what it loads already

  function Normalized(patterns: seq<string>): (r: seq<string>)
    ensures |r| == |patterns|
    ensures forall i | 0 <= i < |r| :: r[i] == Normalize(patterns[i])
  {
    seq(|patterns|, i requires 0 <= i < |patterns| => Normalize(patterns[i]))
  }

  predicate EnclosedBy(patterns: seq<string>, pattern: string) {
    exists w | w in patterns :: Encloses(w, pattern)
  }

  /** outermostPatterns, as what its answer holds: sorted, once each, exactly the patterns nothing in the list encloses. */
  ghost predicate IsOutermost(patterns: seq<string>, outermost: seq<string>) {
    && Sorted(outermost) && NoRepeats(outermost)
    && forall p :: p in outermost <==> p in Normalized(patterns) && !EnclosedBy(Normalized(patterns), p)
  }

  /** outermostPatterns */
  method OutermostPatterns(patterns: seq<string>) returns (outermost: seq<string>)
    ensures IsOutermost(patterns, outermost)
  {
    hide Leq, Encloses, Normalize, Sort, Compact;
    var normalized: seq<string> := [];
    for i := 0 to |patterns|
      invariant normalized == Normalized(patterns)[..i]
    {
      normalized := normalized + [Normalize(patterns[i])];
    }
    SortSorts(normalized);
    CompactKeepsOnce(Sort(normalized));
    normalized := Compact(Sort(normalized));
    outermost := [];
    for i := 0 to |normalized|
      invariant Sorted(outermost) && NoRepeats(outermost)
      invariant forall p :: p in outermost <==> p in normalized[..i] && !EnclosedBy(normalized, p)
    {
      var pattern := normalized[i];
      assert normalized[..i + 1] == normalized[..i] + [pattern];
      if !EnclosedBy(normalized, pattern) {
        forall k | 0 <= k < |outermost| ensures Leq(outermost[k], pattern) && outermost[k] != pattern {
          assert outermost[k] in normalized[..i];
        }
        outermost := outermost + [pattern];
      }
    }
    assert normalized[..|normalized|] == normalized;
    SameMembersEnclose(normalized, Normalized(patterns));
  }

  lemma SameMembersEnclose(xs: seq<string>, ys: seq<string>)
    requires forall x :: x in xs <==> x in ys
    ensures forall p :: EnclosedBy(xs, p) <==> EnclosedBy(ys, p)
  {
    hide Encloses;
  }

  // ---------------------------------------------------------------- what the lists load

  ghost predicate AllWellFormed(patterns: seq<string>) {
    forall p | p in patterns :: WellFormed(p)
  }

  ghost predicate ListLoads(patterns: seq<string>, pkg: string) {
    exists p | p in patterns :: Loads(p, pkg)
  }

  ghost predicate SlashFronts(patterns: seq<string>) {
    forall p | p in patterns && Wildcard(p) :: SlashFront(p)
  }

  /** A wildcard of the list whose front no other wildcard's front is a prefix of. */
  ghost predicate Topmost(patterns: seq<string>, m: string) {
    && m in patterns && Wildcard(m)
    && forall q | q in patterns && Wildcard(q) && q != m :: !HasPrefix(Front(m), Front(q))
  }

  ghost predicate TopmostStacked(patterns: seq<string>) {
    exists m | m in patterns :: Topmost(patterns, m) && m + "/..." in patterns
  }

  /** The lists that lose no package; well-formed ones are among them. */
  ghost predicate LosesNothing(patterns: seq<string>) {
    SlashFronts(patterns) && !TopmostStacked(patterns)
  }

  /** Above every wildcard of the list stands a topmost one. */
  lemma {:induction false} SomeTopmost(patterns: seq<string>, p: string) returns (m: string)
    requires p in patterns && Wildcard(p)
    ensures Topmost(patterns, m) && HasPrefix(Front(p), Front(m))
    decreases |p|
  {
    hide HasPrefix;
    PrefixBothWays(Front(p), Front(p));
    m := p;
    if Topmost(patterns, p) {
    } else {
      var q :| q in patterns && Wildcard(q) && q != p && HasPrefix(Front(p), Front(q));
      FrontsDecide(p, q);
      PrefixIsShorter(Front(q), Front(p));
      m := SomeTopmost(patterns, q);
      PrefixTransitive(Front(m), Front(q), Front(p));
    }
  }

  lemma PrefixIsShorter(a: string, b: string)
    requires HasPrefix(b, a) && a != b
    ensures |a| < |b|
  {
    PrefixBothWays(a, b);
  }

  lemma ShorterFrontLoadsMore(m: string, p: string)
    requires Wildcard(m) && Wildcard(p) && SlashFront(m) && HasPrefix(Front(p), Front(m))
    ensures LoadsAll(m, p)
  {
    forall pkg | Loads(p, pkg) ensures Loads(m, pkg) {
      if HasPrefix(pkg, Front(p)) {
        PrefixTransitive(Front(m), Front(p), pkg);
      } else {
        SlashAfter(Front(p), pkg, Front(m));
      }
    }
  }

  /** Nothing in the list encloses a topmost wildcard but itself with "/..." behind it. */
  lemma TopmostEnclosedIff(patterns: seq<string>, m: string)
    requires SlashFronts(patterns) && Topmost(patterns, m)
    ensures EnclosedBy(patterns, m) <==> m + "/..." in patterns
  {
    forall w | w in patterns && Encloses(w, m) ensures w == m + "/..." {
      EnclosesInFronts(w, m);
    }
    if m + "/..." in patterns {
      StackedIsWildcard(m);
      StackedEnclose(m + "/...", m);
    }
  }

  lemma StackedIsWildcard(m: string)
    ensures Wildcard(m + "/...") && Front(m + "/...") == m + "/"
  {
    assert m + "/..." == m + "/" + "...";
  }

  /** What any pattern of the list loads is loaded by one that is kept, unless a topmost wildcard is stacked. */
  lemma KeptLoads(patterns: seq<string>, p: string, pkg: string) returns (top: string)
    requires SlashFronts(patterns) && !TopmostStacked(patterns)
    requires p in patterns && Loads(p, pkg)
    ensures top in patterns && !EnclosedBy(patterns, top) && Loads(top, pkg)
  {
    hide HasPrefix, Front, SlashFront;
    top := p;
    if EnclosedBy(patterns, p) {
      var w := p;
      if !Wildcard(p) {
        w :| w in patterns && Encloses(w, p);
      }
      top := SomeTopmost(patterns, w);
      ShorterFrontLoadsMore(top, w);
      TopmostEnclosedIff(patterns, top);
    }
  }

  lemma {:induction false} LongerThanAll(patterns: seq<string>) returns (n: nat)
    ensures forall p | p in patterns :: |p| < n
  {
    n := 0;
    if patterns == [] {
    } else {
      var m := LongerThanAll(patterns[1..]);
      n := m + |patterns[0]| + 1;
      assert patterns == [patterns[0]] + patterns[1..];
    }
  }

  /** A name below a topmost wildcard that no other pattern of the list reaches. */
  lemma OnlyTopmostLoads(patterns: seq<string>, m: string) returns (pkg: string)
    requires SlashFronts(patterns) && Topmost(patterns, m)
    ensures Loads(m, pkg)
    ensures forall q | q in patterns && q != m :: !Loads(q, pkg)
  {
    var n := LongerThanAll(patterns);
    var filler := seq(n, _ => 'x');
    pkg := Front(m) + filler;
    forall q | q in patterns && q != m ensures !Loads(q, pkg) {
      if Wildcard(q) && HasPrefix(pkg, Front(q)) {
        OnlyAboveFiller(Front(m), filler, Front(q));
      }
    }
  }

  /** A prefix of a filled-up front is a prefix of the front or ends in the filler. */
  lemma OnlyAboveFiller(front: string, filler: string, other: string)
    requires forall k | 0 <= k < |filler| :: filler[k] == 'x'
    requires HasPrefix(front + filler, other)
    ensures HasPrefix(front, other) || (other != "" && other[|other| - 1] == 'x')
  {
    var all := front + filler;
    if |other| > |front| {
      assert all[|other| - 1] == filler[|other| - 1 - |front|];
      assert other[|other| - 1] == all[..|other|][|other| - 1];
    } else {
      assert all[..|other|] == front[..|other|];
    }
  }

  /**
    Setting enclosed patterns and repeats aside loses no package and adds none, exactly when no topmost wildcard of the
    list stands in it beside itself with "/..." behind it.
  */
  lemma OutermostLoadsTheSame(patterns: seq<string>, outermost: seq<string>)
    requires SlashFronts(Normalized(patterns)) && IsOutermost(patterns, outermost)
    ensures (forall pkg :: ListLoads(outermost, pkg) <==> ListLoads(Normalized(patterns), pkg))
      <==> !TopmostStacked(Normalized(patterns))
  {
    hide Encloses, EnclosedBy, Loads, Normalized, SlashFronts, Topmost;
    var all := Normalized(patterns);
    if TopmostStacked(all) {
      var m :| m in all && Topmost(all, m) && m + "/..." in all;
      TopmostEnclosedIff(all, m);
      var pkg := OnlyTopmostLoads(all, m);
      assert ListLoads(all, pkg) && !ListLoads(outermost, pkg);
    } else {
      forall pkg | ListLoads(all, pkg) ensures ListLoads(outermost, pkg) {
        hide TopmostStacked;
        var p :| p in all && Loads(p, pkg);
        var top := KeptLoads(all, p, pkg);
      }
    }
  }

  /** Well-formed lists are among those that lose nothing. */
  lemma WellFormedNeverStacked(patterns: seq<string>)
    requires AllWellFormed(patterns)
    ensures LosesNothing(patterns)
  {
    hide HasPrefix, NoDots, SlashFront;
    forall m | m in patterns && Topmost(patterns, m) ensures m + "/..." !in patterns {
      WellFormedUnstacked(m);
    }
  }

  lemma WellFormedUnstacked(m: string)
    requires Wildcard(m)
    ensures !WellFormed(m + "/...")
  {
    hide HasPrefix, NoDots, SlashFront;
    StackedIsWildcard(m);
    FrontAndDots(m);
    DotsBeforeSlash(Front(m));
    assert Front(m) + "..." + "/" == Front(m) + ".../";
  }

  /** No pattern kept encloses another kept one. */
  lemma OutermostIsAntichain(patterns: seq<string>, outermost: seq<string>)
    requires IsOutermost(patterns, outermost)
    ensures forall a, b | a in outermost && b in outermost :: !Encloses(a, b)
  {
    hide Encloses, Normalized;
  }

  /** The answer depends on which patterns are named, not on their order, repeats or spelling. */
  lemma OutermostIgnoresOrder(patterns: seq<string>, others: seq<string>, mine: seq<string>, theirs: seq<string>)
    requires IsOutermost(patterns, mine) && IsOutermost(others, theirs)
    requires forall p :: p in Normalized(patterns) <==> p in Normalized(others)
    ensures mine == theirs
  {
    hide Encloses, Normalized, Leq;
    SameMembersEnclose(Normalized(patterns), Normalized(others));
    SortedSetUnique(mine, theirs);
  }

  /** namesWhole: the lists name the same outermost patterns, and then they load the same packages. */
  method NamesWhole(patterns: seq<string>, whole: seq<string>) returns (same: bool)
    ensures same <==> exists outermost :: IsOutermost(patterns, outermost) && IsOutermost(whole, outermost)
    ensures same && LosesNothing(Normalized(patterns)) && LosesNothing(Normalized(whole))
      ==> forall pkg :: ListLoads(Normalized(patterns), pkg) <==> ListLoads(Normalized(whole), pkg)
    ensures (forall p :: p in Normalized(patterns) <==> p in Normalized(whole)) ==> same
  {
    hide Encloses, Loads, Normalized, IsOutermost, LosesNothing;
    var mine := OutermostPatterns(patterns);
    var theirs := OutermostPatterns(whole);
    same := mine == theirs;
    NamesWholeMeans(patterns, whole, mine, theirs);
  }

  lemma OutermostUnique(patterns: seq<string>, mine: seq<string>, other: seq<string>)
    requires IsOutermost(patterns, mine) && IsOutermost(patterns, other)
    ensures mine == other
  {
    hide Encloses, Normalized, Leq, IsOutermost;
    OutermostIgnoresOrder(patterns, patterns, mine, other);
  }

  /** What equality of the two outermost lists is worth. */
  lemma NamesWholeMeans(patterns: seq<string>, whole: seq<string>, mine: seq<string>, theirs: seq<string>)
    requires IsOutermost(patterns, mine) && IsOutermost(whole, theirs)
    ensures mine == theirs <==> exists outermost :: IsOutermost(patterns, outermost) && IsOutermost(whole, outermost)
    ensures mine == theirs && LosesNothing(Normalized(patterns)) && LosesNothing(Normalized(whole))
      ==> forall pkg :: ListLoads(Normalized(patterns), pkg) <==> ListLoads(Normalized(whole), pkg)
    ensures (forall p :: p in Normalized(patterns) <==> p in Normalized(whole)) ==> mine == theirs
  {
    hide Encloses, Loads, Normalized, IsOutermost, ListLoads, SlashFronts, TopmostStacked;
    forall outermost | IsOutermost(patterns, outermost) && IsOutermost(whole, outermost) ensures mine == theirs {
      OutermostUnique(patterns, mine, outermost);
      OutermostUnique(whole, theirs, outermost);
    }
    if mine == theirs && LosesNothing(Normalized(patterns)) && LosesNothing(Normalized(whole)) {
      OutermostLoadsTheSame(patterns, mine);
      OutermostLoadsTheSame(whole, theirs);
    }
    if forall p :: p in Normalized(patterns) <==> p in Normalized(whole) {
      OutermostIgnoresOrder(patterns, whole, mine, theirs);
    }
  }

  /** Patterns stacked like that set each other aside: nothing is left of a list that holds just the two. */
  lemma StackedLeaveNothing(a: string, b: string)
    requires Wildcard(a) && Wildcard(b) && a == b + "/..." && Normalize(a) == a && Normalize(b) == b
    ensures IsOutermost([a, b], [])
  {
    StackedEnclose(a, b);
    hide Encloses, Wildcard, Normalize;
    var list := [a, b];
    assert Normalized(list) == list;
    assert list[0] in list && list[1] in list;
    forall p | p in list ensures EnclosedBy(list, p) {
      assert p == list[0] || p == list[1];
    }
  }

  lemma DotsLoadAll(list: seq<string>, dots: string, pkg: string)
    requires dots in list && Wildcard(dots) && Front(dots) == ""
    ensures ListLoads(list, pkg)
  {
    assert pkg[..0] == "";
    assert Loads(dots, pkg);
  }

  /** So a list can load every package of the module and have an empty outermost list. */
  lemma EverythingCanReadAsNothing(dots: string, stacked: string)
    requires dots == "..." && stacked == ".../..."
    ensures IsOutermost([stacked, dots], [])
    ensures forall pkg :: ListLoads([stacked, dots], pkg)
  {
    assert stacked == dots + "/...";
    assert dots[..2][1] == stacked[..2][1] == '.' && "./"[1] == '/';
    StackedLeaveNothing(stacked, dots);
    assert [stacked, dots][1] == dots;
    forall pkg ensures ListLoads([stacked, dots], pkg) {
      hide *;
      DotsLoadAll([stacked, dots], dots, pkg);
    }
  }
}
