/**
  Where every old test went: replaced by new tests, dropped with a reason, or unresolved.

  The map is built by walking Go maps, in whatever order they come. `Resolved` says what the result is without an
  order, `ResolvedUnique` that nothing else fits, `Partitioned` that every old test is in exactly one place,
  `FindingsAre` which findings there are, and `CompleteIff` when the gate passes.
*/
module PortMap {
  import opened StringOrder

  datatype Drop = Drop(category: string, reason: string)

  /** The Replaces lines: a new test, and the old ones it names. */
  type Replaces = map<string, seq<string>>

  /** What the map is resolved from. `quote` is fmt's %q. */
  datatype Suites = Suites(
    declared: seq<string>, retired: seq<string>, lines: Replaces, drops: map<string, Drop>,
    categories: set<string>, quote: string -> string)

  datatype Resolution = Resolution(
    olds: seq<string>, retired: seq<string>, replaced: map<string, seq<string>>, dropped: map<string, Drop>,
    unresolved: seq<string>, findings: seq<string>)

  // ---------------------------------------------------------------- adding up over keys in no order

  ghost function SumOver(keys: set<string>, f: string -> multiset<string>): multiset<string>
    decreases |keys|
  {
    if keys == {} then multiset{}
    else
      var key :| key in keys;
      f(key) + SumOver(keys - {key}, f)
  }

  lemma {:induction false} SumOverSplit(keys: set<string>, f: string -> multiset<string>, key: string)
    requires key in keys
    ensures SumOver(keys, f) == f(key) + SumOver(keys - {key}, f)
    decreases |keys|
  {
    var first :| first in keys && SumOver(keys, f) == f(first) + SumOver(keys - {first}, f);
    if first != key {
      SumOverSplit(keys - {first}, f, key);
      SumOverSplit(keys - {key}, f, first);
      assert keys - {first} - {key} == keys - {key} - {first};
    }
  }

  lemma SumOverAdd(keys: set<string>, f: string -> multiset<string>, key: string)
    requires key !in keys
    ensures SumOver(keys + {key}, f) == SumOver(keys, f) + f(key)
  {
    SumOverSplit(keys + {key}, f, key);
    assert keys + {key} - {key} == keys;
  }

  lemma {:induction false} SumOverHolds(keys: set<string>, f: string -> multiset<string>, x: string)
    ensures x in SumOver(keys, f) <==> exists key | key in keys :: x in f(key)
    decreases |keys|
  {
    if keys == {} {
    } else {
      var key :| key in keys && SumOver(keys, f) == f(key) + SumOver(keys - {key}, f);
      SumOverHolds(keys - {key}, f, x);
    }
  }

  // ---------------------------------------------------------------- the findings' texts

  function RetiredTwice(name: string): string {
    name + " is retired twice"
  }

  function StillDeclared(name: string): string {
    name + " is retired and still declared in the old suite"
  }

  function ReplacesUnknown(newTest: string, test: string): string {
    newTest + " replaces " + test + ", which the old suite does not have"
  }

  function CommaList(names: seq<string>): string {
    if names == [] then "" else if |names| == 1 then names[0] else names[0] + ", " + CommaList(names[1..])
  }

  /** What is wrong with one declared drop, or nothing. */
  function DropFinding(s: Suites, known: set<string>, replaced: map<string, seq<string>>, test: string): seq<string>
    requires test in s.drops
  {
    var drop := s.drops[test];
    if test !in known then ["drop declared for " + test + ", which the old suite does not have"]
    else if drop.category !in s.categories then
      ["drop declared for " + test + " under the unknown category " + s.quote(drop.category)]
    else if test in replaced && |replaced[test]| > 0 then
      [test + " is both dropped and replaced by " + CommaList(replaced[test])]
    else []
  }

  // ---------------------------------------------------------------- what the map is

  function Members(names: seq<string>): set<string> {
    set name | name in names
  }

  function Known(s: Suites): set<string> {
    Members(s.declared) + Members(s.retired)
  }

  /** The retired names that join the old tests, and what is wrong with the others, in the order of the list. */
  function Accepted(declared: set<string>, seen: set<string>, retired: seq<string>): seq<string>
    decreases |retired|
  {
    if retired == [] then []
    else if retired[0] in seen || retired[0] in declared then Accepted(declared, seen, retired[1..])
    else [retired[0]] + Accepted(declared, seen + {retired[0]}, retired[1..])
  }

  function Refused(declared: set<string>, seen: set<string>, retired: seq<string>): seq<string>
    decreases |retired|
  {
    if retired == [] then []
    else if retired[0] in seen then [RetiredTwice(retired[0])] + Refused(declared, seen, retired[1..])
    else if retired[0] in declared then [StillDeclared(retired[0])] + Refused(declared, seen, retired[1..])
    else Refused(declared, seen + {retired[0]}, retired[1..])
  }

  /** What a Replaces line names that the old suite does not have. */
  function UnknownIn(known: set<string>, newTest: string, olds: seq<string>): multiset<string> {
    if olds == [] then multiset{}
    else
      var last := olds[|olds| - 1];
      UnknownIn(known, newTest, olds[..|olds| - 1])
      + if last in known then multiset{} else multiset{ReplacesUnknown(newTest, last)}
  }

  function UnknownOf(s: Suites): string -> multiset<string> {
    newTest => if newTest in s.lines then UnknownIn(Known(s), newTest, s.lines[newTest]) else multiset{}
  }

  /** How often the lines of some new tests name an old test of the suite. */
  function Named(s: Suites, keys: set<string>, test: string, newTest: string): nat {
    if newTest in keys && newTest in s.lines && test in Known(s) then multiset(s.lines[newTest])[test] else 0
  }

  function FindingOf(s: Suites, replaced: map<string, seq<string>>): string -> multiset<string> {
    test => if test in s.drops then multiset(DropFinding(s, Known(s), replaced, test)) else multiset{}
  }

  /** m.Replaced[test] = append(m.Replaced[test], newTest) */
  function Added(replaced: map<string, seq<string>>, test: string, newTest: string): map<string, seq<string>> {
    replaced[test := (if test in replaced then replaced[test] else []) + [newTest]]
  }

  /** How often a new test stands in an old one's entry. */
  function Count(replaced: map<string, seq<string>>, test: string, newTest: string): nat {
    if test in replaced then multiset(replaced[test])[newTest] else 0
  }

  /** Every entry gained the new test as often as the line names it. */
  ghost predicate LineNoted(known: set<string>, newTest: string, olds: seq<string>, before: map<string, seq<string>>,
                            after: map<string, seq<string>>) {
    forall test, n ::
      Count(after, test, n) == Count(before, test, n) + if n == newTest && test in known then multiset(olds)[test] else 0
  }

  lemma NothingNoted(known: set<string>, newTest: string, replaced: map<string, seq<string>>)
    ensures LineNoted(known, newTest, [], replaced, replaced)
  {}

  lemma AddedCounts(replaced: map<string, seq<string>>, last: string, newTest: string)
    ensures forall test, n :: Count(Added(replaced, last, newTest), test, n)
                           == Count(replaced, test, n) + if test == last && n == newTest then 1 else 0
    ensures NoneEmpty(replaced) ==> NoneEmpty(Added(replaced, last, newTest))
  {}

  lemma OneMoreNoted(known: set<string>, newTest: string, olds: seq<string>, last: string,
                     before: map<string, seq<string>>, after: map<string, seq<string>>)
    requires LineNoted(known, newTest, olds, before, after) && NoneEmpty(after)
    ensures last in known ==> LineNoted(known, newTest, olds + [last], before, Added(after, last, newTest))
    ensures last in known ==> NoneEmpty(Added(after, last, newTest))
    ensures last !in known ==> LineNoted(known, newTest, olds + [last], before, after)
  {
    AddedCounts(after, last, newTest);
    hide Count, Added, NoneEmpty;
    var next := if last in known then Added(after, last, newTest) else after;
    forall test, n
      ensures Count(next, test, n)
           == Count(before, test, n) + if n == newTest && test in known then multiset(olds + [last])[test] else 0
    {
      assert Count(after, test, n)
          == Count(before, test, n) + if n == newTest && test in known then multiset(olds)[test] else 0;
      assert multiset(olds + [last])[test] == multiset(olds)[test] + if test == last then 1 else 0;
    }
  }

  ghost predicate AllSorted(replaced: map<string, seq<string>>) {
    forall test | test in replaced :: Sorted(replaced[test])
  }

  ghost predicate NoneEmpty(replaced: map<string, seq<string>>) {
    forall test | test in replaced :: replaced[test] != []
  }

  ghost predicate EntriesSum(s: Suites, keys: set<string>, replaced: map<string, seq<string>>) {
    forall test, newTest :: Count(replaced, test, newTest) == Named(s, keys, test, newTest)
  }

  ghost predicate OldTests(s: Suites, olds: seq<string>, retired: seq<string>) {
    && Sorted(olds) && multiset(olds) == multiset(s.declared + Accepted(Members(s.declared), {}, s.retired))
    && Sorted(retired) && multiset(retired) == multiset(Accepted(Members(s.declared), {}, s.retired))
  }

  ghost predicate Successors(s: Suites, replaced: map<string, seq<string>>) {
    AllSorted(replaced) && NoneEmpty(replaced) && EntriesSum(s, s.lines.Keys, replaced)
  }

  ghost predicate Drops(s: Suites, replaced: map<string, seq<string>>, dropped: map<string, Drop>) {
    && (forall test :: test in dropped <==> test in s.drops && DropFinding(s, Known(s), replaced, test) == [])
    && forall test | test in dropped && test in s.drops :: dropped[test] == s.drops[test]
  }

  ghost predicate LeftOver(olds: seq<string>, replaced: map<string, seq<string>>, dropped: map<string, Drop>,
                           unresolved: seq<string>) {
    forall name :: multiset(unresolved)[name] == if name in replaced || name in dropped then 0 else multiset(olds)[name]
  }

  ghost predicate FindingsSum(s: Suites, replaced: map<string, seq<string>>, findings: seq<string>) {
    multiset(findings) == multiset(Refused(Members(s.declared), {}, s.retired))
                        + SumOver(s.lines.Keys, UnknownOf(s)) + SumOver(s.drops.Keys, FindingOf(s, replaced))
  }

  /** What resolving comes to, said without an order. */
  ghost predicate Resolved(s: Suites, r: Resolution) {
    && OldTests(s, r.olds, r.retired) && Successors(s, r.replaced) && Drops(s, r.replaced, r.dropped)
    && LeftOver(r.olds, r.replaced, r.dropped, r.unresolved) && Sorted(r.unresolved)
    && FindingsSum(s, r.replaced, r.findings) && Sorted(r.findings)
  }

  // ---------------------------------------------------------------- building it

  class Map {
    var olds: seq<string>
    var retired: seq<string>
    var replaced: map<string, seq<string>>
    var dropped: map<string, Drop>
    var unresolved: seq<string>
    var findings: seq<string>

    function Value(): Resolution
      reads this
    {
      Resolution(olds, retired, replaced, dropped, unresolved, findings)
    }

    constructor ()
      ensures olds == retired == unresolved == findings == [] && replaced == map[] && dropped == map[]
    {
      olds, retired, replaced, dropped, unresolved, findings := [], [], map[], map[], [], [];
    }

    /** complete */
    predicate Complete()
      reads this
    {
      |unresolved| == 0 && |findings| == 0
    }

    /** The first loop of resolvePortMap: the declared tests and the retired ones. */
    method NoteRetired(s: Suites) returns (known: set<string>, oldTests: seq<string>)
      requires retired == []
      modifies this`retired, this`findings
      ensures known == Known(s)
      ensures oldTests == s.declared + Accepted(Members(s.declared), {}, s.retired)
      ensures retired == Accepted(Members(s.declared), {}, s.retired)
      ensures findings == old(findings) + Refused(Members(s.declared), {}, s.retired)
    {
      hide Accepted, Refused, RetiredTwice, StillDeclared;
      known := Members(s.declared);
      oldTests := s.declared;
      var seen: set<string> := {};
      ghost var declared := known;
      assert s.retired[0..] == s.retired;
      for i := 0 to |s.retired|
        invariant known == declared + Members(s.retired[..i])
        invariant seen <= known && known <= declared + seen && seen !! declared
        invariant oldTests == s.declared + retired
        invariant retired + Accepted(declared, seen, s.retired[i..]) == Accepted(declared, {}, s.retired)
        invariant findings + Refused(declared, seen, s.retired[i..]) == old(findings) + Refused(declared, {}, s.retired)
      {
        var name := s.retired[i];
        RetireNext(declared, seen, s.retired, i);
        assert s.retired[..i + 1] == s.retired[..i] + [name];
        if name in seen {
          findings := findings + [RetiredTwice(name)];
        } else if name in known {
          findings := findings + [StillDeclared(name)];
        } else {
          known := known + {name};
          seen := seen + {name};
          oldTests := oldTests + [name];
          retired := retired + [name];
        }
      }
      assert s.retired[|s.retired|..] == [] && s.retired[..|s.retired|] == s.retired;
      RetireOver(declared, seen);
    }

    /** One Replaces line. */
    method NoteLine(s: Suites, known: set<string>, newTest: string)
      requires newTest in s.lines && known == Known(s) && NoneEmpty(replaced)
      modifies this`replaced, this`findings
      ensures NoneEmpty(replaced)
      ensures LineNoted(known, newTest, s.lines[newTest], old(replaced), replaced)
      ensures multiset(findings) == multiset(old(findings)) + UnknownOf(s)(newTest)
    {
      hide Known, ReplacesUnknown, LineNoted, NoneEmpty;
      var olds := s.lines[newTest];
      NothingNoted(known, newTest, replaced);
      for i := 0 to |olds|
        invariant NoneEmpty(replaced) && LineNoted(known, newTest, olds[..i], old(replaced), replaced)
        invariant multiset(findings) == multiset(old(findings)) + UnknownIn(known, newTest, olds[..i])
      {
        var o := olds[i];
        assert olds[..i + 1] == olds[..i] + [o] && olds[..i + 1][..i] == olds[..i];
        OneMoreNoted(known, newTest, olds[..i], o, old(replaced), replaced);
        if o !in known {
          findings := findings + [ReplacesUnknown(newTest, o)];
          continue;
        }
        replaced := Added(replaced, o, newTest);
      }
      assert olds[..|olds|] == olds;
    }

    /** The loop over the Replaces lines, in whatever order the map gives them. */
    method NoteReplaces(s: Suites, known: set<string>)
      requires known == Known(s) && replaced == map[]
      modifies this`replaced, this`findings
      ensures NoneEmpty(replaced) && EntriesSum(s, s.lines.Keys, replaced)
      ensures multiset(findings) == multiset(old(findings)) + SumOver(s.lines.Keys, UnknownOf(s))
    {
      hide Known, UnknownOf, Named, NoneEmpty, Count, SumOver, EntriesSum, LineNoted;
      var left := s.lines.Keys;
      NoEntries(s);
      assert s.lines.Keys - left == {};
      while left != {}
        invariant left <= s.lines.Keys
        invariant NoneEmpty(replaced) && EntriesSum(s, s.lines.Keys - left, replaced)
        invariant multiset(findings) == multiset(old(findings)) + SumOver(s.lines.Keys - left, UnknownOf(s))
      {
        var newTest :| newTest in left;
        ghost var done := s.lines.Keys - left;
        left := left - {newTest};
        assert s.lines.Keys - left == done + {newTest};
        SumOverAdd(done, UnknownOf(s), newTest);
        ghost var before := replaced;
        NoteLine(s, known, newTest);
        OneMoreEntry(s, done, newTest, before, replaced);
      }
      assert s.lines.Keys - left == s.lines.Keys;
    }

    /** The loop that sorts the new tests of each old one. */
    method SortReplaced()
      requires NoneEmpty(replaced)
      modifies this`replaced
      ensures NoneEmpty(replaced) && AllSorted(replaced)
      ensures forall test, n :: Count(replaced, test, n) == Count(old(replaced), test, n)
    {
      hide Sort, Leq;
      var left := replaced.Keys;
      while left != {}
        invariant left <= replaced.Keys && NoneEmpty(replaced)
        invariant forall o | o in replaced && o !in left :: Sorted(replaced[o])
        invariant forall test, n :: Count(replaced, test, n) == Count(old(replaced), test, n)
      {
        var o :| o in left;
        left := left - {o};
        SortSorts(replaced[o]);
        replaced := replaced[o := Sort(replaced[o])];
      }
    }

    /** noteDrop */
    method NoteDrop(s: Suites, known: set<string>, name: string)
      requires name in s.drops && known == Known(s)
      modifies this`dropped, this`findings
      ensures multiset(findings) == multiset(old(findings)) + FindingOf(s, replaced)(name)
      ensures dropped == if DropFinding(s, Known(s), replaced, name) == [] then old(dropped)[name := s.drops[name]]
                         else old(dropped)
    {
      hide Known, CommaList;
      var drop := s.drops[name];
      if name !in known {
        findings := findings + ["drop declared for " + name + ", which the old suite does not have"];
      } else if drop.category !in s.categories {
        findings := findings + ["drop declared for " + name + " under the unknown category " + s.quote(drop.category)];
      } else if name in replaced && |replaced[name]| > 0 {
        findings := findings + [name + " is both dropped and replaced by " + CommaList(replaced[name])];
      } else {
        dropped := dropped[name := drop];
      }
    }

    /** The loop over the declared drops. */
    method NoteDrops(s: Suites, known: set<string>)
      requires known == Known(s) && dropped == map[]
      modifies this`dropped, this`findings
      ensures Drops(s, replaced, dropped)
      ensures multiset(findings) == multiset(old(findings)) + SumOver(s.drops.Keys, FindingOf(s, replaced))
    {
      hide Known, DropFinding, FindingOf, SumOver;
      var left := s.drops.Keys;
      assert s.drops.Keys - left == {};
      SumOfNothing(FindingOf(s, replaced));
      while left != {}
        invariant left <= s.drops.Keys
        invariant forall o :: o in dropped <==> o in s.drops.Keys - left && DropFinding(s, Known(s), replaced, o) == []
        invariant forall o | o in dropped && o in s.drops :: dropped[o] == s.drops[o]
        invariant multiset(findings) == multiset(old(findings)) + SumOver(s.drops.Keys - left, FindingOf(s, replaced))
      {
        var name :| name in left;
        ghost var done := s.drops.Keys - left;
        left := left - {name};
        assert s.drops.Keys - left == done + {name};
        SumOverAdd(done, FindingOf(s, replaced), name);
        NoteDrop(s, known, name);
      }
      assert s.drops.Keys - left == s.drops.Keys;
    }

    /** The last loop: what is neither replaced nor dropped. */
    method NoteUnresolved(oldTests: seq<string>)
      requires unresolved == []
      modifies this`unresolved
      ensures LeftOver(oldTests, replaced, dropped, unresolved)
    {
      for i := 0 to |oldTests|
        invariant LeftOver(oldTests[..i], replaced, dropped, unresolved)
      {
        var name := oldTests[i];
        assert oldTests[..i + 1] == oldTests[..i] + [name];
        if name in replaced || name in dropped {
          continue;
        }
        unresolved := unresolved + [name];
      }
      assert oldTests[..|oldTests|] == oldTests;
    }
  }

  /** resolvePortMap */
  method ResolvePortMap(s: Suites) returns (m: Map)
    ensures fresh(m) && Resolved(s, m.Value())
  {
    hide *;
    m := new Map();
    var known, oldTests := m.NoteRetired(s);
    SortedOldTests(s, oldTests, m.retired);
    oldTests := Sort(oldTests);
    m.retired := Sort(m.retired);
    m.olds := oldTests;
    m.NoteReplaces(s, known);
    ghost var unsorted := m.replaced;
    m.SortReplaced();
    SortedSuccessors(s, unsorted, m.replaced);
    m.NoteDrops(s, known);
    FindingsAddUp(s, m.replaced, m.findings);
    m.NoteUnresolved(oldTests);
    SortSorts(m.unresolved);
    SortSorts(m.findings);
    SortedEnds(s, m.olds, m.replaced, m.dropped, m.unresolved, m.findings);
    m.unresolved := Sort(m.unresolved);
    m.findings := Sort(m.findings);
    AllResolved(s, m);
  }

  lemma AllResolved(s: Suites, m: Map)
    requires OldTests(s, m.olds, m.retired) && Successors(s, m.replaced) && Drops(s, m.replaced, m.dropped)
    requires LeftOver(m.olds, m.replaced, m.dropped, m.unresolved) && Sorted(m.unresolved)
    requires FindingsSum(s, m.replaced, m.findings) && Sorted(m.findings)
    ensures Resolved(s, m.Value())
  {
    hide OldTests, Successors, Drops, LeftOver, FindingsSum, Sorted;
  }

  lemma FindingsAddUp(s: Suites, replaced: map<string, seq<string>>, findings: seq<string>)
    requires multiset(findings) == multiset([] + Refused(Members(s.declared), {}, s.retired))
                                 + SumOver(s.lines.Keys, UnknownOf(s)) + SumOver(s.drops.Keys, FindingOf(s, replaced))
    ensures FindingsSum(s, replaced, findings)
  {
    assert [] + Refused(Members(s.declared), {}, s.retired) == Refused(Members(s.declared), {}, s.retired);
  }

  lemma SortedOldTests(s: Suites, olds: seq<string>, retired: seq<string>)
    requires olds == s.declared + Accepted(Members(s.declared), {}, s.retired)
    requires retired == Accepted(Members(s.declared), {}, s.retired)
    ensures OldTests(s, Sort(olds), Sort(retired))
  {
    hide Accepted, Sort, Sorted;
    SortSorts(olds);
    SortSorts(retired);
  }

  lemma SortedSuccessors(s: Suites, before: map<string, seq<string>>, after: map<string, seq<string>>)
    requires EntriesSum(s, s.lines.Keys, before) && NoneEmpty(after) && AllSorted(after)
    requires forall test, n :: Count(after, test, n) == Count(before, test, n)
    ensures Successors(s, after)
  {
    hide Named, NoneEmpty, AllSorted, Count;
  }

  /** Sorting changes nothing about what is left over or found. */
  lemma SortedEnds(s: Suites, olds: seq<string>, replaced: map<string, seq<string>>, dropped: map<string, Drop>,
                   unresolved: seq<string>, findings: seq<string>)
    requires LeftOver(olds, replaced, dropped, unresolved) && FindingsSum(s, replaced, findings)
    ensures LeftOver(olds, replaced, dropped, Sort(unresolved)) && FindingsSum(s, replaced, Sort(findings))
  {
    SortSorts(unresolved);
    SortSorts(findings);
    hide Refused, UnknownOf, FindingOf, Sort, SumOver, Members;
  }

  lemma RetireNext(declared: set<string>, seen: set<string>, retired: seq<string>, i: nat)
    requires i < |retired|
    ensures var name, rest := retired[i], retired[i + 1..];
            if name in seen then
              && Accepted(declared, seen, retired[i..]) == Accepted(declared, seen, rest)
              && Refused(declared, seen, retired[i..]) == [RetiredTwice(name)] + Refused(declared, seen, rest)
            else if name in declared then
              && Accepted(declared, seen, retired[i..]) == Accepted(declared, seen, rest)
              && Refused(declared, seen, retired[i..]) == [StillDeclared(name)] + Refused(declared, seen, rest)
            else
              && Accepted(declared, seen, retired[i..]) == [name] + Accepted(declared, seen + {name}, rest)
              && Refused(declared, seen, retired[i..]) == Refused(declared, seen + {name}, rest)
  {
    assert retired[i..][1..] == retired[i + 1..];
  }

  lemma RetireOver(declared: set<string>, seen: set<string>)
    ensures Accepted(declared, seen, []) == [] && Refused(declared, seen, []) == []
  {}

  lemma SumOfNothing(f: string -> multiset<string>)
    ensures SumOver({}, f) == multiset{}
  {}

  lemma NoEntries(s: Suites)
    ensures EntriesSum(s, {}, map[]) && NoneEmpty(map[]) && SumOver({}, UnknownOf(s)) == multiset{}
  {}

  lemma OneMoreEntry(s: Suites, done: set<string>, newTest: string, before: map<string, seq<string>>,
                     after: map<string, seq<string>>)
    requires newTest !in done && EntriesSum(s, done, before)
    requires newTest in s.lines && LineNoted(Known(s), newTest, s.lines[newTest], before, after)
    ensures EntriesSum(s, done + {newTest}, after)
  {
    hide Count, Known;
  }

  // ---------------------------------------------------------------- one answer

  lemma ReplacedUnique(mine: map<string, seq<string>>, theirs: map<string, seq<string>>)
    requires NoneEmpty(mine) && NoneEmpty(theirs) && AllSorted(mine) && AllSorted(theirs)
    requires forall test, n :: Count(mine, test, n) == Count(theirs, test, n)
    ensures mine == theirs
  {
    hide Sorted;
    forall test ensures test in mine <==> test in theirs {
      EntryNames(mine, test);
      EntryNames(theirs, test);
    }
    forall test | test in mine ensures mine[test] == theirs[test] {
      forall n ensures multiset(mine[test])[n] == multiset(theirs[test])[n] {
        assert Count(mine, test, n) == Count(theirs, test, n);
      }
      assert multiset(mine[test]) == multiset(theirs[test]);
      SortedUnique(mine[test], theirs[test]);
    }
  }

  lemma EntryNames(replaced: map<string, seq<string>>, test: string)
    requires NoneEmpty(replaced)
    ensures test in replaced <==> exists n :: Count(replaced, test, n) > 0
  {
    if test in replaced {
      assert Count(replaced, test, replaced[test][0]) > 0;
    }
  }

  /** The result does not depend on the order the maps were walked in: one resolution fits. */
  lemma ResolvedUnique(s: Suites, mine: Resolution, theirs: Resolution)
    requires Resolved(s, mine) && Resolved(s, theirs)
    ensures mine == theirs
  {
    hide Accepted, Refused, UnknownOf, Named, FindingOf, DropFinding, SumOver, AllSorted, NoneEmpty, Sorted, Count;
    assert forall test, n :: Count(mine.replaced, test, n) == Count(theirs.replaced, test, n);
    ReplacedUnique(mine.replaced, theirs.replaced);
    SortedUnique(mine.olds, theirs.olds);
    SortedUnique(mine.retired, theirs.retired);
    assert mine.dropped == theirs.dropped;
    assert multiset(mine.unresolved) == multiset(theirs.unresolved);
    SortedUnique(mine.unresolved, theirs.unresolved);
    SortedUnique(mine.findings, theirs.findings);
  }

  // ---------------------------------------------------------------- what the answer says

  /** Some Replaces line of a new test names an old one. */
  ghost predicate Claimed(s: Suites, test: string) {
    exists newTest | newTest in s.lines :: test in s.lines[newTest]
  }

  lemma ReplacedIff(s: Suites, r: Resolution, test: string)
    requires Successors(s, r.replaced)
    ensures test in r.replaced <==> test in Known(s) && Claimed(s, test)
    ensures test in r.replaced ==> forall newTest ::
              newTest in r.replaced[test] <==> newTest in s.lines && test in s.lines[newTest]
  {
    hide Known, AllSorted, NoneEmpty;
    EntryNames(r.replaced, test);
    forall n
      ensures Count(r.replaced, test, n) > 0 <==> n in s.lines && test in Known(s) && test in s.lines[n]
    {
      assert Count(r.replaced, test, n) == Named(s, s.lines.Keys, test, n);
    }
    hide Named, EntriesSum;
    if test in r.replaced {
      assert forall n :: n in r.replaced[test] <==> Count(r.replaced, test, n) > 0;
    }
  }

  /** The categories a drop may have are met by every drop that stands. */
  ghost predicate GoodDrop(s: Suites, test: string) {
    test in s.drops && test in Known(s) && s.drops[test].category in s.categories && !Claimed(s, test)
  }

  lemma DroppedIff(s: Suites, r: Resolution, test: string)
    requires Resolved(s, r)
    ensures test in r.dropped <==> GoodDrop(s, test)
  {
    ReplacedIff(s, r, test);
    hide Known, EntriesSum, Count, Claimed, CommaList;
  }

  lemma {:induction false} AcceptedAre(declared: set<string>, seen: set<string>, retired: seq<string>)
    ensures forall name :: name in Accepted(declared, seen, retired)
                      <==> name in retired && name !in declared && name !in seen
    decreases |retired|
  {
    if retired == [] {
    } else {
      assert retired == [retired[0]] + retired[1..];
      var next := if retired[0] in seen || retired[0] in declared then seen else seen + {retired[0]};
      AcceptedAre(declared, next, retired[1..]);
    }
  }

  lemma OldIsKnown(s: Suites, r: Resolution, name: string)
    requires Resolved(s, r)
    ensures name in r.olds <==> name in Known(s)
  {
    hide Accepted, Successors, Sorted, Drops, LeftOver, FindingsSum;
    AcceptedAre(Members(s.declared), {}, s.retired);
    assert name in multiset(r.olds) <==> name in multiset(s.declared + Accepted(Members(s.declared), {}, s.retired));
  }

  /** Every old test is in exactly one of the three places, and nothing else is in any. */
  lemma Partitioned(s: Suites, r: Resolution, name: string)
    requires Resolved(s, r)
    ensures !(name in r.replaced && name in r.dropped)
    ensures !(name in r.replaced && name in r.unresolved) && !(name in r.dropped && name in r.unresolved)
    ensures name in r.olds <==> name in r.replaced || name in r.dropped || name in r.unresolved
    ensures name in r.olds <==> name in s.declared || name in s.retired
    ensures name in r.replaced <==> (name in s.declared || name in s.retired) && Claimed(s, name)
    ensures name in r.dropped <==> GoodDrop(s, name)
  {
    OldIsKnown(s, r, name);
    ReplacedIff(s, r, name);
    DroppedIff(s, r, name);
    assert name in r.unresolved <==> multiset(r.unresolved)[name] > 0;
    assert name in r.olds <==> multiset(r.olds)[name] > 0;
    hide Claimed, Successors, Accepted, Drops, FindingsSum;
  }

  // ---------------------------------------------------------------- when the gate passes

  lemma {:induction false} RefusedNone(declared: set<string>, seen: set<string>, retired: seq<string>)
    ensures Refused(declared, seen, retired) == []
      <==> NoRepeats(retired) && forall name | name in retired :: name !in declared && name !in seen
    decreases |retired|
  {
    hide RetiredTwice, StillDeclared;
    if retired == [] {
    } else {
      var rest := retired[1..];
      assert retired == [retired[0]] + rest;
      RefusedNone(declared, seen + {retired[0]}, rest);
      NoRepeatsCons(retired[0], rest);
      assert retired[0] in retired;
      assert forall name :: name in retired <==> name == retired[0] || name in rest;
    }
  }

  lemma NoRepeatsCons(first: string, rest: seq<string>)
    ensures NoRepeats([first] + rest) <==> first !in rest && NoRepeats(rest)
  {
    var all := [first] + rest;
    assert all[0] == first && forall i | 0 <= i < |rest| :: all[i + 1] == rest[i];
    if NoRepeats(all) {
      forall i, j | 0 <= i < j < |rest| ensures rest[i] != rest[j] {
        assert all[i + 1] != all[j + 1];
      }
      forall i | 0 <= i < |rest| ensures rest[i] != first {
        assert all[0] != all[i + 1];
      }
    }
  }

  lemma {:induction false} UnknownNone(known: set<string>, newTest: string, olds: seq<string>)
    ensures UnknownIn(known, newTest, olds) == multiset{} <==> forall test | test in olds :: test in known
  {
    hide ReplacesUnknown;
    if olds == [] {
    } else {
      var front, last := olds[..|olds| - 1], olds[|olds| - 1];
      UnknownNone(known, newTest, front);
      assert olds == front + [last];
      assert last in olds;
      assert UnknownIn(known, newTest, olds)
          == UnknownIn(known, newTest, front) + if last in known then multiset{} else multiset{ReplacesUnknown(newTest, last)};
      if last !in known {
        assert ReplacesUnknown(newTest, last) in UnknownIn(known, newTest, olds);
      }
    }
  }

  lemma SumOverNone(keys: set<string>, f: string -> multiset<string>)
    ensures SumOver(keys, f) == multiset{} <==> forall key | key in keys :: f(key) == multiset{}
  {
    forall x ensures x in SumOver(keys, f) <==> exists key | key in keys :: x in f(key) {
      SumOverHolds(keys, f, x);
    }
    hide SumOver;
    forall key | key in keys && f(key) != multiset{} ensures SumOver(keys, f) != multiset{} {
      var x :| x in f(key);
      assert x in SumOver(keys, f);
    }
    if SumOver(keys, f) != multiset{} {
      var x :| x in SumOver(keys, f);
    }
  }

  ghost predicate CleanRetired(s: Suites) {
    NoRepeats(s.retired) && forall name | name in s.retired :: name !in s.declared
  }

  ghost predicate CleanReplaces(s: Suites) {
    forall newTest, test | newTest in s.lines && test in s.lines[newTest] :: test in Known(s)
  }

  ghost predicate CleanDrops(s: Suites) {
    forall test | test in s.drops :: GoodDrop(s, test)
  }

  lemma ReplacesNone(s: Suites)
    ensures SumOver(s.lines.Keys, UnknownOf(s)) == multiset{} <==> CleanReplaces(s)
  {
    hide SumOver, Known, UnknownIn;
    SumOverNone(s.lines.Keys, UnknownOf(s));
    forall newTest | newTest in s.lines
      ensures UnknownOf(s)(newTest) == multiset{} <==> forall test | test in s.lines[newTest] :: test in Known(s)
    {
      UnknownNone(Known(s), newTest, s.lines[newTest]);
    }
  }

  lemma DropsNone(s: Suites, r: Resolution)
    requires Resolved(s, r)
    ensures SumOver(s.drops.Keys, FindingOf(s, r.replaced)) == multiset{} <==> CleanDrops(s)
  {
    SumOverNone(s.drops.Keys, FindingOf(s, r.replaced));
    forall test | test in s.drops ensures FindingOf(s, r.replaced)(test) == multiset{} <==> GoodDrop(s, test) {
      DroppedIff(s, r, test);
      assert FindingOf(s, r.replaced)(test) == multiset(DropFinding(s, Known(s), r.replaced, test));
      hide SumOver, GoodDrop, DropFinding;
    }
    hide SumOver, GoodDrop, DropFinding;
  }

  /** Findings are reported exactly when a retirement, a Replaces line or a drop is wrong. */
  lemma FindingsIff(s: Suites, r: Resolution)
    requires Resolved(s, r)
    ensures r.findings == [] <==> CleanRetired(s) && CleanReplaces(s) && CleanDrops(s)
  {
    RefusedNone(Members(s.declared), {}, s.retired);
    ReplacesNone(s);
    DropsNone(s, r);
    var refused := Refused(Members(s.declared), {}, s.retired);
    assert forall name | name in s.retired :: name in Members(s.declared) <==> name in s.declared;
    hide SumOver, Refused, GoodDrop, Known, Successors, LeftOver, Drops, OldTests;
    assert r.findings == [] <==> multiset(r.findings) == multiset{};
    assert refused == [] <==> multiset(refused) == multiset{};
  }

  // ---------------------------------------------------------------- which findings

  /** A retired name that is still declared, or one that is not and is retired before as well. */
  ghost predicate RetiredWrongly(declared: set<string>, seen: set<string>, retired: seq<string>, name: string, text: string) {
    if name in declared then text == name + " is retired and still declared in the old suite"
    else (name in seen || multiset(retired)[name] >= 2) && text == name + " is retired twice"
  }

  lemma {:induction false} RefusedAre(declared: set<string>, seen: set<string>, retired: seq<string>, text: string)
    requires seen !! declared
    ensures text in Refused(declared, seen, retired)
      <==> exists name | name in retired :: RetiredWrongly(declared, seen, retired, name, text)
    decreases |retired|
  {
    if retired == [] {
    } else {
      var first, rest := retired[0], retired[1..];
      var next := if first in seen || first in declared then seen else seen + {first};
      assert retired == [first] + rest;
      RefusedAre(declared, next, rest, text);
      RetiredFirst(declared, seen, retired, text);
      RefusedFirst(declared, seen, retired, text);
      hide Refused, RetiredWrongly;
      forall name | name in rest && RetiredWrongly(declared, next, rest, name, text)
        ensures RetiredWrongly(declared, seen, retired, name, text)
      {
        RetiredBehind(declared, seen, retired, name, text);
      }
      forall name | name in retired && RetiredWrongly(declared, seen, retired, name, text)
        ensures text in Refused(declared, seen, retired)
      {
        RetiredBehind(declared, seen, retired, name, text);
      }
    }
  }

  lemma RefusedFirst(declared: set<string>, seen: set<string>, retired: seq<string>, text: string)
    requires retired != [] && seen !! declared
    ensures var first := retired[0];
            var next := if first in seen || first in declared then seen else seen + {first};
            (text in Refused(declared, seen, retired)
             <==> || (first in seen && text == RetiredTwice(first))
                  || (first in declared && text == StillDeclared(first))
                  || text in Refused(declared, next, retired[1..]))
  {
    hide RetiredTwice, StillDeclared;
  }

  lemma RetiredFirst(declared: set<string>, seen: set<string>, retired: seq<string>, text: string)
    requires retired != [] && seen !! declared
    ensures RetiredTwice(retired[0]) == retired[0] + " is retired twice"
    ensures StillDeclared(retired[0]) == retired[0] + " is retired and still declared in the old suite"
    ensures retired[0] in seen && text == RetiredTwice(retired[0]) ==> RetiredWrongly(declared, seen, retired, retired[0], text)
    ensures retired[0] in declared && text == StillDeclared(retired[0])
      ==> RetiredWrongly(declared, seen, retired, retired[0], text)
  {}

  /** What is wrong with a name of a list is wrong with its first name, or with a name of the rest once the first is seen. */
  lemma RetiredBehind(declared: set<string>, seen: set<string>, retired: seq<string>, name: string, text: string)
    requires retired != [] && seen !! declared && name in retired
    ensures var first, rest := retired[0], retired[1..];
            var next := if first in seen || first in declared then seen else seen + {first};
            && (name in rest && RetiredWrongly(declared, next, rest, name, text)
                ==> RetiredWrongly(declared, seen, retired, name, text))
            && (RetiredWrongly(declared, seen, retired, name, text)
                ==> || (name == first && first in seen && text == RetiredTwice(first))
                    || (name == first && first in declared && text == StillDeclared(first))
                    || (name in rest && RetiredWrongly(declared, next, rest, name, text)))
  {
    assert retired == [retired[0]] + retired[1..];
    assert multiset(retired) == multiset{retired[0]} + multiset(retired[1..]);
    assert name in retired[1..] <==> multiset(retired[1..])[name] > 0;
  }

  lemma {:induction false} UnknownAre(known: set<string>, newTest: string, olds: seq<string>, text: string)
    ensures text in UnknownIn(known, newTest, olds)
      <==> exists test | test in olds ::
             test !in known && text == newTest + " replaces " + test + ", which the old suite does not have"
  {
    if olds == [] {
    } else {
      var front, last := olds[..|olds| - 1], olds[|olds| - 1];
      assert olds == front + [last];
      UnknownAre(known, newTest, front, text);
      UnknownLast(known, newTest, olds, text);
      hide UnknownIn, ReplacesUnknown;
    }
  }

  lemma UnknownLast(known: set<string>, newTest: string, olds: seq<string>, text: string)
    requires olds != []
    ensures var front, last := olds[..|olds| - 1], olds[|olds| - 1];
            (text in UnknownIn(known, newTest, olds)
             <==> || text in UnknownIn(known, newTest, front)
                  || (last !in known && text == newTest + " replaces " + last + ", which the old suite does not have"))
  {
    assert ReplacesUnknown(newTest, olds[|olds| - 1])
        == newTest + " replaces " + olds[|olds| - 1] + ", which the old suite does not have";
    hide ReplacesUnknown;
  }

  /** What is wrong with a declared drop: no such old test, or no such category, or a test that has successors too. */
  ghost predicate DroppedWrongly(s: Suites, r: Resolution, test: string, text: string)
    requires test in s.drops
  {
    if test !in s.declared && test !in s.retired then
      text == "drop declared for " + test + ", which the old suite does not have"
    else if s.drops[test].category !in s.categories then
      text == "drop declared for " + test + " under the unknown category " + s.quote(s.drops[test].category)
    else
      Claimed(s, test) && test in r.replaced
      && text == test + " is both dropped and replaced by " + CommaList(r.replaced[test])
  }

  /** The new tests that replace a dropped one are named one after the other, with a comma and a space between. */
  lemma CommaListIs(first: string, rest: seq<string>)
    ensures CommaList([first]) == first
    ensures rest != [] ==> CommaList([first] + rest) == first + ", " + CommaList(rest)
  {
    assert ([first] + rest)[1..] == rest;
  }

  lemma DropFindingIs(s: Suites, r: Resolution, test: string, text: string)
    requires Resolved(s, r) && test in s.drops
    ensures text in DropFinding(s, Known(s), r.replaced, test) <==> DroppedWrongly(s, r, test, text)
  {
    ReplacedIff(s, r, test);
    SomeReplacement(s, r, test);
    hide EntriesSum, Count, Claimed, CommaList, Resolved;
  }

  lemma SomeReplacement(s: Suites, r: Resolution, test: string)
    requires Resolved(s, r)
    ensures test in r.replaced ==> r.replaced[test] != []
  {}

  /** A line replaces a test the old suite does not have. */
  ghost predicate LineNamesUnknown(s: Suites, newTest: string, text: string)
    requires newTest in s.lines
  {
    exists test | test in s.lines[newTest] ::
      && test !in s.declared && test !in s.retired
      && text == newTest + " replaces " + test + ", which the old suite does not have"
  }

  lemma LineFindings(s: Suites, text: string)
    ensures text in SumOver(s.lines.Keys, UnknownOf(s))
      <==> exists newTest | newTest in s.lines :: LineNamesUnknown(s, newTest, text)
  {
    hide SumOver, UnknownIn, LineNamesUnknown;
    SumOverHolds(s.lines.Keys, UnknownOf(s), text);
    forall newTest | newTest in s.lines ensures text in UnknownOf(s)(newTest) <==> LineNamesUnknown(s, newTest, text) {
      LineFinding(s, newTest, text);
    }
    hide UnknownOf;
  }

  lemma LineFinding(s: Suites, newTest: string, text: string)
    requires newTest in s.lines
    ensures text in UnknownOf(s)(newTest) <==> LineNamesUnknown(s, newTest, text)
  {
    hide UnknownIn;
    UnknownAre(Known(s), newTest, s.lines[newTest], text);
  }

  lemma DropFindings(s: Suites, r: Resolution, text: string)
    requires Resolved(s, r)
    ensures text in SumOver(s.drops.Keys, FindingOf(s, r.replaced))
      <==> exists test | test in s.drops :: DroppedWrongly(s, r, test, text)
  {
    hide SumOver, DropFinding, DroppedWrongly, Resolved;
    SumOverHolds(s.drops.Keys, FindingOf(s, r.replaced), text);
    forall test | test in s.drops
      ensures text in FindingOf(s, r.replaced)(test) <==> DroppedWrongly(s, r, test, text)
    {
      DropFindingIs(s, r, test, text);
      assert FindingOf(s, r.replaced)(test) == multiset(DropFinding(s, Known(s), r.replaced, test));
    }
    hide FindingOf;
  }

  lemma FoundInOne(s: Suites, r: Resolution, text: string)
    requires Resolved(s, r)
    ensures text in r.findings
      <==> || text in Refused(Members(s.declared), {}, s.retired) || text in SumOver(s.lines.Keys, UnknownOf(s))
           || text in SumOver(s.drops.Keys, FindingOf(s, r.replaced))
  {
    hide Refused, SumOver, OldTests, Successors, Drops, LeftOver, UnknownOf, FindingOf;
    assert text in r.findings <==> text in multiset(r.findings);
  }

  /** A finding is reported exactly when one of the three inputs is wrong in the way its text says. */
  lemma FindingsAre(s: Suites, r: Resolution, text: string)
    requires Resolved(s, r)
    ensures text in r.findings
      <==> || (exists name | name in s.retired :: RetiredWrongly(Members(s.declared), {}, s.retired, name, text))
           || (exists newTest | newTest in s.lines :: LineNamesUnknown(s, newTest, text))
           || (exists test | test in s.drops :: DroppedWrongly(s, r, test, text))
  {
    hide *;
    FoundInOne(s, r, text);
    RefusedAre(Members(s.declared), {}, s.retired, text);
    LineFindings(s, text);
    DropFindings(s, r, text);
  }

  /** complete: nothing is wrong, and every old test has a successor or a declared drop. */
  lemma CompleteIff(s: Suites, m: Map)
    requires Resolved(s, m.Value())
    ensures m.Complete()
      <==> && CleanRetired(s) && CleanReplaces(s) && CleanDrops(s)
           && forall name | name in Known(s) :: Claimed(s, name) || name in s.drops
  {
    var r := m.Value();
    FindingsIff(s, r);
    forall name ensures name in r.unresolved <==> name in Known(s) && !Claimed(s, name) && !GoodDrop(s, name) {
      Partitioned(s, r, name);
    }
    hide Resolved, Claimed, CleanRetired, CleanReplaces, Known;
    if r.unresolved != [] {
      assert r.unresolved[0] in r.unresolved;
    }
  }
}
