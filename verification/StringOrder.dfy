/** Strings in the order Go sorts them, byte by byte, and sorted lists as answers that do not depend on how they grew. */
module StringOrder {

  predicate Leq(a: string, b: string) {
    a == "" || (b != "" && (a[0] < b[0] || (a[0] == b[0] && Leq(a[1..], b[1..]))))
  }

  /** At the first place where two texts differ, the character of the one is smaller. */
  ghost predicate Smaller(a: string, b: string) {
    exists i | 0 <= i < |a| && i < |b| :: a[..i] == b[..i] && a[i] < b[i]
  }

  lemma SmallerBehind(c: char, a: string, b: string)
    ensures Smaller([c] + a, [c] + b) <==> Smaller(a, b)
  {
    var x, y := [c] + a, [c] + b;
    forall i | 0 <= i < |a| && i < |b| ensures a[..i] == b[..i] <==> x[..i + 1] == y[..i + 1] {
      assert x[..i + 1] == [c] + a[..i] && y[..i + 1] == [c] + b[..i];
      assert x[..i + 1][1..] == a[..i] && y[..i + 1][1..] == b[..i];
    }
    if Smaller(a, b) {
      var i :| 0 <= i < |a| && i < |b| && a[..i] == b[..i] && a[i] < b[i];
      assert x[..i + 1] == y[..i + 1] && x[i + 1] < y[i + 1];
    }
    if Smaller(x, y) {
      var i :| 0 <= i < |x| && i < |y| && x[..i] == y[..i] && x[i] < y[i];
      assert a[..i - 1] == b[..i - 1] && a[i - 1] < b[i - 1];
    }
  }

  lemma SmallerAtOnce(a: string, b: string)
    requires a != "" && b != "" && a[0] != b[0]
    ensures Smaller(a, b) <==> a[0] < b[0]
  {
    assert a[..0] == b[..0];
    assert forall i | 0 < i < |a| && i < |b| :: a[..i][0] != b[..i][0];
  }

  /** A text comes before what it is a prefix of; otherwise the first character that differs decides. */
  lemma {:induction false} LeqIsLexical(a: string, b: string)
    ensures Leq(a, b) <==> a <= b || Smaller(a, b)
  {
    if a == "" || b == "" {
    } else if a[0] != b[0] {
      SmallerAtOnce(a, b);
    } else {
      LeqIsLexical(a[1..], b[1..]);
      SmallerBehind(a[0], a[1..], b[1..]);
      hide Smaller;
      assert a == [a[0]] + a[1..] && b == [b[0]] + b[1..];
    }
  }

  lemma {:induction false} LeqReflexive(a: string)
    ensures Leq(a, a)
  {
    if a == "" {
    } else {
      LeqReflexive(a[1..]);
    }
  }

  lemma {:induction false} LeqAntisymmetric(a: string, b: string)
    requires Leq(a, b) && Leq(b, a)
    ensures a == b
  {
    if a == "" {
    } else {
      LeqAntisymmetric(a[1..], b[1..]);
      assert a == [a[0]] + a[1..] && b == [b[0]] + b[1..];
    }
  }

  lemma {:induction false} LeqTransitive(a: string, b: string, c: string)
    requires Leq(a, b) && Leq(b, c)
    ensures Leq(a, c)
  {
    if a != "" && a[0] == b[0] == c[0] {
      LeqTransitive(a[1..], b[1..], c[1..]);
    }
  }

  lemma {:induction false} LeqTotal(a: string, b: string)
    ensures Leq(a, b) || Leq(b, a)
  {
    if a != "" && b != "" && a[0] == b[0] {
      LeqTotal(a[1..], b[1..]);
    }
  }

  ghost predicate Sorted(xs: seq<string>) {
    forall i, j | 0 <= i < j < |xs| :: Leq(xs[i], xs[j])
  }

  function Insert(x: string, sorted: seq<string>): seq<string> {
    if sorted == [] || Leq(x, sorted[0]) then [x] + sorted else [sorted[0]] + Insert(x, sorted[1..])
  }

  /** sort.Strings and slices.Sort */
  function Sort(xs: seq<string>): seq<string> {
    if xs == [] then [] else Insert(xs[0], Sort(xs[1..]))
  }

  lemma {:induction false} InsertKeeps(x: string, sorted: seq<string>)
    ensures multiset(Insert(x, sorted)) == multiset{x} + multiset(sorted)
  {
    if sorted != [] && !Leq(x, sorted[0]) {
      InsertKeeps(x, sorted[1..]);
      assert sorted == [sorted[0]] + sorted[1..];
    } else {
      assert multiset([x] + sorted) == multiset{x} + multiset(sorted);
    }
  }

  lemma SortedCons(x: string, rest: seq<string>)
    requires Sorted(rest) && forall y | y in multiset(rest) :: Leq(x, y)
    ensures Sorted([x] + rest)
  {
    hide Leq;
    assert forall i | 0 <= i < |rest| :: rest[i] in multiset(rest);
  }

  lemma {:induction false} InsertSorted(x: string, sorted: seq<string>)
    requires Sorted(sorted)
    ensures Sorted(Insert(x, sorted))
  {
    hide Leq;
    if sorted == [] {
      assert Insert(x, sorted) == [x] + [];
    } else if Leq(x, sorted[0]) {
      forall y | y in multiset(sorted) ensures Leq(x, y) {
        var i :| 0 <= i < |sorted| && sorted[i] == y;
        if i > 0 {
          LeqTransitive(x, sorted[0], y);
        }
      }
      SortedCons(x, sorted);
    } else {
      LeqTotal(x, sorted[0]);
      InsertSorted(x, sorted[1..]);
      InsertKeeps(x, sorted[1..]);
      forall y | y in multiset(Insert(x, sorted[1..])) ensures Leq(sorted[0], y) {
        if y != x {
          assert y in sorted[1..];
        }
      }
      SortedCons(sorted[0], Insert(x, sorted[1..]));
    }
  }

  /** Sorting keeps what it sorts and orders it. */
  lemma {:induction false} SortSorts(xs: seq<string>)
    ensures Sorted(Sort(xs)) && multiset(Sort(xs)) == multiset(xs)
    ensures forall x :: x in Sort(xs) <==> x in xs
  {
    if xs == [] {
    } else {
      SortSorts(xs[1..]);
      InsertSorted(xs[0], Sort(xs[1..]));
      InsertKeeps(xs[0], Sort(xs[1..]));
      assert xs == [xs[0]] + xs[1..];
    }
    forall x ensures x in Sort(xs) <==> x in xs {
      assert x in multiset(Sort(xs)) <==> x in multiset(xs);
    }
  }

  lemma TailOf(xs: seq<string>)
    requires xs != []
    ensures multiset(xs[1..]) == multiset(xs) - multiset{xs[0]}
  {
    assert xs == [xs[0]] + xs[1..];
  }

  lemma SortedFirst(xs: seq<string>, y: string)
    requires Sorted(xs) && y in multiset(xs)
    ensures Leq(xs[0], y)
  {
    hide Leq;
    var i :| 0 <= i < |xs| && xs[i] == y;
    LeqReflexive(y);
  }

  /** A sorted list is determined by what it holds and how often. */
  lemma {:induction false} SortedUnique(xs: seq<string>, ys: seq<string>)
    requires Sorted(xs) && Sorted(ys) && multiset(xs) == multiset(ys)
    ensures xs == ys
    decreases |xs|
  {
    hide Leq;
    assert |xs| == |multiset(xs)| == |multiset(ys)| == |ys|;
    if xs == [] {
    } else {
      assert xs[0] in multiset(xs) && ys[0] in multiset(ys);
      SortedFirst(xs, ys[0]);
      SortedFirst(ys, xs[0]);
      LeqAntisymmetric(xs[0], ys[0]);
      TailOf(xs);
      TailOf(ys);
      SortedUnique(xs[1..], ys[1..]);
      assert xs == [xs[0]] + xs[1..] && ys == [ys[0]] + ys[1..];
    }
  }

  ghost predicate NoRepeats(xs: seq<string>) {
    forall i, j | 0 <= i < j < |xs| :: xs[i] != xs[j]
  }

  /** A sorted list without repeats is determined by what it holds. */
  lemma {:induction false} SortedSetUnique(xs: seq<string>, ys: seq<string>)
    requires Sorted(xs) && Sorted(ys) && NoRepeats(xs) && NoRepeats(ys)
    requires forall x :: x in xs <==> x in ys
    ensures xs == ys
  {
    hide Leq;
    forall x ensures multiset(xs)[x] == multiset(ys)[x] {
      CountOnce(xs, x);
      CountOnce(ys, x);
    }
    assert multiset(xs) == multiset(ys);
    SortedUnique(xs, ys);
  }

  lemma {:induction false} CountOnce(xs: seq<string>, x: string)
    requires NoRepeats(xs)
    ensures multiset(xs)[x] == if x in xs then 1 else 0
  {
    if xs == [] {
    } else {
      assert xs == [xs[0]] + xs[1..];
      CountOnce(xs[1..], x);
    }
  }

  // ---------------------------------------------------------------- sorted lists that stand for sets

  /** slices.Compact: of a run of equal elements the first. */
  function Compact(xs: seq<string>): seq<string> {
    if |xs| <= 1 then xs
    else if xs[0] == xs[1] then Compact(xs[1..])
    else [xs[0]] + Compact(xs[1..])
  }

  lemma {:induction false} CompactKeepsOnce(xs: seq<string>)
    requires Sorted(xs)
    ensures Sorted(Compact(xs)) && NoRepeats(Compact(xs))
    ensures forall x :: x in Compact(xs) <==> x in xs
  {
    hide Leq;
    if |xs| <= 1 {
    } else {
      var rest := xs[1..];
      CompactKeepsOnce(rest);
      assert xs == [xs[0]] + rest;
      if xs[0] == xs[1] {
        assert xs[0] == rest[0];
      } else {
        forall y | y in rest ensures Leq(xs[0], y) && y != xs[0] {
          BeyondFirst(xs, y);
        }
      }
    }
  }

  lemma BeyondFirst(xs: seq<string>, y: string)
    requires Sorted(xs) && |xs| > 1 && xs[0] != xs[1] && y in xs[1..]
    ensures Leq(xs[0], y) && y != xs[0]
  {
    hide Leq;
    var i :| 1 <= i < |xs| && xs[i] == y;
    if i > 1 && y == xs[0] {
      LeqAntisymmetric(xs[0], xs[1]);
    }
  }

  /** mergeSorted: two name lists as one sorted list without repeats. */
  function MergeSorted(existing: seq<string>, more: seq<string>): seq<string> {
    Compact(Sort(existing + more))
  }

  lemma MergeSortedUnion(existing: seq<string>, more: seq<string>)
    ensures Sorted(MergeSorted(existing, more)) && NoRepeats(MergeSorted(existing, more))
    ensures forall x :: x in MergeSorted(existing, more) <==> x in existing || x in more
  {
    hide Sort, Compact, Leq;
    SortSorts(existing + more);
    CompactKeepsOnce(Sort(existing + more));
  }
}
