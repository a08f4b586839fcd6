/**
  A cell of the coverage table and the credits it gathers, which add up the same in whatever order they come.
*/
module Cells {
  import opened CallRecords
  import opened Outcomes

  datatype ShapeKey = ShapeKey(surface: string, mode: string)

  /** An action on one surface in one mode. */
  datatype ActionKey = ActionKey(shape: ShapeKey, action: string)

  datatype Kind = Resources | Prompts | Completions | Subscriptions | ToolManifest | Elicitation | Modes

  /** A capability item at its kind's grain, coordinates the kind does not vary along left empty. */
  datatype CapabilityKey = CapabilityKey(kind: Kind, shape: ShapeKey, capabilities: string, item: string)

  const NO_SHAPE := ShapeKey("", "")

  /** capabilityKey, over capabilityGrains */
  function KeyFor(kind: Kind, shape: ShapeKey, capabilities: string, item: string): CapabilityKey {
    match kind
    case Elicitation => CapabilityKey(kind, shape, "", item)
    case Modes => CapabilityKey(kind, shape, "", item)
    case ToolManifest => CapabilityKey(kind, shape, capabilities, item)
    case _ => CapabilityKey(kind, NO_SHAPE, capabilities, item)
  }

  datatype Cell = Cell(
    best: Credit, tests: map<Credit, set<string>>, counts: map<Credit, nat>, state: Option<State>, unlisted: bool)

  const NEW_CELL := Cell(NoCredit, map[], map[], None, false)

  function CountOf(c: Cell, credit: Credit): nat {
    if credit in c.counts then c.counts[credit] else 0
  }

  function TestsOf(c: Cell, credit: Credit): set<string> {
    if credit in c.tests then c.tests[credit] else {}
  }

  function Bumped(counts: map<Credit, nat>, earned: Credit): map<Credit, nat> {
    counts[earned := (if earned in counts then counts[earned] else 0) + 1]
  }

  function Behind(tests: map<Credit, set<string>>, earned: Credit, test: string): map<Credit, set<string>> {
    tests[earned := (if earned in tests then tests[earned] else {}) + {test}]
  }

  /** cell.add */
  function Add(c: Cell, earned: Credit, test: string): Cell {
    if earned == NoCredit then c
    else c.(
      counts := Bumped(c.counts, earned),
      tests := Behind(c.tests, earned, test),
      best := Better(c.best, earned))
  }

  /** The best credit is the highest one counted, and a credit is counted exactly when some test is behind it. */
  ghost predicate Consistent(c: Cell) {
    && c.tests.Keys == c.counts.Keys
    && (c.best == NoCredit <==> c.counts == map[])
    && (c.best != NoCredit ==> c.best in c.counts)
    && forall e | e in c.counts ::
         e != NoCredit && c.counts[e] > 0 && Rank(e) <= Rank(c.best) && (e in c.tests ==> c.tests[e] != {})
  }

  lemma AddConsistent(c: Cell, earned: Credit, test: string)
    requires Consistent(c)
    ensures Consistent(Add(c, earned, test))
  {
    hide Rank;
    if earned != NoCredit {
      var after := Add(c, earned, test);
      assert earned in after.counts;
      RankTellsCredits(c.best, earned);
      NoCreditIsLeast(earned);
      forall e | e in after.counts
        ensures e != NoCredit && after.counts[e] > 0 && Rank(e) <= Rank(after.best) && after.tests[e] != {}
      {
        assert test in after.tests[earned];
        if e != earned {
          assert e in c.counts && c.tests[e] != {};
        }
      }
    }
  }

  lemma NoCreditIsLeast(e: Credit)
    ensures Rank(NoCredit) <= Rank(e)
    ensures e != NoCredit ==> Rank(NoCredit) < Rank(e)
  {}

  lemma BetterCommutes(a: Credit, b: Credit, c: Credit)
    ensures Better(Better(a, b), c) == Better(Better(a, c), b)
  {
    hide Rank;
    RankTellsCredits(b, c);
    var x, y, z := Rank(a), Rank(b), Rank(c);
    assert Better(a, b) == if y > x then b else a;
    assert Better(a, c) == if z > x then c else a;
  }

  lemma BumpedCommutes(counts: map<Credit, nat>, e: Credit, f: Credit)
    ensures Bumped(Bumped(counts, e), f) == Bumped(Bumped(counts, f), e)
  {}

  lemma BehindCommutes(tests: map<Credit, set<string>>, e: Credit, t: string, f: Credit, u: string)
    ensures Behind(Behind(tests, e, t), f, u) == Behind(Behind(tests, f, u), e, t)
  {
    if e == f {
      var had := if e in tests then tests[e] else {};
      assert had + {t} + {u} == had + {u} + {t};
    }
  }

  /** Two credits leave the same cell in either order. */
  lemma AddCommutes(c: Cell, e: Credit, t: string, f: Credit, u: string)
    ensures Add(Add(c, e, t), f, u) == Add(Add(c, f, u), e, t)
  {
    hide Better, Bumped, Behind;
    BetterCommutes(c.best, e, f);
    BumpedCommutes(c.counts, e, f);
    BehindCommutes(c.tests, e, t, f, u);
  }

  lemma AddKeepsRest(c: Cell, e: Credit, t: string)
    ensures Add(c, e, t).state == c.state && Add(c, e, t).unlisted == c.unlisted
    ensures forall x :: CountOf(Add(c, e, t), x) == CountOf(c, x) + if x == e != NoCredit then 1 else 0
  {}

  // ---------------------------------------------------------------- tables of cells

  type Table<!K> = map<K, Cell>

  function At<K>(m: Table<K>, k: K, fresh_: Cell): Cell {
    if k in m then m[k] else fresh_
  }

  /** The cell for a key, made when it is not there yet, with one more credit. */
  function Credited<K>(m: Table<K>, k: K, fresh_: Cell, e: Credit, t: string): Table<K> {
    m[k := Add(At(m, k, fresh_), e, t)]
  }

  lemma CreditedCommutes<K>(m: Table<K>, fresh_: Cell, k: K, e: Credit, t: string, l: K, f: Credit, u: string)
    ensures Credited(Credited(m, k, fresh_, e, t), l, fresh_, f, u)
         == Credited(Credited(m, l, fresh_, f, u), k, fresh_, e, t)
  {
    hide Add;
    if k == l {
      AddCommutes(At(m, k, fresh_), e, t, f, u);
    }
  }
}
