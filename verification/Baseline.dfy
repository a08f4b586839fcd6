/**
  The superset comparison with a recorded baseline: what it reached that this run did not.

  `NoLossReflexive` and `NoLossTransitive` make "loses nothing against" a preorder, `MoreCallsLoseNothing` says lines
  added to a run never lose it anything, `StaticReachesTheSame` that the static pass does not touch the comparison, and
  `ReachedExactly` what a reached key is evidence of.
*/
module Baseline {
  import opened CallFold
  import opened CallRecords
  import opened CellFill
  import opened Cells
  import opened StringOrder
  import Lines = ClassifiedLines

  datatype ReachedKey = ReachedKey(surface: string, mode: string, action: string, credit: Credit)

  /** The credits that say something ran. */
  predicate Reaches(credit: Credit) {
    Rank(credit) > Rank(CreditFailed) && credit != CreditUnobserved
  }

  function KeyOf(key: ActionKey, credit: Credit): ReachedKey {
    ReachedKey(key.shape.surface, key.shape.mode, key.action, credit)
  }

  function ReachedSet(cells: map<ActionKey, Cell>): set<ReachedKey> {
    set key, credit | key in cells && credit in cells[key].counts && Reaches(credit) :: KeyOf(key, credit)
  }

  /** reachedSet */
  method ReachedSetInLoops(cells: map<ActionKey, Cell>) returns (reached: set<ReachedKey>)
    ensures reached == ReachedSet(cells)
  {
    hide Reaches, KeyOf;
    reached := {};
    var left := cells.Keys;
    while left != {}
      invariant left <= cells.Keys
      invariant reached == set key, credit |
                  key in cells.Keys - left && credit in cells[key].counts && Reaches(credit) :: KeyOf(key, credit)
    {
      var key :| key in left;
      ghost var before := reached;
      left := left - {key};
      var credits := cells[key].counts.Keys;
      while credits != {}
        invariant credits <= cells[key].counts.Keys
        invariant reached == before + set credit |
                    credit in cells[key].counts.Keys - credits && Reaches(credit) :: KeyOf(key, credit)
      {
        var credit :| credit in credits;
        credits := credits - {credit};
        if !Reaches(credit) {
          continue;
        }
        reached := reached + {KeyOf(key, credit)};
      }
    }
  }

  /** satisfied */
  predicate Satisfied(now: set<ReachedKey>, key: ReachedKey) {
    key in now ||
    match key.credit
    case CreditCleanup => key.(credit := CreditSweep) in now || key.(credit := CreditAsserted) in now
    case CreditSweep => key.(credit := CreditAsserted) in now
    case _ => false
  }

  /** This run loses nothing against another. */
  ghost predicate NoLoss(now: set<ReachedKey>, before: set<ReachedKey>) {
    forall key | key in before :: Satisfied(now, key)
  }

  function CreditName(credit: Credit): string {
    match credit
    case NoCredit => "none"
    case CreditSkipped => "skipped"
    case CreditFailed => "failed"
    case CreditCleanup => "cleanup-only"
    case CreditPreview => "preview-only"
    case CreditRefused => "refused-only"
    case CreditErrorPath => "error-path-only"
    case CreditSweep => "sweep-only"
    case CreditUnobserved => "unobserved"
    case CreditAsserted => "asserted"
  }

  /** reachedKey.String */
  function Spelled(key: ReachedKey): string {
    key.surface + "/" + key.mode + " " + key.action + " " + CreditName(key.credit)
  }

  /** How a loss list spells a key. */
  lemma SpelledCredits(key: ReachedKey)
    requires key.surface == "s" && key.mode == "m" && key.action == "a"
    ensures Spelled(key)[..6] == "s/m a "
    ensures key.credit == CreditCleanup ==> Spelled(key)[6..] == "cleanup-only"
    ensures key.credit == CreditPreview ==> Spelled(key)[6..] == "preview-only"
    ensures key.credit == CreditRefused ==> Spelled(key)[6..] == "refused-only"
    ensures key.credit == CreditErrorPath ==> Spelled(key)[6..] == "error-path-only"
    ensures key.credit == CreditSweep ==> Spelled(key)[6..] == "sweep-only"
    ensures key.credit == CreditAsserted ==> Spelled(key)[6..] == "asserted"
  {
    hide CreditName;
    var front := key.surface + "/" + key.mode + " " + key.action + " ";
    assert front == "s/m a ";
    assert Spelled(key) == front + CreditName(key.credit);
    assert Spelled(key)[6..] == CreditName(key.credit);
    CreditNames();
  }

  lemma CreditNames()
    ensures CreditName(CreditCleanup) == "cleanup-only" && CreditName(CreditPreview) == "preview-only"
    ensures CreditName(CreditRefused) == "refused-only" && CreditName(CreditErrorPath) == "error-path-only"
    ensures CreditName(CreditSweep) == "sweep-only" && CreditName(CreditAsserted) == "asserted"
  {}

  ghost function LostKeys(now: set<ReachedKey>, before: set<ReachedKey>): set<ReachedKey> {
    set key | key in before && !Satisfied(now, key)
  }

  ghost predicate Spells(texts: seq<string>, keys: set<ReachedKey>) {
    |texts| == |keys| && forall text :: text in texts <==> exists key | key in keys :: Spelled(key) == text
  }

  lemma OneMoreLost(texts: seq<string>, keys: set<ReachedKey>, key: ReachedKey)
    requires Spells(texts, keys) && key !in keys
    ensures Spells(texts + [Spelled(key)], keys + {key})
  {
    hide Spelled;
  }

  /** The first loop of compareBaseline. */
  method ListLost(now: set<ReachedKey>, before: set<ReachedKey>) returns (lost: seq<string>)
    ensures Spells(lost, LostKeys(now, before))
  {
    hide Satisfied, Spelled, Spells;
    lost := [];
    ghost var missing: set<ReachedKey> := {};
    NothingLost();
    var left := before;
    while left != {}
      invariant left <= before
      invariant missing == set key | key in before - left && !Satisfied(now, key)
      invariant Spells(lost, missing)
    {
      var key :| key in left;
      left := left - {key};
      if !Satisfied(now, key) {
        OneMoreLost(lost, missing, key);
        missing := missing + {key};
        lost := lost + [Spelled(key)];
      }
    }
    assert missing == LostKeys(now, before);
  }

  lemma NothingLost()
    ensures Spells([], {})
  {}

  /** The second loop of compareBaseline. */
  method CountGained(now: set<ReachedKey>, before: set<ReachedKey>) returns (gained: nat)
    ensures gained == |now - before|
  {
    gained := 0;
    var rest := now;
    assert (now - rest) - before == {};
    while rest != {}
      invariant rest <= now
      invariant gained == |(now - rest) - before|
    {
      var key :| key in rest;
      OneMoreGained(now, rest, before, key);
      rest := rest - {key};
      if key !in before {
        gained := gained + 1;
      }
    }
    assert (now - rest) - before == now - before;
  }

  lemma OneMoreGained<T>(now: set<T>, rest: set<T>, before: set<T>, key: T)
    requires key in rest && rest <= now
    ensures |(now - (rest - {key})) - before| == |(now - rest) - before| + if key in before then 0 else 1
  {
    if key in before {
      assert (now - (rest - {key})) - before == (now - rest) - before;
    } else {
      assert (now - (rest - {key})) - before == ((now - rest) - before) + {key};
    }
  }

  /** compareBaseline */
  method CompareBaseline(current: map<ActionKey, Cell>, baseline: map<ActionKey, Cell>)
    returns (lost: seq<string>, reached: nat, baselineReached: nat, gained: nat)
    ensures lost == [] <==> NoLoss(ReachedSet(current), ReachedSet(baseline))
    ensures Sorted(lost) && Spells(lost, LostKeys(ReachedSet(current), ReachedSet(baseline)))
    ensures reached == |ReachedSet(current)| && baselineReached == |ReachedSet(baseline)|
    ensures gained == |ReachedSet(current) - ReachedSet(baseline)|
  {
    hide ReachedSet, LostKeys, Sort, Leq, Sorted, NoLoss, Spells;
    var before := ReachedSetInLoops(baseline);
    var now := ReachedSetInLoops(current);
    lost := ListLost(now, before);
    gained := CountGained(now, before);
    reached, baselineReached := |now|, |before|;
    SortedLost(lost, LostKeys(now, before));
    LostNothing(now, before, Sort(lost));
    lost := Sort(lost);
  }

  lemma SortedLost(lost: seq<string>, keys: set<ReachedKey>)
    requires Spells(lost, keys)
    ensures Sorted(Sort(lost)) && Spells(Sort(lost), keys)
  {
    SortSorts(lost);
    hide Sort, Sorted, Spelled;
    assert |multiset(Sort(lost))| == |multiset(lost)|;
  }

  lemma LostNothing(now: set<ReachedKey>, before: set<ReachedKey>, lost: seq<string>)
    requires Spells(lost, LostKeys(now, before))
    ensures lost == [] <==> NoLoss(now, before)
  {
    hide Satisfied, Spelled;
    assert lost == [] <==> LostKeys(now, before) == {};
    assert forall key | key in before :: key in LostKeys(now, before) <==> !Satisfied(now, key);
  }

  // ---------------------------------------------------------------- a preorder

  lemma NoLossReflexive(run: set<ReachedKey>)
    ensures NoLoss(run, run)
  {}

  lemma SatisfiedTwice(now: set<ReachedKey>, middle: set<ReachedKey>, key: ReachedKey)
    requires NoLoss(now, middle) && Satisfied(middle, key)
    ensures Satisfied(now, key)
  {
    if key !in middle {
      match key.credit {
        case CreditCleanup =>
          assert key.(credit := CreditSweep).(credit := CreditAsserted) == key.(credit := CreditAsserted);
        case CreditSweep =>
        case _ =>
      }
    }
  }

  /** Losing nothing passes on: through cleanup, sweep and asserted, each met by the stronger ones. */
  lemma NoLossTransitive(now: set<ReachedKey>, middle: set<ReachedKey>, before: set<ReachedKey>)
    requires NoLoss(now, middle) && NoLoss(middle, before)
    ensures NoLoss(now, before)
  {
    forall key | key in before ensures Satisfied(now, key) {
      SatisfiedTwice(now, middle, key);
    }
  }

  // ---------------------------------------------------------------- calls added, and the static pass

  lemma ReachedIn(cells: map<ActionKey, Cell>, key: ActionKey, credit: Credit)
    ensures KeyOf(key, credit) in ReachedSet(cells)
       <==> key in cells && credit in cells[key].counts && Reaches(credit)
  {
    if KeyOf(key, credit) in ReachedSet(cells) {
      var k, e :| k in cells && e in cells[k].counts && Reaches(e) && KeyOf(key, credit) == KeyOf(k, e);
    }
  }

  lemma KeyBack(r: ReachedKey)
    ensures r == KeyOf(ActionKey(ShapeKey(r.surface, r.mode), r.action), r.credit)
  {}

  /** Two tables that count the same reaching credits reach the same. */
  lemma SameCountsReachSame(cells: map<ActionKey, Cell>, others: map<ActionKey, Cell>)
    requires forall key, credit | Reaches(credit) ::
               (key in cells && credit in cells[key].counts) <==> (key in others && credit in others[key].counts)
    ensures ReachedSet(cells) == ReachedSet(others)
  {
    forall r ensures r in ReachedSet(cells) <==> r in ReachedSet(others) {
      KeyBack(r);
      ReachedIn(cells, ActionKey(ShapeKey(r.surface, r.mode), r.action), r.credit);
      ReachedIn(others, ActionKey(ShapeKey(r.surface, r.mode), r.action), r.credit);
      hide ReachedSet, Reaches, KeyOf;
    }
  }

  /** Filling the table in reaches nothing: the set is what the call lines reached. */
  lemma FillReachesTheSame(s: Setting, cells: map<ActionKey, Cell>)
    ensures ReachedSet(FillActions(s, cells)) == ReachedSet(cells)
  {
    hide Settle, Grid, CannotServeAt, Reaches;
    SameCountsReachSame(FillActions(s, cells), cells);
  }

  /** applyStatic never changes what was reached. */
  lemma {:induction false} StaticReachesTheSame(s: Setting, st: Static, skips: seq<Skip>, cells: map<ActionKey, Cell>)
    ensures ReachedSet(SkipAll(s, st, skips, Unassert(st, cells))) == ReachedSet(cells)
  {
    hide ReachedSet, SkipOne;
    if skips == [] {
      UnassertReachesTheSame(st, cells);
    } else {
      var front := SkipAll(s, st, skips[..|skips| - 1], Unassert(st, cells));
      StaticReachesTheSame(s, st, skips[..|skips| - 1], cells);
      SkipReachesTheSame(s, st, skips[|skips| - 1], front);
    }
  }

  lemma UnassertReachesTheSame(st: Static, cells: map<ActionKey, Cell>)
    ensures ReachedSet(Unassert(st, cells)) == ReachedSet(cells)
  {
    hide Reaches, ReachedSet;
    SameCountsReachSame(Unassert(st, cells), cells);
  }

  lemma SkippedIsNoReach()
    ensures !Reaches(CreditSkipped)
  {}

  lemma SkipReachesTheSame(s: Setting, st: Static, skip: Skip, cells: map<ActionKey, Cell>)
    ensures ReachedSet(SkipOne(s, st, skip, cells)) == ReachedSet(cells)
  {
    SkippedIsNoReach();
    hide Reaches, ReachedSet, SkipLands, Behind, Better;
    SameCountsReachSame(SkipOne(s, st, skip, cells), cells);
  }

  /** The reached set of a run's classification. */
  ghost function ReachedBy(s: Setting, calls: seq<Call>): set<ReachedKey> {
    ReachedSet(FillAll(s, FoldCalls(s, calls)).cells)
  }

  lemma ReachedByCells(s: Setting, calls: seq<Call>)
    ensures ReachedBy(s, calls) == ReachedSet(FoldCalls(s, calls).cells)
  {
    FillReachesTheSame(s, FoldCalls(s, calls).cells);
    hide FoldCalls, FillActions, ReachedSet, WithFlows, WithModes, FillItems;
  }

  lemma ReachedByEffect(s: Setting, calls: seq<Call>, key: ActionKey, credit: Credit)
    ensures KeyOf(key, credit) in ReachedBy(s, calls)
       <==> Reaches(credit) && exists call | call in calls :: CreditsAction(s, call, key) && EffectOf(s, call).earned == credit
  {
    var cells := FoldCalls(s, calls).cells;
    ReachedByCells(s, calls);
    ReachedIn(cells, key, credit);
    if Reaches(credit) {
      CellsCount(s, calls, key);
      CountedPositive(s, calls, key, At(cells, key, NEW_CELL), credit);
      EarningPositive(s, calls, key, credit);
    }
    hide ReachedBy, FoldCalls, EffectOf, Reaches, KeyOf, ReachedSet, CellHolds;
  }

  /** A call of an action that earns a credit, and one of those that say it ran. */
  ghost predicate Reached(s: Setting, calls: seq<Call>, r: ReachedKey) {
    && r.credit in {CreditCleanup, CreditPreview, CreditRefused, CreditErrorPath, CreditSweep, CreditAsserted}
    && exists call | call in calls ::
         Lines.ActsOn(s, call, ActionKey(ShapeKey(r.surface, r.mode), r.action)) && Lines.Earns(call, r.credit)
  }

  /** A key is reached exactly when some line acts on its action there and earns its credit. */
  lemma ReachedExactly(s: Setting, calls: seq<Call>, r: ReachedKey)
    ensures r in ReachedBy(s, calls) <==> Reached(s, calls, r)
  {
    var key := ActionKey(ShapeKey(r.surface, r.mode), r.action);
    KeyBack(r);
    ReachedByEffect(s, calls, key, r.credit);
    forall call ensures CreditsAction(s, call, key) <==> Lines.ActsOn(s, call, key) {
      CreditsActing(s, call, key);
    }
    forall call | Lines.ActsOn(s, call, key) && r.credit != NoCredit
      ensures EffectOf(s, call).earned == r.credit <==> Lines.Earns(call, r.credit)
    {
      Lines.ActsAsItsEffect(s, call, key);
      Lines.EarnsItsCredit(call, r.credit);
    }
    ReachingCredits(r.credit);
    hide ReachedBy, CreditsAction, EffectOf, Reaches, KeyOf, Lines.ActsOn, Lines.Earns;
  }

  lemma CreditsActing(s: Setting, call: Call, key: ActionKey)
    ensures CreditsAction(s, call, key) <==> Lines.ActsOn(s, call, key)
  {
    if !call.fineGrained {
      Lines.ActsAsItsEffect(s, call, key);
    }
    hide EffectOf;
  }

  lemma ReachingCredits(credit: Credit)
    ensures Reaches(credit)
       <==> credit in {CreditCleanup, CreditPreview, CreditRefused, CreditErrorPath, CreditSweep, CreditAsserted}
  {}

  /**
    A key the baseline's lines reached is lost exactly when no line of this run earns its action there the same credit, or
    for a cleanup a sweep or an assertion, or for a sweep an assertion.
  */
  lemma LostExactly(s: Setting, calls: seq<Call>, t: Setting, baseline: seq<Call>, r: ReachedKey)
    ensures r in LostKeys(ReachedBy(s, calls), ReachedBy(t, baseline)) <==>
      && Reached(t, baseline, r) && !Reached(s, calls, r)
      && (r.credit == CreditCleanup || r.credit == CreditSweep ==> !Reached(s, calls, r.(credit := CreditAsserted)))
      && (r.credit == CreditCleanup ==> !Reached(s, calls, r.(credit := CreditSweep)))
  {
    ReachedExactly(t, baseline, r);
    ReachedExactly(s, calls, r);
    ReachedExactly(s, calls, r.(credit := CreditAsserted));
    ReachedExactly(s, calls, r.(credit := CreditSweep));
    hide Reached, ReachedBy;
  }

  lemma CountedPositive(s: Setting, calls: seq<Call>, key: ActionKey, c: Cell, credit: Credit)
    requires CellHolds(s, calls, key, c) && credit != NoCredit
    ensures credit in c.counts <==> Earning(s, calls, key, credit) > 0
  {
    hide Earning, Rank;
    assert CountOf(c, credit) == Earning(s, calls, key, credit);
  }

  /** And the test of every such line passed, in a call that was neither raw nor a model's. */
  lemma ReachedOnlyByPassing(s: Setting, call: Call, key: ActionKey)
    requires CreditsAction(s, call, key) && Reaches(EffectOf(s, call).earned)
    ensures call.testStatus == STATUS_PASSED && call.purpose != PURPOSE_RAW && call.purpose != PURPOSE_MODEL
    ensures key == ActionKey(ShapeOfCall(call), Target(call))
  {
    ActedEarns(s, call);
    PastFailedOnlyWhenPassed(call);
    hide EffectOf, CreditOf, Rank;
  }

  lemma ActedEarns(s: Setting, call: Call)
    ensures EffectOf(s, call).Acted? ==>
              && EffectOf(s, call).earned == CreditOf(call).0
              && EffectOf(s, call).key == ActionKey(ShapeOfCall(call), CreditOf(call).1)
  {
    hide ResourceTarget, SubscriptionKind, CreditOf, CreditOfOutcome, KeyFor, NoteOf;
  }

  lemma {:induction false} EarningPositive(s: Setting, calls: seq<Call>, key: ActionKey, credit: Credit)
    ensures Earning(s, calls, key, credit) > 0
       <==> exists call | call in calls :: CreditsAction(s, call, key) && EffectOf(s, call).earned == credit
  {
    hide EffectOf;
    if calls == [] {
    } else {
      var front, last := calls[..|calls| - 1], calls[|calls| - 1];
      EarningPositive(s, front, key, credit);
      assert calls == front + [last] && last in calls;
    }
  }

  /** Lines added to a run, wherever they stand among the others, never lose it anything. */
  lemma MoreCallsLoseNothing(s: Setting, calls: seq<Call>, more: seq<Call>, all: seq<Call>, before: set<ReachedKey>)
    requires multiset(all) == multiset(calls + more) && NoLoss(ReachedBy(s, calls), before)
    ensures NoLoss(ReachedBy(s, all), before)
  {
    OrderOfCalls(s, all, calls + more);
    ReachedByCells(s, calls);
    ReachedByCells(s, all);
    hide ReachedBy, FoldCalls, NoLoss;
    forall r | r in ReachedBy(s, calls) ensures r in ReachedBy(s, all) {
      var key := ActionKey(ShapeKey(r.surface, r.mode), r.action);
      KeyBack(r);
      ReachedIn(FoldCalls(s, calls).cells, key, r.credit);
      ReachedIn(FoldCalls(s, all).cells, key, r.credit);
      MoreCallsKeepCredits(s, calls, more, key);
    }
  }
}
