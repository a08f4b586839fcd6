/**
  What an expression holds, one clause for each shape it can have and each way a name is followed.

  `Holds` is read off the program alone: a list holds its elements, an append the lists it grows, a variable what it is
  ever given, and so on down to an expression that is a leaf. `WalkMeetsLeaves` says which of those leaves the walk
  records, with their values.
*/
module ListHeld {
  import opened Outcomes
  import opened ListWalk

  // ---------------------------------------------------------------- the relation

  /** u is e without the parentheses around it. */
  predicate Bare(e: Expr, u: Expr)
    decreases e
  {
    if e.Paren? then Bare(e.inner, u) else u == e
  }

  /** A variable with values, a range variable, or a parameter named as a carrier. */
  predicate Known(p: Program, v: Variable) {
    v in p.values || v in p.ranges || (v in p.params && v in p.carrierNames)
  }

  /** Recorded where it is written: a read of an ID list, or a value that carries one. */
  ghost predicate WrittenElsewhere(p: Program, a: Expr) {
    exists u | Bare(a, u) :: u in p.recordedReads || u in p.recordedCarriers
  }

  ghost predicate NamesCarrier(p: Program, a: Expr) {
    exists u | Bare(a, u) ::
      && u.Ident? && u.variable.Some?
      && u.variable.value in p.params && u.variable.value in p.lists && u.variable.value in p.carrierNames
  }

  /** A call that hands back lists recorded elsewhere, beside list parameters named as carriers at most. */
  ghost predicate HandsBack(p: Program, args: seq<Expr>) {
    && (exists i | 0 <= i < |args| :: WrittenElsewhere(p, args[i]))
    && forall i | 0 <= i < |args| :: WrittenElsewhere(p, args[i]) || NamesCarrier(p, args[i])
  }

  /** What an expression read as a list is made of. */
  ghost predicate MadeOf(p: Program, u: Expr, part: Item) {
    match u
    case ListLiteral(_, elements) =>
      part.rule == AsOne && part.expr in elements
    case Append(_, args, spread) =>
      || (args != [] && part == Item(AsList, args[0]))
      || (args != [] && spread && part == Item(AsList, args[|args| - 1]))
      || (part.rule == AsOne && exists i | 0 < i < |args| && (spread ==> i < |args| - 1) :: args[i] == part.expr)
    case Conversion(_, operand) =>
      part == Item(AsList, operand)
    case Call(_, callee, args) =>
      && part.rule == AsList
      && if HandsBack(p, args) then part.expr in args && !WrittenElsewhere(p, part.expr)
         else callee.Some? && callee.value in p.returned && part.expr in p.returned[callee.value]
    case _ => false
  }

  /** An argument one caller passes for a parameter; those spelled out for a variadic one are single values. */
  ghost predicate PassedFor(param: Parameter, caller: CallSite, rule: Rule, part: Item) {
    if param.variadic then
      && part.rule == (if caller.ellipsis then rule else AsOne)
      && exists i | param.index <= i < |caller.args| :: caller.args[i] == part.expr
    else param.index < |caller.args| && part == Item(rule, caller.args[param.index])
  }

  /** What a variable is given: its values, or else the list a range walks, or else what its callers pass. */
  ghost predicate GivenTo(p: Program, v: Variable, rule: Rule, part: Item) {
    if v in p.values then part.rule == rule && part.expr in p.values[v]
    else if v in p.ranges then part == Item(AsList, p.ranges[v])
    else
      && v in p.params && v in p.carrierNames && p.params[v].of !in p.sinks && p.params[v].of in p.callers
      && exists caller | caller in p.callers[p.params[v].of] :: PassedFor(p.params[v], caller, rule, part)
  }

  /** A name read by a rule, unless it folds to an ID. */
  ghost predicate ReadsVariable(p: Program, it: Item, v: Variable) {
    && (exists u | Bare(it.expr, u) :: u.Ident? && u.variable == Some(v))
    && (it.rule == AsOne ==> it.expr !in p.answers)
  }

  ghost predicate Holds(p: Program, it: Item, part: Item) {
    || (it.rule == AsList && exists u | Bare(it.expr, u) :: MadeOf(p, u, part))
    || exists v | ReadsVariable(p, it, v) :: GivenTo(p, v, it.rule, part)
  }

  /** The site an expression is when nothing further can be read of it. */
  ghost predicate IsLeaf(p: Program, it: Item, s: Site) {
    if it.rule == AsOne && it.expr in p.answers then s == Site(it.expr, Some(p.answers[it.expr]))
    else s.value == None && exists u | Bare(it.expr, u) :: LeftOver(p, it, u, s.expr)
  }

  ghost predicate LeftOver(p: Program, it: Item, u: Expr, left: Expr) {
    if it.rule == AsOne then left == it.expr && !(u.Ident? && u.variable.Some? && Known(p, u.variable.value))
    else
      match u
      case Ident(_, variable) => left == u && !(variable.Some? && Known(p, variable.value))
      case Call(_, callee, args) => left == u && !HandsBack(p, args) && !(callee.Some? && callee.value in p.returned)
      case FieldRead(_) => left == u && u !in p.recordedReads
      case Other(_) => left == it.expr
      case _ => false
  }

  ghost predicate HeldIn(p: Program, roots: seq<Item>, it: Item, steps: nat)
    decreases steps
  {
    if steps == 0 then it in roots
    else exists outer :: HeldIn(p, roots, outer, steps - 1) && Holds(p, outer, it)
  }

  ghost predicate Held(p: Program, roots: seq<Item>, it: Item) {
    exists steps: nat :: HeldIn(p, roots, it, steps)
  }

  ghost predicate HeldLeaf(p: Program, roots: seq<Item>, s: Site) {
    exists it | Held(p, roots, it) :: IsLeaf(p, it, s)
  }

  ghost predicate HeldName(p: Program, roots: seq<Item>, v: Variable, rule: Rule) {
    exists it | Held(p, roots, it) :: it.rule == rule && ReadsVariable(p, it, v)
  }

  // ---------------------------------------------------------------- the walk reads what an expression holds

  lemma BareIs(e: Expr, u: Expr)
    ensures Bare(e, u) <==> u == Unparen(e)
    decreases e
  {
    if e.Paren? {
      BareIs(e.inner, u);
    }
  }

  lemma ArgumentsAre(p: Program, a: Expr)
    ensures WrittenElsewhere(p, a) <==> Recorded(p, a)
    ensures NamesCarrier(p, a) <==> Carrier(p, a)
  {
    forall u ensures Bare(a, u) <==> u == Unparen(a) {
      BareIs(a, u);
    }
  }

  lemma CopiesAre(p: Program, args: seq<Expr>)
    ensures HandsBack(p, args) <==> ListCopy(p, args)
  {
    forall a ensures (WrittenElsewhere(p, a) <==> Recorded(p, a)) && (NamesCarrier(p, a) <==> Carrier(p, a)) {
      ArgumentsAre(p, a);
    }
    hide WrittenElsewhere, NamesCarrier, Recorded, Carrier;
    forall a | a in args && ListCopy(p, args) ensures exists i :: 0 <= i < |args| && args[i] == a {}
  }

  lemma {:induction false} CarriersAre(p: Program, args: seq<Expr>, a: Expr)
    ensures a in CarriersOf(p, args) <==> a in args && !Recorded(p, a) && Carrier(p, a)
  {
    hide Recorded, Carrier;
    if args == [] {
    } else {
      CarriersAre(p, args[1..], a);
      assert args == [args[0]] + args[1..];
    }
  }

  lemma PassedAre(param: Parameter, caller: CallSite, rule: Rule, part: Item)
    ensures part in ArgumentItems(param, caller, rule) <==> PassedFor(param, caller, rule, part)
  {
    var items := ArgumentItems(param, caller, rule);
    if PassedFor(param, caller, rule, part) {
      if param.variadic {
        var i :| param.index <= i < |caller.args| && caller.args[i] == part.expr;
        assert items[i - param.index] == part;
      }
    }
  }

  lemma {:induction false} CallersAre(param: Parameter, callers: seq<CallSite>, rule: Rule, part: Item)
    ensures part in CallerItems(param, callers, rule)
       <==> exists caller | caller in callers :: PassedFor(param, caller, rule, part)
  {
    hide PassedFor, ArgumentItems;
    if callers == [] {
    } else {
      CallersAre(param, callers[1..], rule, part);
      PassedAre(param, callers[0], rule, part);
      assert callers == [callers[0]] + callers[1..];
    }
  }

  lemma AllByAre(rule: Rule, exprs: seq<Expr>, part: Item)
    ensures part in AllBy(rule, exprs) <==> part.rule == rule && part.expr in exprs
  {
    if part.rule == rule && part.expr in exprs {
      var i :| 0 <= i < |exprs| && exprs[i] == part.expr;
      assert AllBy(rule, exprs)[i] == part;
    }
  }

  lemma AppendedAre(id: nat, p: Program, args: seq<Expr>, spread: bool, part: Item)
    ensures part in AppendItems(args, spread) <==> MadeOf(p, Append(id, args, spread), part)
  {
    var items := AppendItems(args, spread);
    if part in items {
      var i :| 0 <= i < |items| && items[i] == part;
    }
    if MadeOf(p, Append(id, args, spread), part) {
      if part.rule == AsOne {
        var i :| 0 < i < |args| && (spread ==> i < |args| - 1) && args[i] == part.expr;
        assert items[i] == part;
      } else {
        assert items[0] == Item(AsList, args[0]);
        assert spread ==> items[|args| - 1] == Item(AsList, args[|args| - 1]);
      }
    }
  }

  lemma BodyIsGiven(p: Program, v: Variable, rule: Rule, part: Item)
    requires Known(p, v)
    ensures part in BodyOf(p, ByVariable(v, rule)) <==> GivenTo(p, v, rule, part)
  {
    hide PassedFor, AllBy, CallerItems;
    if v in p.values {
      AllByAre(rule, p.values[v], part);
    } else if v in p.ranges {
    } else if p.params[v].of in p.callers {
      CallersAre(p.params[v], p.callers[p.params[v].of], rule, part);
    }
  }

  /** What the walk reads in place of an item, or after following it. */
  ghost predicate Opens(p: Program, it: Item, part: Item) {
    match ReadingOf(p, it)
    case Record(_) => false
    case Follow(n) => part in BodyOf(p, n)
    case Parts(items) => part in items
  }

  lemma VariableIsRead(p: Program, it: Item, v: Variable)
    ensures ReadsVariable(p, it, v) <==>
      && Unparen(it.expr).Ident? && Unparen(it.expr).variable == Some(v) && (it.rule == AsOne ==> it.expr !in p.answers)
  {
    forall u ensures Bare(it.expr, u) <==> u == Unparen(it.expr) {
      BareIs(it.expr, u);
    }
  }

  lemma MadeOfBare(p: Program, e: Expr, part: Item)
    ensures (exists u | Bare(e, u) :: MadeOf(p, u, part)) <==> MadeOf(p, Unparen(e), part)
  {
    hide MadeOf;
    forall u ensures Bare(e, u) <==> u == Unparen(e) {
      BareIs(e, u);
    }
  }

  lemma CallIsMadeOf(p: Program, u: Expr, part: Item)
    requires u.Call?
    ensures MadeOf(p, u, part) <==>
      if ListCopy(p, u.args) then part in AllBy(AsList, CarriersOf(p, u.args))
      else Follows(p, u.callee) && part in BodyOf(p, ByFunction(u.callee.value))
  {
    CopiesAre(p, u.args);
    ArgumentsAre(p, part.expr);
    CarriersAre(p, u.args, part.expr);
    AllByAre(AsList, CarriersOf(p, u.args), part);
    if Follows(p, u.callee) {
      AllByAre(AsList, p.returned[u.callee.value], part);
    }
    hide HandsBack, ListCopy, WrittenElsewhere, Recorded, AllBy, CarriersOf;
    if ListCopy(p, u.args) && part.expr in u.args && !Recorded(p, part.expr) {
      CopiedCarrier(p, u.args, part.expr);
    }
  }

  lemma CopiedCarrier(p: Program, args: seq<Expr>, a: Expr)
    requires ListCopy(p, args) && a in args && !Recorded(p, a)
    ensures Carrier(p, a)
  {}

  /** The walk opens an item to exactly what it holds. */
  lemma OpensWhatItHolds(p: Program, it: Item, part: Item)
    ensures Opens(p, it, part) <==> Holds(p, it, part)
  {
    hide Bare, ReadsVariable, GivenTo, BodyOf, AllBy, AppendItems, ListCopy, CarriersOf, HandsBack, WrittenElsewhere;
    var u := Unparen(it.expr);
    forall v ensures ReadsVariable(p, it, v) <==> u.Ident? && u.variable == Some(v) && (it.rule == AsOne ==> it.expr !in p.answers) {
      VariableIsRead(p, it, v);
    }
    MadeOfBare(p, it.expr, part);
    if u.Ident? && u.variable.Some? {
      var v := u.variable.value;
      if Known(p, v) {
        BodyIsGiven(p, v, it.rule, part);
      } else {
        UnknownIsGivenNothing(p, v, it.rule, part);
      }
    } else if it.rule == AsList {
      match u
      case ListLiteral(_, elements) => AllByAre(AsOne, elements, part);
      case Append(id, args, spread) => AppendedAre(id, p, args, spread, part);
      case Call(_, _, _) => CallIsMadeOf(p, u, part);
      case _ =>
    }
  }

  lemma UnknownIsGivenNothing(p: Program, v: Variable, rule: Rule, part: Item)
    requires !Known(p, v)
    ensures !GivenTo(p, v, rule, part)
  {}

  /** The walk records an item as exactly the leaf it is. */
  lemma RecordsTheLeaf(p: Program, it: Item, s: Site)
    ensures ReadingOf(p, it) == Record(s) <==> IsLeaf(p, it, s)
  {
    var u := Unparen(it.expr);
    forall x ensures Bare(it.expr, x) <==> x == u {
      BareIs(it.expr, x);
    }
    if u.Call? {
      CopiesAre(p, u.args);
    }
    hide Bare, HandsBack, ListCopy, AllBy, AppendItems, CarriersOf;
    assert Bare(it.expr, u);
    assert LeftOver(p, it, u, s.expr) <==> exists x | Bare(it.expr, x) :: LeftOver(p, it, x, s.expr);
  }

  // ---------------------------------------------------------------- reachable is held

  lemma HeldNext(p: Program, roots: seq<Item>, it: Item, part: Item)
    requires Held(p, roots, it) && Opens(p, it, part)
    ensures Held(p, roots, part)
  {
    OpensWhatItHolds(p, it, part);
    hide Opens, Holds;
    var steps: nat :| HeldIn(p, roots, it, steps);
    assert HeldIn(p, roots, part, steps + 1);
  }

  lemma {:induction false} LeafIsHeld(p: Program, roots: seq<Item>, it: Item, s: Site)
    requires Held(p, roots, it) && s in Leaves(p, it)
    ensures HeldLeaf(p, roots, s)
    decreases it.expr
  {
    hide ReadingOf, Held, IsLeaf, BodyOf;
    RecordsTheLeaf(p, it, s);
    if ReadingOf(p, it).Parts? {
      var part :| part in ReadingOf(p, it).items && s in Leaves(p, part);
      HeldNext(p, roots, it, part);
      LeafIsHeld(p, roots, part, s);
    }
  }

  lemma {:induction false} NameIsHeld(p: Program, roots: seq<Item>, it: Item, n: Followed) returns (at: Item)
    requires Held(p, roots, it) && n in ListWalk.Names(p, it)
    ensures Held(p, roots, at) && ReadingOf(p, at) == Follow(n)
    decreases it.expr
  {
    hide ReadingOf, Held, BodyOf;
    at := it;
    if ReadingOf(p, it).Parts? {
      var part :| part in ReadingOf(p, it).items && n in ListWalk.Names(p, part);
      HeldNext(p, roots, it, part);
      at := NameIsHeld(p, roots, part, n);
    }
  }

  lemma RootIsHeld(p: Program, roots: seq<Item>, it: Item)
    requires it in roots
    ensures Held(p, roots, it)
  {
    assert HeldIn(p, roots, it, 0);
  }

  lemma {:induction false} ReachedIsHeld(p: Program, roots: seq<Item>, n: Followed, steps: nat) returns (at: Item)
    requires ReachedIn(p, roots, n, steps)
    ensures Held(p, roots, at) && ReadingOf(p, at) == Follow(n)
    decreases steps
  {
    hide ReadingOf, Held, BodyOf, ListWalk.Names;
    if steps == 0 {
      var it :| it in roots && n in ListWalk.Names(p, it);
      RootIsHeld(p, roots, it);
      at := NameIsHeld(p, roots, it, n);
    } else {
      var m :| ReachedIn(p, roots, m, steps - 1) && NamedBy(p, BodyOf(p, m), n);
      var outer := ReachedIsHeld(p, roots, m, steps - 1);
      var it :| it in BodyOf(p, m) && n in ListWalk.Names(p, it);
      HeldNext(p, roots, outer, it);
      at := NameIsHeld(p, roots, it, n);
    }
  }

  /** Everything an item names or holds is reached from the roots. */
  ghost predicate Inside(p: Program, roots: seq<Item>, it: Item) {
    (forall n | n in ListWalk.Names(p, it) :: Reached(p, roots, n)) && forall s | s in Leaves(p, it) :: ReachedLeaf(p, roots, s)
  }

  lemma InsideNext(p: Program, roots: seq<Item>, it: Item, part: Item)
    requires Inside(p, roots, it) && Opens(p, it, part)
    ensures Inside(p, roots, part)
  {
    hide ReadingOf, BodyOf, Reached;
    if ReadingOf(p, it).Follow? {
      var m := ReadingOf(p, it).n;
      forall n | n in ListWalk.Names(p, part) ensures Reached(p, roots, n) {
        ReachedNext(p, roots, m, n);
      }
    }
  }

  lemma {:induction false} HeldIsInside(p: Program, roots: seq<Item>, it: Item, steps: nat)
    requires HeldIn(p, roots, it, steps)
    ensures Inside(p, roots, it)
    decreases steps
  {
    hide Inside, Holds, Opens;
    if steps == 0 {
      RootIsInside(p, roots, it);
    } else {
      var outer :| HeldIn(p, roots, outer, steps - 1) && Holds(p, outer, it);
      HeldIsInside(p, roots, outer, steps - 1);
      OpensWhatItHolds(p, outer, it);
      InsideNext(p, roots, outer, it);
    }
  }

  lemma RootIsInside(p: Program, roots: seq<Item>, it: Item)
    requires it in roots
    ensures Inside(p, roots, it)
  {
    hide ListWalk.Names, Leaves, BodyOf;
    forall n | n in ListWalk.Names(p, it) ensures Reached(p, roots, n) {
      assert ReachedIn(p, roots, n, 0);
    }
  }

  /** A leaf is reached by the walk's own reading exactly when the roots hold it. */
  lemma ReachedLeafIsHeld(p: Program, roots: seq<Item>, s: Site)
    ensures ReachedLeaf(p, roots, s) <==> HeldLeaf(p, roots, s)
  {
    hide ReadingOf, BodyOf, Leaves, IsLeaf, ReachedIn, HeldIn;
    if ReachedLeaf(p, roots, s) {
      if LeafOf(p, roots, s) {
        var it :| it in roots && s in Leaves(p, it);
        RootIsHeld(p, roots, it);
        LeafIsHeld(p, roots, it, s);
      } else {
        var n :| Reached(p, roots, n) && LeafOf(p, BodyOf(p, n), s);
        var steps: nat :| ReachedIn(p, roots, n, steps);
        var outer := ReachedIsHeld(p, roots, n, steps);
        var it :| it in BodyOf(p, n) && s in Leaves(p, it);
        HeldNext(p, roots, outer, it);
        LeafIsHeld(p, roots, it, s);
      }
    }
    if HeldLeaf(p, roots, s) {
      var it :| Held(p, roots, it) && IsLeaf(p, it, s);
      var steps: nat :| HeldIn(p, roots, it, steps);
      HeldIsInside(p, roots, it, steps);
      RecordsTheLeaf(p, it, s);
      OwnLeaf(p, it, s);
    }
  }

  lemma OwnLeaf(p: Program, it: Item, s: Site)
    requires ReadingOf(p, it) == Record(s)
    ensures s in Leaves(p, it)
  {}

  lemma FollowsWhatItReads(p: Program, it: Item, v: Variable)
    ensures ReadingOf(p, it) == Follow(ByVariable(v, it.rule)) <==> Known(p, v) && ReadsVariable(p, it, v)
    ensures forall rule | ReadingOf(p, it) == Follow(ByVariable(v, rule)) :: rule == it.rule
  {
    VariableIsRead(p, it, v);
  }

  /** And a variable is reached by a rule exactly when something held reads it by that rule. */
  lemma ReachedNameIsHeld(p: Program, roots: seq<Item>, v: Variable, rule: Rule)
    ensures Reached(p, roots, ByVariable(v, rule)) <==> Known(p, v) && HeldName(p, roots, v, rule)
  {
    hide ReadingOf, BodyOf, ReachedIn, HeldIn, ReadsVariable, Known;
    if Reached(p, roots, ByVariable(v, rule)) {
      var steps: nat :| ReachedIn(p, roots, ByVariable(v, rule), steps);
      var at := ReachedIsHeld(p, roots, ByVariable(v, rule), steps);
      FollowsWhatItReads(p, at, v);
    }
    if Known(p, v) && HeldName(p, roots, v, rule) {
      var it :| Held(p, roots, it) && it.rule == rule && ReadsVariable(p, it, v);
      var steps: nat :| HeldIn(p, roots, it, steps);
      HeldIsInside(p, roots, it, steps);
      FollowsWhatItReads(p, it, v);
      OwnName(p, it, ByVariable(v, rule));
    }
  }

  lemma OwnName(p: Program, it: Item, n: Followed)
    requires ReadingOf(p, it) == Follow(n)
    ensures n in ListWalk.Names(p, it)
  {}

  // ---------------------------------------------------------------- what a finished walk has recorded

  /** No variable the program knows is held both as a list and as one ID. */
  ghost predicate OneRule(p: Program, roots: seq<Item>) {
    forall v | Known(p, v) :: !(HeldName(p, roots, v, AsList) && HeldName(p, roots, v, AsOne))
  }

  /** No expression is a leaf with two values: an ID where it is read as one, and unresolved where it is read as a list. */
  ghost predicate OneValue(p: Program, roots: seq<Item>) {
    forall s, t | HeldLeaf(p, roots, s) && HeldLeaf(p, roots, t) && s.expr == t.expr :: s == t
  }

  /**
    A finished walk records only leaves its roots hold, with the value they have there, one site per expression. Where no
    variable is held by both rules it records every one of them; where no leaf has two values its sites are the leaves.
  */
  lemma WalkMeetsLeaves(p: Program, roots: seq<Item>)
    ensures var sites := Walked(p, roots, START).sites;
            && (forall s | s in sites :: HeldLeaf(p, roots, s))
            && (forall i, j | 0 <= i < j < |sites| :: sites[i].expr != sites[j].expr)
            && (OneRule(p, roots) ==> forall s | HeldLeaf(p, roots, s) :: exists t | t in sites :: t.expr == s.expr)
            && (OneRule(p, roots) && OneValue(p, roots) ==> forall s :: s in sites <==> HeldLeaf(p, roots, s))
  {
    hide Walked, ReachedLeaf, HeldLeaf, Reached, HeldName, Known, CrossedKept, AllDone, BodyOf;
    var end := Walked(p, roots, START);
    WalkedReads(p, roots, START);
    WalkedOnceEach(p, roots, START);
    NothingDroppedIff(p, roots);
    forall s ensures ReachedLeaf(p, roots, s) <==> HeldLeaf(p, roots, s) {
      ReachedLeafIsHeld(p, roots, s);
    }
    forall v ensures Crossed(p, roots, v)
      <==> Known(p, v) && HeldName(p, roots, v, AsList) && HeldName(p, roots, v, AsOne)
    {
      ReachedNameIsHeld(p, roots, v, AsList);
      ReachedNameIsHeld(p, roots, v, AsOne);
    }
    assert end.sites == end.sites[|START.sites|..];
    hide Crossed, OneRule;
    if forall v :: !Crossed(p, roots, v) {
      forall s | HeldLeaf(p, roots, s) ensures exists t | t in end.sites :: t.expr == s.expr {
        assert s.expr in end.recorded;
      }
    }
    OneRuleIsUncrossed(p, roots);
  }

  lemma OneRuleIsUncrossed(p: Program, roots: seq<Item>)
    requires forall v :: Crossed(p, roots, v) <==> Known(p, v) && HeldName(p, roots, v, AsList) && HeldName(p, roots, v, AsOne)
    ensures OneRule(p, roots) <==> forall v :: !Crossed(p, roots, v)
  {
    hide Crossed, Known, HeldName;
  }
}
