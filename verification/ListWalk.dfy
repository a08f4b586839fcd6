/**
  The walk that collects every published ID a list expression can hold, in one package or across them.

  The walk follows a variable to what it is given and a helper to what it returns, each once per run, and records every
  expression it cannot follow further as one site. It ends on any program, cyclic or not; its sites are leaves the roots
  reach, no expression twice. But a variable is marked without the rule it is read by, list or single ID, and what it is
  given is read by the first rule it is met under alone. `NothingDroppedIff` says exactly when no leaf is lost to that,
  and `SomeLeafIsDropped` shows one that is.
*/
module ListWalk {
  import opened Outcomes

  datatype Variable = Variable(id: nat)

  datatype Function = Function(id: nat)

  /** An expression of the program; `id` is the node, so two nodes written alike are two values. */
  datatype Expr =
    | Paren(id: nat, inner: Expr)
    | ListLiteral(id: nat, elements: seq<Expr>)
    | Append(id: nat, args: seq<Expr>, spread: bool)
    | Conversion(id: nat, operand: Expr)
    | Call(id: nat, callee: Option<Function>, args: seq<Expr>)
    | FieldRead(id: nat)
    | Nil(id: nat)
    | Ident(id: nat, variable: Option<Variable>)
    | Other(id: nat)

  /** The two recording rules: an expression is read as a list of IDs, or as one ID. */
  datatype Rule = AsList | AsOne

  /** An expression to be read by a rule. */
  datatype Item = Item(rule: Rule, expr: Expr)

  datatype Parameter = Parameter(of: Function, index: nat, variadic: bool)

  datatype CallSite = CallSite(args: seq<Expr>, ellipsis: bool)

  /** What the loader knows: definitions, callers, returns, constants, folds and what carries a recorded list. */
  datatype Program = Program(
    values: map<Variable, seq<Expr>>,
    ranges: map<Variable, Expr>,
    params: map<Variable, Parameter>,
    callers: map<Function, seq<CallSite>>,
    returned: map<Function, seq<Expr>>,
    lists: set<Variable>,
    carrierNames: set<Variable>,
    sinks: set<Function>,
    recordedReads: set<Expr>,
    recordedCarriers: set<Expr>,
    answers: map<Expr, string>)

  /** A recorded site: the expression, with the ID it folds to if it folds. */
  datatype Site = Site(expr: Expr, value: Option<string>)

  /** What is followed: a variable, by the rule its values are read by, or a function. */
  datatype Followed = ByVariable(v: Variable, rule: Rule) | ByFunction(f: Function)

  function Unparen(e: Expr): (u: Expr)
    ensures !u.Paren?
    ensures u == e || u < e
  {
    match e
    case Paren(_, inner) => Unparen(inner)
    case _ => e
  }

  // ---------------------------------------------------------------- what an item names

  /** A variable the index can follow: to its values, to the list a range walks, or out to its callers' arguments. */
  predicate Followable(p: Program, v: Variable) {
    v in p.values || v in p.ranges || (v in p.params && v in p.carrierNames)
  }

  /** One caller's arguments for a parameter, each with the rule it is read by. */
  function ArgumentItems(param: Parameter, caller: CallSite, rule: Rule): seq<Item> {
    if param.index >= |caller.args| then []
    else if !param.variadic then [Item(rule, caller.args[param.index])]
    else
      seq(|caller.args| - param.index,
          i requires 0 <= i < |caller.args| - param.index =>
            Item(if caller.ellipsis then rule else AsOne, caller.args[param.index + i]))
  }

  function CallerItems(param: Parameter, callers: seq<CallSite>, rule: Rule): seq<Item> {
    if callers == [] then []
    else ArgumentItems(param, callers[0], rule) + CallerItems(param, callers[1..], rule)
  }

  function AllBy(rule: Rule, exprs: seq<Expr>): (items: seq<Item>)
    ensures forall it | it in items :: it.expr in exprs
  {
    seq(|exprs|, i requires 0 <= i < |exprs| => Item(rule, exprs[i]))
  }

  /** What following a variable or a function reads, in the order it reads it. */
  function BodyOf(p: Program, n: Followed): seq<Item> {
    match n
    case ByFunction(f) => if f in p.returned then AllBy(AsList, p.returned[f]) else []
    case ByVariable(v, rule) =>
      if v in p.values then AllBy(rule, p.values[v])
      else if v in p.ranges then [Item(AsList, p.ranges[v])]
      else if v !in p.params then []
      else
        var param := p.params[v];
        if param.of in p.sinks then []
        else if param.of in p.callers then CallerItems(param, p.callers[param.of], rule)
        else []
  }

  /** A list parameter whose name says it carries the values the site publishes. */
  predicate Carrier(p: Program, e: Expr) {
    var u := Unparen(e);
    u.Ident? && u.variable.Some? && u.variable.value in p.params && u.variable.value in p.lists
    && u.variable.value in p.carrierNames
  }

  predicate Recorded(p: Program, e: Expr) {
    Unparen(e) in p.recordedReads || Unparen(e) in p.recordedCarriers
  }

  /** A call that hands back lists recorded where they are written, at least one of them. */
  predicate ListCopy(p: Program, args: seq<Expr>) {
    (exists a | a in args :: Recorded(p, a)) && (forall a | a in args :: Recorded(p, a) || Carrier(p, a))
  }

  /** The carriers among the arguments of a list copy, in order. */
  function CarriersOf(p: Program, args: seq<Expr>): (carriers: seq<Expr>)
    ensures forall a | a in carriers :: a in args && Carrier(p, a)
  {
    if args == [] then []
    else (if !Recorded(p, args[0]) && Carrier(p, args[0]) then [args[0]] else []) + CarriersOf(p, args[1..])
  }

  predicate Follows(p: Program, callee: Option<Function>) {
    callee.Some? && callee.value in p.returned
  }

  /** The first argument of an append and a spread last one are lists; the others are elements. */
  function AppendItems(args: seq<Expr>, spread: bool): seq<Item> {
    seq(|args|, i requires 0 <= i < |args| =>
                  Item(if i == 0 || (spread && i == |args| - 1) then AsList else AsOne, args[i]))
  }

  /** What the walk does with an item: follow a name, record a site, or read the parts it is made of. */
  datatype Reading = Follow(n: Followed) | Record(s: Site) | Parts(items: seq<Item>)

  function ReadingOf(p: Program, it: Item): (r: Reading)
    ensures r.Parts? ==> forall c | c in r.items :: c.expr < it.expr
    ensures r.Follow? ==> CanFollow(p, r.n)
  {
    var u := Unparen(it.expr);
    match it.rule
    case AsOne =>
      if it.expr in p.answers then Record(Site(it.expr, Some(p.answers[it.expr])))
      else if u.Ident? && u.variable.Some? && Followable(p, u.variable.value) then Follow(ByVariable(u.variable.value, AsOne))
      else Record(Site(it.expr, None))
    case AsList =>
      match u
      case ListLiteral(_, elements) => Parts(AllBy(AsOne, elements))
      case Append(_, args, spread) => Parts(AppendItems(args, spread))
      case Conversion(_, operand) => Parts([Item(AsList, operand)])
      case Call(_, callee, args) =>
        if ListCopy(p, args) then
          assert forall a | a in args :: a < u;
          Parts(AllBy(AsList, CarriersOf(p, args)))
        else if Follows(p, callee) then Follow(ByFunction(callee.value))
        else Record(Site(u, None))
      case FieldRead(_) => if u in p.recordedReads then Parts([]) else Record(Site(u, None))
      case Nil(_) => Parts([])
      case Ident(_, variable) =>
        if variable.Some? && Followable(p, variable.value) then Follow(ByVariable(variable.value, AsList))
        else Record(Site(u, None))
      case Other(_) => Record(Site(it.expr, None))
  }

  predicate CanFollow(p: Program, n: Followed) {
    match n
    case ByVariable(v, _) => Followable(p, v)
    case ByFunction(f) => f in p.returned
  }

  /** Every variable and function an item names, through the lists and appends it is made of. */
  ghost function Names(p: Program, it: Item): set<Followed>
    decreases it.expr
  {
    match ReadingOf(p, it)
    case Follow(n) => {n}
    case Record(_) => {}
    case Parts(items) => set c, n | c in items && n in Names(p, c) :: n
  }

  /** Every leaf an item holds, through the lists and appends it is made of. */
  ghost function Leaves(p: Program, it: Item): set<Site>
    decreases it.expr
  {
    match ReadingOf(p, it)
    case Follow(_) => {}
    case Record(s) => {s}
    case Parts(items) => set c, s | c in items && s in Leaves(p, c) :: s
  }

  // ---------------------------------------------------------------- reachability

  ghost predicate NamedBy(p: Program, items: seq<Item>, n: Followed) {
    exists it | it in items :: n in Names(p, it)
  }

  ghost predicate LeafOf(p: Program, items: seq<Item>, s: Site) {
    exists it | it in items :: s in Leaves(p, it)
  }

  /** n is named by the items, or by the body of something reachable in one step less. */
  ghost predicate ReachedIn(p: Program, items: seq<Item>, n: Followed, steps: nat)
    decreases steps
  {
    if steps == 0 then NamedBy(p, items, n)
    else exists m :: ReachedIn(p, items, m, steps - 1) && NamedBy(p, BodyOf(p, m), n)
  }

  ghost predicate Reached(p: Program, items: seq<Item>, n: Followed) {
    exists steps: nat :: ReachedIn(p, items, n, steps)
  }

  /** A leaf of the items, or of the body of anything they reach. */
  ghost predicate ReachedLeaf(p: Program, items: seq<Item>, s: Site) {
    LeafOf(p, items, s) || exists n :: Reached(p, items, n) && LeafOf(p, BodyOf(p, n), s)
  }

  lemma ReachedNext(p: Program, items: seq<Item>, m: Followed, n: Followed)
    requires Reached(p, items, m) && NamedBy(p, BodyOf(p, m), n)
    ensures Reached(p, items, n)
  {
    hide NamedBy, BodyOf;
    var before: nat :| ReachedIn(p, items, m, before);
    assert ReachedIn(p, items, n, before + 1);
  }

  /** Reachability through the body of something reachable. */
  lemma {:induction false} ReachedThrough(p: Program, items: seq<Item>, m: Followed, n: Followed, steps: nat)
    requires Reached(p, items, m) && ReachedIn(p, BodyOf(p, m), n, steps)
    ensures Reached(p, items, n)
    decreases steps
  {
    hide NamedBy, BodyOf, Reached;
    if steps == 0 {
      ReachedNext(p, items, m, n);
    } else {
      var mid :| ReachedIn(p, BodyOf(p, m), mid, steps - 1) && NamedBy(p, BodyOf(p, mid), n);
      ReachedThrough(p, items, m, mid, steps - 1);
      ReachedNext(p, items, mid, n);
    }
  }

  lemma {:induction false} ReachedByMore(p: Program, items: seq<Item>, more: seq<Item>, n: Followed, steps: nat)
    requires (forall it | it in items :: it in more) && ReachedIn(p, items, n, steps)
    ensures Reached(p, more, n)
    decreases steps
  {
    hide BodyOf, Names;
    if steps == 0 {
      assert NamedBy(p, more, n);
      assert ReachedIn(p, more, n, 0);
    } else {
      hide NamedBy, Reached;
      var m :| ReachedIn(p, items, m, steps - 1) && NamedBy(p, BodyOf(p, m), n);
      ReachedByMore(p, items, more, m, steps - 1);
      ReachedNext(p, more, m, n);
    }
  }

  // ---------------------------------------------------------------- the walk, as a function of what it reads

  /** What the collector holds at one moment; `rules` keeps the rule each marked variable was followed by. */
  datatype State = State(sites: seq<Site>, visited: set<Function>, rules: map<Variable, Rule>, recorded: set<Expr>)

  /** Followed before, a variable by whichever rule. */
  predicate Met(st: State, n: Followed) {
    match n
    case ByVariable(v, _) => v in st.rules
    case ByFunction(f) => f in st.visited
  }

  /** Followed before, a variable by this rule. */
  predicate Has(st: State, n: Followed) {
    match n
    case ByVariable(v, rule) => v in st.rules && st.rules[v] == rule
    case ByFunction(f) => f in st.visited
  }

  function Mark(a: State, n: Followed): State {
    match n
    case ByVariable(v, rule) => a.(rules := a.rules[v := rule])
    case ByFunction(f) => a.(visited := a.visited + {f})
  }

  function Keep(a: State, s: Site): State {
    if s.expr in a.recorded then a else a.(sites := a.sites + [s], recorded := a.recorded + {s.expr})
  }

  ghost function Variables(p: Program): set<Variable> {
    p.values.Keys + p.ranges.Keys + p.params.Keys
  }

  /** How many variables and functions are still to be followed. */
  ghost function ToFollow(p: Program, st: State): nat {
    |Variables(p) - st.rules.Keys| + |p.returned.Keys - st.visited|
  }

  lemma FewerElements<T>(a: set<T>, b: set<T>)
    requires a <= b
    ensures |a| <= |b| && (a != b ==> |a| < |b|)
  {
    assert b == a + (b - a);
    assert |b| == |a| + |b - a|;
  }

  lemma MarkedFalls(p: Program, n: Followed, a: State)
    requires CanFollow(p, n) && !Met(a, n)
    ensures ToFollow(p, Mark(a, n)) < ToFollow(p, a)
  {
    var b := Mark(a, n);
    FewerElements(Variables(p) - b.rules.Keys, Variables(p) - a.rules.Keys);
    FewerElements(p.returned.Keys - b.visited, p.returned.Keys - a.visited);
    match n
    case ByVariable(v, _) => assert v in Variables(p) - a.rules.Keys && v !in Variables(p) - b.rules.Keys;
    case ByFunction(f) => assert f in p.returned.Keys - a.visited && f !in p.returned.Keys - b.visited;
  }

  /** How many nodes an expression has. */
  function Size(e: Expr): (n: nat)
    ensures n > 0
  {
    match e
    case Paren(_, inner) => 1 + Size(inner)
    case ListLiteral(_, elements) => 1 + Sizes(elements)
    case Append(_, args, _) => 1 + Sizes(args)
    case Conversion(_, operand) => 1 + Size(operand)
    case Call(_, _, args) => 1 + Sizes(args)
    case _ => 1
  }

  function Sizes(exprs: seq<Expr>): nat {
    if exprs == [] then 0 else Size(exprs[0]) + Sizes(exprs[1..])
  }

  function Weight(items: seq<Item>): nat {
    if items == [] then 0 else Size(items[0].expr) + Weight(items[1..])
  }

  lemma {:induction false} WeightJoins(xs: seq<Item>, ys: seq<Item>)
    ensures Weight(xs + ys) == Weight(xs) + Weight(ys)
  {
    if xs == [] {
      assert xs + ys == ys;
    } else {
      assert (xs + ys)[1..] == xs[1..] + ys;
      WeightJoins(xs[1..], ys);
    }
  }

  lemma UnparenSize(e: Expr)
    ensures Size(Unparen(e)) <= Size(e)
  {}

  /** Items over the same expressions in the same order weigh what those do. */
  lemma {:induction false} WeightOf(items: seq<Item>, exprs: seq<Expr>)
    requires |items| == |exprs| && forall i | 0 <= i < |items| :: items[i].expr == exprs[i]
    ensures Weight(items) == Sizes(exprs)
  {
    if items == [] {
    } else {
      WeightOf(items[1..], exprs[1..]);
    }
  }

  lemma {:induction false} CarriersSize(p: Program, args: seq<Expr>)
    ensures Sizes(CarriersOf(p, args)) <= Sizes(args)
  {
    if args == [] {
    } else {
      CarriersSize(p, args[1..]);
      var rest := CarriersOf(p, args[1..]);
      assert ([args[0]] + rest)[1..] == rest && [] + rest == rest;
    }
  }

  /** What is read in place of an item weighs less. */
  lemma PartsWeigh(p: Program, it: Item)
    requires ReadingOf(p, it).Parts?
    ensures Weight(ReadingOf(p, it).items) < Size(it.expr)
  {
    hide Carrier, Recorded, ListCopy, Follows;
    var u := Unparen(it.expr);
    UnparenSize(it.expr);
    var parts := ReadingOf(p, it).items;
    match u
    case ListLiteral(_, elements) => WeightOf(parts, elements);
    case Append(_, args, _) => WeightOf(parts, args);
    case Conversion(_, operand) => WeightOf(parts, [operand]);
    case Call(_, _, args) =>
      CarriersSize(p, args);
      WeightOf(parts, CarriersOf(p, args));
    case _ =>
  }

  /** The walk of these items: every reading in order, what an item stands for in front of the items behind it. */
  ghost function Walked(p: Program, items: seq<Item>, st: State): State
    decreases ToFollow(p, st), Weight(items)
  {
    if items == [] then st
    else
      var rest := items[1..];
      match ReadingOf(p, items[0])
      case Record(s) => Walked(p, rest, Keep(st, s))
      case Follow(n) =>
        if Met(st, n) then Walked(p, rest, st)
        else
          MarkedFalls(p, n, st);
          Walked(p, BodyOf(p, n) + rest, Mark(st, n))
      case Parts(parts) =>
        PartsWeigh(p, items[0]);
        WeightJoins(parts, rest);
        Walked(p, parts + rest, st)
  }

  // ---------------------------------------------------------------- one stretch of the walk

  /** Everything the item names has been followed by some rule, and each of its leaves is recorded. */
  ghost predicate Done(p: Program, it: Item, st: State) {
    (forall n | n in Names(p, it) :: Met(st, n)) && (forall s | s in Leaves(p, it) :: s.expr in st.recorded)
  }

  ghost predicate AllDone(p: Program, items: seq<Item>, st: State) {
    forall it | it in items :: Done(p, it, st)
  }

  /** The sites are one per recorded expression, in the order they were recorded. */
  ghost predicate OnceEach(st: State) {
    && (forall i, j | 0 <= i < j < |st.sites| :: st.sites[i].expr != st.sites[j].expr)
    && st.recorded == set s | s in st.sites :: s.expr
  }

  ghost predicate Grown(a: State, b: State) {
    && (forall v | v in a.rules :: v in b.rules && b.rules[v] == a.rules[v])
    && a.visited <= b.visited && a.recorded <= b.recorded
    && |a.sites| <= |b.sites| && b.sites[..|a.sites|] == a.sites
  }

  lemma GrownOn(a: State, b: State, c: State)
    requires Grown(a, b) && Grown(b, c)
    ensures Grown(a, c)
  {
    assert c.sites[..|b.sites|][..|a.sites|] == c.sites[..|a.sites|];
  }

  lemma GrownFalls(p: Program, a: State, b: State)
    requires Grown(a, b)
    ensures ToFollow(p, b) <= ToFollow(p, a)
  {
    FewerElements(Variables(p) - b.rules.Keys, Variables(p) - a.rules.Keys);
    FewerElements(p.returned.Keys - b.visited, p.returned.Keys - a.visited);
  }

  /** The stretch from a to b read these items: all of them, what they reach that was not followed before, nothing else. */
  ghost predicate Read(p: Program, items: seq<Item>, a: State, b: State) {
    && Grown(a, b)
    && AllDone(p, items, b)
    && (forall n | Has(b, n) && !Has(a, n) :: AllDone(p, BodyOf(p, n), b) && Reached(p, items, n))
    && (forall s | s in b.sites[|a.sites|..] :: ReachedLeaf(p, items, s))
  }

  lemma DoneKept(p: Program, items: seq<Item>, a: State, b: State)
    requires AllDone(p, items, a) && Grown(a, b)
    ensures AllDone(p, items, b)
  {
    hide Names, Leaves;
  }

  lemma ReachedLeafByMore(p: Program, items: seq<Item>, more: seq<Item>, s: Site)
    requires (forall it | it in items :: it in more) && ReachedLeaf(p, items, s)
    ensures ReachedLeaf(p, more, s)
  {
    hide Leaves, BodyOf;
    if !LeafOf(p, items, s) {
      var n :| Reached(p, items, n) && LeafOf(p, BodyOf(p, n), s);
      var steps: nat :| ReachedIn(p, items, n, steps);
      ReachedByMore(p, items, more, n, steps);
    }
  }

  /** Two stretches one after the other read what both read. */
  lemma ReadBoth(p: Program, xs: seq<Item>, ys: seq<Item>, a: State, b: State, c: State)
    requires Read(p, xs, a, b) && Read(p, ys, b, c)
    ensures Read(p, xs + ys, a, c)
  {
    hide Reached, ReachedLeaf, AllDone, BodyOf;
    var all := xs + ys;
    assert AllDone(p, all, c) by {
      DoneKept(p, xs, b, c);
      DoneOfBoth(p, xs, ys, c);
    }
    forall n | Has(c, n) && !Has(a, n) ensures AllDone(p, BodyOf(p, n), c) && Reached(p, all, n) {
      if Has(b, n) {
        DoneKept(p, BodyOf(p, n), b, c);
        ReachedFromMore(p, xs, all, n);
      } else {
        ReachedFromMore(p, ys, all, n);
      }
    }
    forall s | s in c.sites[|a.sites|..] ensures ReachedLeaf(p, all, s) {
      if s in b.sites[|a.sites|..] {
        ReachedLeafByMore(p, xs, all, s);
      } else {
        assert s in c.sites[|b.sites|..];
        ReachedLeafByMore(p, ys, all, s);
      }
    }
  }

  lemma ReachedFromMore(p: Program, items: seq<Item>, more: seq<Item>, n: Followed)
    requires (forall it | it in items :: it in more) && Reached(p, items, n)
    ensures Reached(p, more, n)
  {
    var steps: nat :| ReachedIn(p, items, n, steps);
    ReachedByMore(p, items, more, n, steps);
  }

  lemma DoneOfBoth(p: Program, xs: seq<Item>, ys: seq<Item>, st: State)
    requires AllDone(p, xs, st) && AllDone(p, ys, st)
    ensures AllDone(p, xs + ys, st)
  {
    hide Done;
  }

  lemma ReadNothing(p: Program, a: State)
    ensures Read(p, [], a, a)
  {}

  /** An item that names one thing names it. */
  lemma ItemNames(p: Program, it: Item, n: Followed)
    requires ReadingOf(p, it) == Follow(n)
    ensures Names(p, it) == {n} && Leaves(p, it) == {}
    ensures Reached(p, [it], n)
  {
    hide BodyOf, ReadingOf;
    assert it in [it] && n in Names(p, it);
    assert NamedBy(p, [it], n);
    assert ReachedIn(p, [it], n, 0);
  }

  lemma ItemReaches(p: Program, it: Item, n: Followed, m: Followed)
    requires ReadingOf(p, it) == Follow(n) && Reached(p, BodyOf(p, n), m)
    ensures Reached(p, [it], m)
  {
    ItemNames(p, it, n);
    hide BodyOf, ReadingOf, ReachedIn;
    var steps: nat :| ReachedIn(p, BodyOf(p, n), m, steps);
    ReachedThrough(p, [it], n, m, steps);
  }

  lemma ItemReachesLeaf(p: Program, it: Item, n: Followed, s: Site)
    requires ReadingOf(p, it) == Follow(n) && ReachedLeaf(p, BodyOf(p, n), s)
    ensures ReachedLeaf(p, [it], s)
  {
    ItemNames(p, it, n);
    hide BodyOf, LeafOf, ReadingOf;
    if !LeafOf(p, BodyOf(p, n), s) {
      var m :| Reached(p, BodyOf(p, n), m) && LeafOf(p, BodyOf(p, m), s);
      hide Reached;
      ItemReaches(p, it, n, m);
    }
  }

  /** Marking a name and reading its body after follows it. */
  lemma ReadFollowing(p: Program, it: Item, n: Followed, a: State, b: State)
    requires ReadingOf(p, it) == Follow(n) && !Met(a, n) && Read(p, BodyOf(p, n), Mark(a, n), b)
    ensures Read(p, [it], a, b)
  {
    ItemNames(p, it, n);
    MarkedHas(a, n);
    hide BodyOf, Names, Leaves, Reached, ReachedLeaf, ReadingOf, Mark;
    assert Grown(a, b) by {
      GrownOn(a, Mark(a, n), b);
    }
    assert AllDone(p, [it], b);
    forall m | Has(b, m) && !Has(a, m) ensures AllDone(p, BodyOf(p, m), b) && Reached(p, [it], m) {
      if m != n {
        ItemReaches(p, it, n, m);
      }
    }
    forall s | s in b.sites[|a.sites|..] ensures ReachedLeaf(p, [it], s) {
      ItemReachesLeaf(p, it, n, s);
    }
  }

  lemma MarkedHas(a: State, n: Followed)
    requires !Met(a, n)
    ensures Grown(a, Mark(a, n)) && Mark(a, n).sites == a.sites
    ensures forall m :: Has(Mark(a, n), m) <==> Has(a, m) || m == n
    ensures forall b | Grown(Mark(a, n), b) :: Has(b, n) && Met(b, n)
  {}

  /** A name followed before, by whichever rule, is left. */
  lemma ReadAgain(p: Program, it: Item, n: Followed, a: State)
    requires ReadingOf(p, it) == Follow(n) && Met(a, n)
    ensures Read(p, [it], a, a)
  {
    ItemNames(p, it, n);
    hide BodyOf, Names, Leaves, Reached, ReachedLeaf, ReadingOf;
  }

  /** A leaf recorded, or met again, is a stretch that reads it. */
  lemma ReadLeaf(p: Program, it: Item, s: Site, a: State)
    requires ReadingOf(p, it) == Record(s)
    ensures Read(p, [it], a, Keep(a, s))
  {
    assert Names(p, it) == {} && Leaves(p, it) == {s};
    hide Names, Leaves, BodyOf, Reached, ReadingOf;
    assert LeafOf(p, [it], s);
    var b := Keep(a, s);
    assert forall x | x in b.sites[|a.sites|..] :: x == s;
  }

  // ---------------------------------------------------------------- reading by other names


  /** Both lists of items name the same variables and functions and hold the same leaves. */
  ghost predicate SameContents(p: Program, xs: seq<Item>, ys: seq<Item>) {
    && (forall n :: NamedBy(p, xs, n) <==> NamedBy(p, ys, n))
    && (forall s :: LeafOf(p, xs, s) <==> LeafOf(p, ys, s))
  }

  lemma {:induction false} ReachedSame(p: Program, xs: seq<Item>, ys: seq<Item>, n: Followed, steps: nat)
    requires SameContents(p, xs, ys) && ReachedIn(p, xs, n, steps)
    ensures Reached(p, ys, n)
    decreases steps
  {
    hide BodyOf, Names;
    if steps == 0 {
      assert ReachedIn(p, ys, n, 0);
    } else {
      hide NamedBy, LeafOf, Reached;
      var m :| ReachedIn(p, xs, m, steps - 1) && NamedBy(p, BodyOf(p, m), n);
      ReachedSame(p, xs, ys, m, steps - 1);
      ReachedNext(p, ys, m, n);
    }
  }

  lemma ReachedLeafSame(p: Program, xs: seq<Item>, ys: seq<Item>, s: Site)
    requires SameContents(p, xs, ys) && ReachedLeaf(p, xs, s)
    ensures ReachedLeaf(p, ys, s)
  {
    hide LeafOf, NamedBy, BodyOf;
    if !LeafOf(p, xs, s) {
      var n :| Reached(p, xs, n) && LeafOf(p, BodyOf(p, n), s);
      var steps: nat :| ReachedIn(p, xs, n, steps);
      ReachedSame(p, xs, ys, n, steps);
    }
  }

  lemma DoneSame(p: Program, xs: seq<Item>, ys: seq<Item>, st: State)
    requires SameContents(p, xs, ys) && AllDone(p, xs, st)
    ensures AllDone(p, ys, st)
  {
    hide Names, Leaves;
    forall it | it in ys ensures Done(p, it, st) {
      forall n | n in Names(p, it) ensures Met(st, n) {
        assert NamedBy(p, ys, n);
        assert NamedBy(p, xs, n);
      }
      forall s | s in Leaves(p, it) ensures s.expr in st.recorded {
        assert LeafOf(p, ys, s);
        assert LeafOf(p, xs, s);
      }
    }
  }

  lemma ReadSame(p: Program, xs: seq<Item>, ys: seq<Item>, a: State, b: State)
    requires SameContents(p, xs, ys) && Read(p, xs, a, b)
    ensures Read(p, ys, a, b)
  {
    hide SameContents, AllDone, BodyOf, ReachedLeaf, Reached;
    DoneSame(p, xs, ys, b);
    forall n | Has(b, n) && !Has(a, n) ensures Reached(p, ys, n) {
      ReachedFromSame(p, xs, ys, n);
    }
    forall s | s in b.sites[|a.sites|..] ensures ReachedLeaf(p, ys, s) {
      ReachedLeafSame(p, xs, ys, s);
    }
  }

  lemma ReachedFromSame(p: Program, xs: seq<Item>, ys: seq<Item>, n: Followed)
    requires SameContents(p, xs, ys) && Reached(p, xs, n)
    ensures Reached(p, ys, n)
  {
    hide SameContents, ReachedIn;
    var steps: nat :| ReachedIn(p, xs, n, steps);
    ReachedSame(p, xs, ys, n, steps);
  }

  /** A list, an append or a conversion holds what its parts hold. */
  lemma ItemIsParts(p: Program, it: Item, parts: seq<Item>)
    requires ReadingOf(p, it) == Parts(parts)
    ensures SameContents(p, parts, [it])
  {
    hide ReadingOf;
    assert forall n :: NamedBy(p, [it], n) <==> n in Names(p, it);
    assert forall s :: LeafOf(p, [it], s) <==> s in Leaves(p, it);
  }

  // ---------------------------------------------------------------- what the walk does

  lemma WalkedRecord(p: Program, it: Item, rest: seq<Item>, s: Site, st: State)
    requires ReadingOf(p, it) == Record(s)
    ensures Walked(p, [it] + rest, st) == Walked(p, rest, Keep(st, s))
  {
    hide ReadingOf;
    assert ([it] + rest)[1..] == rest;
  }

  lemma WalkedParts(p: Program, it: Item, rest: seq<Item>, parts: seq<Item>, st: State)
    requires ReadingOf(p, it) == Parts(parts)
    ensures Walked(p, [it] + rest, st) == Walked(p, parts + rest, st)
    ensures Weight(parts + rest) < Weight([it] + rest)
  {
    PartsWeigh(p, it);
    WeightJoins(parts, rest);
    hide ReadingOf;
    assert ([it] + rest)[1..] == rest;
  }

  lemma WalkedAgain(p: Program, it: Item, rest: seq<Item>, n: Followed, st: State)
    requires ReadingOf(p, it) == Follow(n) && Met(st, n)
    ensures Walked(p, [it] + rest, st) == Walked(p, rest, st)
  {
    hide ReadingOf;
    assert ([it] + rest)[1..] == rest;
  }

  lemma WalkedFollow(p: Program, it: Item, rest: seq<Item>, n: Followed, st: State)
    requires ReadingOf(p, it) == Follow(n) && !Met(st, n)
    ensures Walked(p, [it] + rest, st) == Walked(p, BodyOf(p, n) + rest, Mark(st, n))
    ensures ToFollow(p, Mark(st, n)) < ToFollow(p, st)
  {
    hide ReadingOf, BodyOf, ToFollow;
    MarkedFalls(p, n, st);
    assert ([it] + rest)[1..] == rest;
  }

  lemma KeptFalls(p: Program, st: State, s: Site)
    ensures ToFollow(p, Keep(st, s)) == ToFollow(p, st)
  {}

  lemma WeightFirst(it: Item, rest: seq<Item>)
    ensures Weight([it] + rest) == Size(it.expr) + Weight(rest)
  {
    assert ([it] + rest)[1..] == rest;
  }

  /** Items in a row are walked one part after the other. */
  lemma {:induction false} WalkedBoth(p: Program, xs: seq<Item>, ys: seq<Item>, st: State)
    ensures Walked(p, xs + ys, st) == Walked(p, ys, Walked(p, xs, st))
    decreases ToFollow(p, st), Weight(xs)
  {
    hide ReadingOf, BodyOf, ToFollow, Weight, Keep, Mark, Size, Met;
    if xs == [] {
      assert xs + ys == ys;
    } else {
      hide Walked;
      var it, rest := xs[0], xs[1..];
      assert xs == [it] + rest && xs + ys == [it] + (rest + ys);
      WeightFirst(it, rest);
      match ReadingOf(p, it)
      case Record(s) =>
        WalkedRecord(p, it, rest, s, st);
        WalkedRecord(p, it, rest + ys, s, st);
        KeptFalls(p, st, s);
        WalkedBoth(p, rest, ys, Keep(st, s));
      case Parts(parts) =>
        WalkedParts(p, it, rest, parts, st);
        WalkedParts(p, it, rest + ys, parts, st);
        JoinThree(parts, rest, ys);
        WalkedBoth(p, parts + rest, ys, st);
      case Follow(n) =>
        if Met(st, n) {
          WalkedAgain(p, it, rest, n, st);
          WalkedAgain(p, it, rest + ys, n, st);
          WalkedBoth(p, rest, ys, st);
        } else {
          WalkedFollow(p, it, rest, n, st);
          WalkedFollow(p, it, rest + ys, n, st);
          JoinThree(BodyOf(p, n), rest, ys);
          WalkedBoth(p, BodyOf(p, n) + rest, ys, Mark(st, n));
        }
    }
  }

  /** The walk of any items, on any program, is a stretch that reads them. */
  lemma {:induction false} WalkedReads(p: Program, items: seq<Item>, st: State)
    ensures Read(p, items, st, Walked(p, items, st))
    decreases ToFollow(p, st), Weight(items)
  {
    hide ReadingOf, BodyOf, ToFollow, Weight, Keep, Mark, Size, Met, Read, SameContents;
    if items == [] {
      ReadNothing(p, st);
    } else {
      hide Walked;
      var it, rest := items[0], items[1..];
      assert items == [it] + rest && [it] + [] == [it];
      var mid := Walked(p, [it], st);
      WalkedBoth(p, [it], rest, st);
      WeightFirst(it, rest);
      WeightFirst(it, []);
      WalkedNothing(p, st);
      match ReadingOf(p, it) {
        case Record(s) =>
          WalkedRecord(p, it, [], s, st);
          WalkedNothing(p, Keep(st, s));
          ReadLeaf(p, it, s, st);
        case Parts(parts) =>
          WalkedParts(p, it, [], parts, st);
          assert parts + [] == parts;
          WalkedReads(p, parts, st);
          ItemIsParts(p, it, parts);
          ReadSame(p, parts, [it], st, mid);
        case Follow(n) =>
          if Met(st, n) {
            WalkedAgain(p, it, [], n, st);
            WalkedNothing(p, st);
            ReadAgain(p, it, n, st);
          } else {
            WalkedFollow(p, it, [], n, st);
            assert BodyOf(p, n) + [] == BodyOf(p, n);
            WalkedReads(p, BodyOf(p, n), Mark(st, n));
            ReadFollowing(p, it, n, st, mid);
          }
      }
      ReadGrows(p, [it], st, mid);
      GrownFalls(p, st, mid);
      WalkedReads(p, rest, mid);
      ReadBoth(p, [it], rest, st, mid, Walked(p, rest, mid));
    }
  }

  lemma WalkedNothing(p: Program, st: State)
    ensures Walked(p, [], st) == st && Weight([]) == 0
  {}

  lemma ReadGrows(p: Program, items: seq<Item>, a: State, b: State)
    requires Read(p, items, a, b)
    ensures Grown(a, b)
  {}

  /** No walk records an expression twice. */
  lemma {:induction false} WalkedOnceEach(p: Program, items: seq<Item>, st: State)
    requires OnceEach(st)
    ensures OnceEach(Walked(p, items, st))
    decreases ToFollow(p, st), Weight(items)
  {
    hide ReadingOf, BodyOf, ToFollow, Weight, Keep, Mark, Size, Met, OnceEach;
    if items == [] {
    } else {
      hide Walked;
      var it, rest := items[0], items[1..];
      assert items == [it] + rest;
      WeightFirst(it, rest);
      match ReadingOf(p, it)
      case Record(s) =>
        WalkedRecord(p, it, rest, s, st);
        KeptFalls(p, st, s);
        OnceEachKept(st, s);
        WalkedOnceEach(p, rest, Keep(st, s));
      case Parts(parts) =>
        WalkedParts(p, it, rest, parts, st);
        WalkedOnceEach(p, parts + rest, st);
      case Follow(n) =>
        if Met(st, n) {
          WalkedAgain(p, it, rest, n, st);
          WalkedOnceEach(p, rest, st);
        } else {
          WalkedFollow(p, it, rest, n, st);
          OnceEachMarked(st, n);
          WalkedOnceEach(p, BodyOf(p, n) + rest, Mark(st, n));
        }
    }
  }

  lemma OnceEachKept(a: State, s: Site)
    requires OnceEach(a)
    ensures OnceEach(Keep(a, s))
  {}

  lemma OnceEachMarked(a: State, n: Followed)
    requires OnceEach(a)
    ensures OnceEach(Mark(a, n))
  {}

  /** A walk never takes anything back. */
  lemma WalkedGrows(p: Program, items: seq<Item>, st: State)
    ensures Grown(st, Walked(p, items, st)) && ToFollow(p, Walked(p, items, st)) <= ToFollow(p, st)
  {
    hide Walked, ToFollow, Read;
    WalkedReads(p, items, st);
    ReadGrows(p, items, st, Walked(p, items, st));
    GrownFalls(p, st, Walked(p, items, st));
  }

  /** What following a name makes of the state. */
  ghost function WalkedName(p: Program, n: Followed, st: State): State
    requires CanFollow(p, n)
  {
    if Met(st, n) then st else Walked(p, BodyOf(p, n), Mark(st, n))
  }

  ghost function WalkedReading(p: Program, r: Reading, st: State): State
    requires r.Follow? ==> CanFollow(p, r.n)
  {
    match r
    case Record(s) => Keep(st, s)
    case Follow(n) => WalkedName(p, n, st)
    case Parts(parts) => Walked(p, parts, st)
  }

  /** One item, walked on its own. */
  lemma WalkedItem(p: Program, it: Item, st: State)
    ensures Walked(p, [it], st) == WalkedReading(p, ReadingOf(p, it), st)
  {
    hide ReadingOf, BodyOf, ToFollow, Weight, Keep, Mark, Met, Walked;
    assert [it] + [] == [it];
    match ReadingOf(p, it)
    case Record(s) =>
      WalkedRecord(p, it, [], s, st);
      WalkedNothing(p, Keep(st, s));
    case Parts(parts) =>
      WalkedParts(p, it, [], parts, st);
      assert parts + [] == parts;
    case Follow(n) =>
      if Met(st, n) {
        WalkedAgain(p, it, [], n, st);
        WalkedNothing(p, st);
      } else {
        WalkedFollow(p, it, [], n, st);
        assert BodyOf(p, n) + [] == BodyOf(p, n);
      }
  }

  /** One more item of a list, after the ones before it. */
  lemma WalkedNext(p: Program, items: seq<Item>, i: nat, st: State)
    requires i < |items|
    ensures Walked(p, items[..i + 1], st) == Walked(p, [items[i]], Walked(p, items[..i], st))
  {
    hide Walked;
    assert items[..i + 1] == items[..i] + [items[i]];
    WalkedBoth(p, items[..i], [items[i]], st);
  }

  lemma {:induction false} CallerItemsGrow(param: Parameter, callers: seq<CallSite>, rule: Rule, i: nat)
    requires i < |callers|
    ensures CallerItems(param, callers[..i + 1], rule)
         == CallerItems(param, callers[..i], rule) + ArgumentItems(param, callers[i], rule)
    decreases i
  {
    hide ArgumentItems;
    if i > 0 {
      CallerItemsGrow(param, callers[1..], rule, i - 1);
      assert callers[1..][..i] == callers[..i + 1][1..];
      assert callers[1..][..i - 1] == callers[..i][1..];
    } else {
      assert callers[..1][1..] == [];
    }
  }

  lemma NoCallerItems(param: Parameter, rule: Rule)
    ensures CallerItems(param, [], rule) == []
  {}

  /** An expression larger than all of these. */
  ghost function Around(items: seq<Item>): (e: Expr)
    ensures forall it | it in items :: it.expr < e
  {
    var exprs := seq(|items|, i requires 0 <= i < |items| => items[i].expr);
    assert forall i | 0 <= i < |items| :: exprs[i] == items[i].expr;
    ListLiteral(0, exprs)
  }

  // ---------------------------------------------------------------- the walk

  /** What every walker of a run writes into; `rules` is what `visitedVars` does not keep. */
  class Collector {
    var sites: seq<Site>
    var visited: set<Function>
    var visitedVars: set<Variable>
    var recorded: set<Expr>
    ghost var rules: map<Variable, Rule>

    constructor ()
      ensures Now() == START && visitedVars == {}
    {
      sites, visited, visitedVars, recorded, rules := [], {}, {}, {}, map[];
    }

    ghost function Now(): State
      reads this
    {
      State(sites, visited, rules, recorded)
    }

    /** Only what can be followed is marked, and no expression has two sites. */
    ghost predicate Valid(p: Program)
      reads this
    {
      visitedVars == rules.Keys && (forall v | v in visitedVars :: Followable(p, v)) && OnceEach(Now())
    }

    /** addSite: keeps a site once per expression. */
    method AddSite(s: Site)
      requires OnceEach(Now())
      modifies this
      ensures OnceEach(Now()) && s.expr in recorded
      ensures visitedVars == old(visitedVars) && Now() == Keep(old(Now()), s)
      ensures if s.expr in old(recorded) then sites == old(sites) else sites == old(sites) + [s]
    {
      if s.expr in recorded {
        return;
      }
      recorded := recorded + {s.expr};
      sites := sites + [s];
    }

    /** The recording rule of an item, applied to its expression. */
    method ReadItem(p: Program, it: Item)
      requires Valid(p)
      modifies this
      ensures Valid(p) && Now() == Walked(p, [it], old(Now()))
      decreases ToFollow(p, Now()), it.expr, 4
    {
      match it.rule
      case AsList => RecordIDList(p, it.expr);
      case AsOne => RecordID(p, it.expr);
    }

    /** Every item in turn, all of them smaller than `bound`. */
    method ReadEach(p: Program, items: seq<Item>, ghost bound: Expr)
      requires Valid(p) && forall it | it in items :: it.expr < bound
      modifies this
      ensures Valid(p) && Now() == Walked(p, items, old(Now()))
      decreases ToFollow(p, Now()), bound, 1
    {
      hide Walked, OnceEach, ToFollow, Followable;
      ghost var start := Now();
      WalkedNothing(p, start);
      for i := 0 to |items|
        invariant Valid(p) && Now() == Walked(p, items[..i], start)
      {
        WalkedGrows(p, items[..i], start);
        ReadItem(p, items[i]);
        WalkedNext(p, items, i, start);
      }
      assert items[..|items|] == items;
    }

    /** recordIDList: an expression read as a list of IDs. */
    method RecordIDList(p: Program, value: Expr)
      requires Valid(p)
      modifies this
      ensures Valid(p) && Now() == Walked(p, [Item(AsList, value)], old(Now()))
      decreases ToFollow(p, Now()), value, 3
    {
      hide Walked, OnceEach, ToFollow, Followable, WalkedName;
      WalkedItem(p, Item(AsList, value), Now());
      var u := Unparen(value);
      match u {
        case ListLiteral(_, elements) =>
          ReadEach(p, AllBy(AsOne, elements), value);
        case Append(_, args, spread) =>
          ReadEach(p, AppendItems(args, spread), value);
        case Conversion(_, operand) =>
          RecordIDList(p, operand);
        case Call(_, callee, args) =>
          RecordListCall(p, value, u);
        case FieldRead(_) =>
          if u !in p.recordedReads {
            AddSite(Site(u, None));
          } else {
            WalkedNothing(p, Now());
          }
        case Nil(_) =>
          WalkedNothing(p, Now());
        case Ident(_, variable) =>
          var followed := false;
          if variable.Some? {
            followed := FollowValues(p, variable.value, AsList, value);
          }
          if !followed {
            AddSite(Site(u, None));
          }
        case Other(_) =>
          AddSite(Site(value, None));
      }
    }

    /** recordListCall, for a call that is neither an append nor a conversion. */
    method RecordListCall(p: Program, value: Expr, u: Expr)
      requires Valid(p) && u == Unparen(value) && u.Call?
      modifies this
      ensures Valid(p) && Now() == Walked(p, [Item(AsList, value)], old(Now()))
      decreases ToFollow(p, Now()), value, 2
    {
      hide Walked, OnceEach, ToFollow, Followable, WalkedName, ListCopy, Recorded;
      ghost var start := Now();
      WalkedItem(p, Item(AsList, value), start);
      if ListCopy(p, u.args) {
        var carriers := CarriersOf(p, u.args);
        ghost var items := AllBy(AsList, carriers);
        WalkedNothing(p, start);
        for i := 0 to |carriers|
          invariant Valid(p) && Now() == Walked(p, items[..i], start)
        {
          WalkedGrows(p, items[..i], start);
          assert carriers[i] in carriers && items[i] == Item(AsList, carriers[i]);
          var carrier := Unparen(carriers[i]).variable.value;
          CarrierIsFollowed(p, carriers[i]);
          WalkedItem(p, items[i], Now());
          var _ := FollowValues(p, carrier, AsList, value);
          WalkedNext(p, items, i, start);
        }
        assert items[..|carriers|] == items;
        return;
      }
      var followed := FollowReturns(p, u.callee, value);
      if !followed {
        AddSite(Site(u, None));
      }
    }

    /** recordID: an expression read as one ID. */
    method RecordID(p: Program, e: Expr)
      requires Valid(p)
      modifies this
      ensures Valid(p) && Now() == Walked(p, [Item(AsOne, e)], old(Now()))
      decreases ToFollow(p, Now()), e, 3
    {
      hide Walked, OnceEach, ToFollow, Followable, WalkedName;
      WalkedItem(p, Item(AsOne, e), Now());
      if e in p.answers {
        AddSite(Site(e, Some(p.answers[e])));
        return;
      }
      var u := Unparen(e);
      if u.Ident? && u.variable.Some? {
        var followed := FollowValues(p, u.variable.value, AsOne, e);
        if followed {
          return;
        }
      }
      AddSite(Site(e, None));
    }

    /** followValues: every value a variable can hold, once per run; false for a variable the index knows nothing about. */
    method FollowValues(p: Program, v: Variable, rule: Rule, ghost from: Expr) returns (followed: bool)
      requires Valid(p)
      modifies this
      ensures Valid(p) && followed == Followable(p, v)
      ensures Now() == if followed then WalkedName(p, ByVariable(v, rule), old(Now())) else old(Now())
      decreases ToFollow(p, Now()), from, 1
    {
      hide Walked, OnceEach, ToFollow;
      ghost var start, n := Now(), ByVariable(v, rule);
      if v in visitedVars {
        return true;
      }
      if v in p.values {
        visitedVars, rules := visitedVars + {v}, rules[v := rule];
        MarkedFalls(p, n, start);
        OnceEachMarked(start, n);
        ReadEach(p, AllBy(rule, p.values[v]), Around(BodyOf(p, n)));
        return true;
      }
      if v in p.ranges {
        visitedVars, rules := visitedVars + {v}, rules[v := rule];
        MarkedFalls(p, n, start);
        OnceEachMarked(start, n);
        RecordIDList(p, p.ranges[v]);
        return true;
      }
      followed := FollowParameter(p, v, rule, from);
    }

    /** followParameter: the argument every caller passes, for a parameter named as a carrier. */
    method FollowParameter(p: Program, v: Variable, rule: Rule, ghost from: Expr) returns (followed: bool)
      requires Valid(p) && v !in p.values && v !in p.ranges && v !in visitedVars
      modifies this
      ensures Valid(p) && followed == Followable(p, v)
      ensures Now() == if followed then WalkedName(p, ByVariable(v, rule), old(Now())) else old(Now())
      decreases ToFollow(p, Now()), from, 0
    {
      hide Walked, OnceEach, ToFollow, CallerItems, ArgumentItems;
      if v !in p.params || v !in p.carrierNames {
        return false;
      }
      ghost var start, n := Now(), ByVariable(v, rule);
      visitedVars, rules := visitedVars + {v}, rules[v := rule];
      MarkedFalls(p, n, start);
      OnceEachMarked(start, n);
      ghost var marked := Now();
      var param := p.params[v];
      WalkedNothing(p, marked);
      if param.of !in p.sinks && param.of in p.callers {
        var callers := p.callers[param.of];
        NoCallerItems(param, rule);
        for i := 0 to |callers|
          invariant Valid(p) && Now() == Walked(p, CallerItems(param, callers[..i], rule), marked)
        {
          WalkedGrows(p, CallerItems(param, callers[..i], rule), marked);
          CallerItemsGrow(param, callers, rule, i);
          var items := ArgumentItems(param, callers[i], rule);
          WalkedBoth(p, CallerItems(param, callers[..i], rule), items, marked);
          ReadEach(p, items, Around(items));
        }
        assert callers[..|callers|] == callers;
      }
      followed := true;
    }

    /** followReturns: what a function returns, once per run; false for a call nothing declares. */
    method FollowReturns(p: Program, callee: Option<Function>, ghost from: Expr) returns (followed: bool)
      requires Valid(p)
      modifies this
      ensures Valid(p) && followed == Follows(p, callee)
      ensures Now() == if followed then WalkedName(p, ByFunction(callee.value), old(Now())) else old(Now())
      decreases ToFollow(p, Now()), from, 1
    {
      hide Walked, OnceEach, ToFollow;
      if callee.None? || callee.value !in p.returned {
        return false;
      }
      ghost var start, n := Now(), ByFunction(callee.value);
      if callee.value in visited {
        return true;
      }
      visited := visited + {callee.value};
      MarkedFalls(p, n, start);
      OnceEachMarked(start, n);
      ReadEach(p, AllBy(AsList, p.returned[callee.value]), Around(BodyOf(p, n)));
      followed := true;
    }
  }

  lemma CarrierIsFollowed(p: Program, a: Expr)
    requires Carrier(p, a)
    ensures var v := Unparen(a).variable.value; Followable(p, v) && ReadingOf(p, Item(AsList, a)) == Follow(ByVariable(v, AsList))
  {}

  // ---------------------------------------------------------------- the whole walk

  const START := State([], {}, map[], {})

  /** A variable the roots reach both as a list and as one ID. */
  ghost predicate Crossed(p: Program, roots: seq<Item>, v: Variable) {
    Reached(p, roots, ByVariable(v, AsList)) && Reached(p, roots, ByVariable(v, AsOne))
  }

  /** n is a crossed variable by one of its rules, or reached through one. */
  ghost predicate ThroughCrossed(p: Program, roots: seq<Item>, n: Followed) {
    exists v, rule :: Crossed(p, roots, v) && (n == ByVariable(v, rule) || Reached(p, BodyOf(p, ByVariable(v, rule)), n))
  }

  lemma MetIsHasOrCrossed(p: Program, roots: seq<Item>, end: State, n: Followed)
    requires Read(p, roots, START, end) && Reached(p, roots, n) && Met(end, n)
    ensures Has(end, n) || ThroughCrossed(p, roots, n)
  {
    hide AllDone, BodyOf, Reached, ReachedLeaf;
    if n.ByVariable? {
      var other := ByVariable(n.v, end.rules[n.v]);
      assert Has(end, other) && !Has(START, other);
      assert Has(end, n) || Crossed(p, roots, n.v);
    }
  }

  lemma {:induction false} ReachedIsFollowed(p: Program, roots: seq<Item>, end: State, n: Followed, steps: nat)
    requires Read(p, roots, START, end) && ReachedIn(p, roots, n, steps)
    ensures Has(end, n) || ThroughCrossed(p, roots, n)
    decreases steps
  {
    hide BodyOf, Names, Leaves, ReachedLeaf, ThroughCrossed, Grown;
    assert Reached(p, roots, n);
    hide Reached;
    if steps == 0 {
      MetIsHasOrCrossed(p, roots, end, n);
    } else {
      var m :| ReachedIn(p, roots, m, steps - 1) && NamedBy(p, BodyOf(p, m), n);
      ReachedIsFollowed(p, roots, end, m, steps - 1);
      if Has(end, m) {
        assert !Has(START, m);
        MetIsHasOrCrossed(p, roots, end, n);
      } else {
        NamedThroughCrossed(p, roots, m, n);
      }
    }
  }

  lemma NamedThroughCrossed(p: Program, roots: seq<Item>, m: Followed, n: Followed)
    requires ThroughCrossed(p, roots, m) && NamedBy(p, BodyOf(p, m), n)
    ensures ThroughCrossed(p, roots, n)
  {
    hide BodyOf, NamedBy, Crossed;
    var v, rule :| Crossed(p, roots, v) && (m == ByVariable(v, rule) || Reached(p, BodyOf(p, ByVariable(v, rule)), m));
    var body := BodyOf(p, ByVariable(v, rule));
    if m == ByVariable(v, rule) {
      assert ReachedIn(p, body, n, 0);
    } else {
      hide Reached;
      ReachedNext(p, body, m, n);
    }
  }

  /** Whatever is reached through a crossed variable, by either rule, is recorded. */
  ghost predicate CrossedKept(p: Program, roots: seq<Item>, recorded: set<Expr>) {
    forall v, rule, s | Crossed(p, roots, v) && ReachedLeaf(p, BodyOf(p, ByVariable(v, rule)), s) :: s.expr in recorded
  }

  lemma LeafThroughCrossed(p: Program, roots: seq<Item>, n: Followed, s: Site, recorded: set<Expr>)
    requires ThroughCrossed(p, roots, n) && LeafOf(p, BodyOf(p, n), s) && CrossedKept(p, roots, recorded)
    ensures s.expr in recorded
  {
    hide BodyOf, LeafOf, Crossed, Reached;
    var v, rule :| Crossed(p, roots, v) && (n == ByVariable(v, rule) || Reached(p, BodyOf(p, ByVariable(v, rule)), n));
    assert ReachedLeaf(p, BodyOf(p, ByVariable(v, rule)), s);
  }

  /** A finished walk has a site for every reachable leaf, as far as crossed variables hide none. */
  lemma ReachedLeafIsRecorded(p: Program, roots: seq<Item>, end: State, s: Site)
    requires Read(p, roots, START, end) && ReachedLeaf(p, roots, s) && CrossedKept(p, roots, end.recorded)
    ensures s.expr in end.recorded
  {
    hide BodyOf, Names, Leaves, CrossedKept, ThroughCrossed;
    if !LeafOf(p, roots, s) {
      var n :| Reached(p, roots, n) && LeafOf(p, BodyOf(p, n), s);
      var steps: nat :| ReachedIn(p, roots, n, steps);
      ReachedIsFollowed(p, roots, end, n, steps);
      if Has(end, n) {
        assert !Has(START, n);
      } else {
        LeafThroughCrossed(p, roots, n, s, end.recorded);
      }
    }
  }

  lemma ReachedLeafThrough(p: Program, roots: seq<Item>, n: Followed, s: Site)
    requires Reached(p, roots, n) && ReachedLeaf(p, BodyOf(p, n), s)
    ensures ReachedLeaf(p, roots, s)
  {
    hide BodyOf, LeafOf, ReachedIn;
    if !LeafOf(p, BodyOf(p, n), s) {
      var m :| Reached(p, BodyOf(p, n), m) && LeafOf(p, BodyOf(p, m), s);
      var steps: nat :| ReachedIn(p, BodyOf(p, n), m, steps);
      ReachedThrough(p, roots, n, m, steps);
    }
  }

  /**
    No reachable leaf is dropped exactly when no variable the roots reach under both rules holds, by either of them, a leaf
    the walk did not record. A program whose variables are each reached by one rule drops nothing.
  */
  lemma NothingDroppedIff(p: Program, roots: seq<Item>)
    ensures var recorded := Walked(p, roots, START).recorded;
            (forall s | ReachedLeaf(p, roots, s) :: s.expr in recorded) <==> CrossedKept(p, roots, recorded)
    ensures (forall v :: !Crossed(p, roots, v)) ==> CrossedKept(p, roots, Walked(p, roots, START).recorded)
  {
    hide BodyOf, ReachedLeaf, Reached, Walked, Read;
    var end := Walked(p, roots, START);
    WalkedReads(p, roots, START);
    if CrossedKept(p, roots, end.recorded) {
      forall s | ReachedLeaf(p, roots, s) ensures s.expr in end.recorded {
        ReachedLeafIsRecorded(p, roots, end, s);
      }
    }
    forall v, rule, s | Crossed(p, roots, v) && ReachedLeaf(p, BodyOf(p, ByVariable(v, rule)), s)
      ensures ReachedLeaf(p, roots, s)
    {
      assert rule == AsList || rule == AsOne;
      ReachedLeafThrough(p, roots, ByVariable(v, rule), s);
    }
  }

  /**
    The walk of a list of roots, on any program: it ends, its sites are leaves the roots reach, no expression is recorded
    twice, and no reachable leaf is dropped unless a variable is reached under both rules.
  */
  method WalkRecordsReachable(p: Program, roots: seq<Item>) returns (sites: seq<Site>)
    ensures sites == Walked(p, roots, START).sites
    ensures forall s | s in sites :: ReachedLeaf(p, roots, s)
    ensures forall i, j | 0 <= i < j < |sites| :: sites[i].expr != sites[j].expr
    ensures var recorded := set s | s in sites :: s.expr;
            (forall s | ReachedLeaf(p, roots, s) :: s.expr in recorded) <==> CrossedKept(p, roots, recorded)
    ensures (forall v :: !Crossed(p, roots, v)) ==>
              forall s | ReachedLeaf(p, roots, s) :: exists i :: 0 <= i < |sites| && sites[i].expr == s.expr
  {
    hide ReachedLeaf, AllDone, Reached, BodyOf, Walked, CrossedKept, Crossed;
    var collector := new Collector();
    collector.ReadEach(p, roots, Around(roots));
    sites := collector.sites;
    WalkedReads(p, roots, START);
    NothingDroppedIff(p, roots);
    assert sites == sites[|START.sites|..];
    assert (set s | s in sites :: s.expr) == Walked(p, roots, START).recorded;
    if forall v :: !Crossed(p, roots, v) {
      forall s | ReachedLeaf(p, roots, s) ensures exists i :: 0 <= i < |sites| && sites[i].expr == s.expr {
        var t :| t in sites && t.expr == s.expr;
      }
    }
  }

  /** Where no variable is crossed, what is recorded does not depend on the order the roots are walked in. */
  lemma RecordedInAnyOrder(p: Program, roots: seq<Item>, others: seq<Item>)
    requires (forall it :: it in roots <==> it in others) && forall v :: !Crossed(p, roots, v)
    ensures Walked(p, roots, START).recorded == Walked(p, others, START).recorded
  {
    hide Walked, Crossed;
    forall v ensures !Crossed(p, others, v) {
      CrossedByMore(p, others, roots, v);
    }
    RecordedWithin(p, roots, others);
    RecordedWithin(p, others, roots);
  }

  lemma CrossedByMore(p: Program, items: seq<Item>, more: seq<Item>, v: Variable)
    requires forall it | it in items :: it in more
    ensures Crossed(p, items, v) ==> Crossed(p, more, v)
  {
    hide Reached;
    if Crossed(p, items, v) {
      ReachedFromMore(p, items, more, ByVariable(v, AsList));
      ReachedFromMore(p, items, more, ByVariable(v, AsOne));
    }
  }

  lemma RecordedWithin(p: Program, roots: seq<Item>, others: seq<Item>)
    requires (forall it | it in roots :: it in others) && forall v :: !Crossed(p, others, v)
    ensures Walked(p, roots, START).recorded <= Walked(p, others, START).recorded
  {
    hide BodyOf, AllDone, Reached, ReachedLeaf, Walked, Crossed, CrossedKept;
    var a := Walked(p, roots, START);
    WalkedReads(p, roots, START);
    WalkedOnceEach(p, roots, START);
    NothingDroppedIff(p, others);
    forall e | e in a.recorded ensures e in Walked(p, others, START).recorded {
      var s :| s in a.sites && s.expr == e;
      assert s in a.sites[|START.sites|..];
      ReachedLeafByMore(p, roots, others, s);
    }
  }

  // ---------------------------------------------------------------- a dropped leaf

  // id := canonicalID("get"); pick := func() string { return id }; return []string{pick(), id}
  const ID := Variable(0)
  const RELATED := Function(0)
  const CANONICAL := Function(1)
  const GET := Call(5, Some(CANONICAL), [Other(6)])
  const PICKED := Call(3, None, [])
  const JOINED := Other(7)

  /** A helper whose nested literal returns a string variable, the list it returns naming the variable again. */
  const NESTED := Program(
    map[ID := [GET]], map[], map[], map[],
    map[RELATED := [Ident(1, Some(ID)), ListLiteral(2, [PICKED, Ident(4, Some(ID))])], CANONICAL := [JOINED]],
    {}, {}, {}, {}, {}, map[GET := "project.get"])

  const RELATED_CALL := Item(AsList, Call(8, Some(RELATED), []))
  const LEFT_BEHIND := Site(GET, Some("project.get"))

  /**
    The returns of a nested function literal are read as the list the function around it returns. Met there first, a
    string variable is followed as a list, and the ID it is given is reached and never recorded.
  */
  lemma SomeLeafIsDropped()
    ensures ReachedLeaf(NESTED, [RELATED_CALL], LEFT_BEHIND)
    ensures Walked(NESTED, [RELATED_CALL], START).sites == [Site(JOINED, None), Site(PICKED, None)]
    ensures GET !in Walked(NESTED, [RELATED_CALL], START).recorded
  {
    hide Walked, ReachedLeaf;
    NestedIsReached();
    NestedIsWalked();
  }

  lemma NestedReadings()
    ensures ReadingOf(NESTED, RELATED_CALL) == Follow(ByFunction(RELATED))
    ensures BodyOf(NESTED, ByFunction(RELATED))
         == [Item(AsList, Ident(1, Some(ID))), Item(AsList, ListLiteral(2, [PICKED, Ident(4, Some(ID))]))]
    ensures ReadingOf(NESTED, Item(AsList, Ident(1, Some(ID)))) == Follow(ByVariable(ID, AsList))
    ensures ReadingOf(NESTED, Item(AsList, ListLiteral(2, [PICKED, Ident(4, Some(ID))])))
         == Parts([Item(AsOne, PICKED), Item(AsOne, Ident(4, Some(ID)))])
    ensures BodyOf(NESTED, ByVariable(ID, AsList)) == [Item(AsList, GET)]
    ensures BodyOf(NESTED, ByVariable(ID, AsOne)) == [Item(AsOne, GET)]
  {}

  lemma NestedLeaves()
    ensures ReadingOf(NESTED, Item(AsList, GET)) == Follow(ByFunction(CANONICAL))
    ensures ReadingOf(NESTED, Item(AsOne, GET)) == Record(LEFT_BEHIND)
    ensures BodyOf(NESTED, ByFunction(CANONICAL)) == [Item(AsList, JOINED)]
    ensures ReadingOf(NESTED, Item(AsList, JOINED)) == Record(Site(JOINED, None))
    ensures ReadingOf(NESTED, Item(AsOne, PICKED)) == Record(Site(PICKED, None))
    ensures ReadingOf(NESTED, Item(AsOne, Ident(4, Some(ID)))) == Follow(ByVariable(ID, AsOne))
  {
    assert [Other(6)][0] in [Other(6)];
  }

  lemma NestedIsWalked()
    ensures Walked(NESTED, [RELATED_CALL], START).sites == [Site(JOINED, None), Site(PICKED, None)]
    ensures GET !in Walked(NESTED, [RELATED_CALL], START).recorded
  {
    NestedReadings();
    NestedLeaves();
    hide Walked, ReadingOf, BodyOf;
    var list := Item(AsList, ListLiteral(2, [PICKED, Ident(4, Some(ID))]));
    MetAsListFirst(NESTED, RELATED_CALL, Item(AsList, Ident(1, Some(ID))), list, Item(AsList, GET), Item(AsList, JOINED),
                   Item(AsOne, PICKED), Item(AsOne, Ident(4, Some(ID))));
  }

  /** The walk of a helper that names a variable as a list and then, in a list, as one ID. */
  lemma MetAsListFirst(p: Program, call: Item, asList: Item, list: Item, get: Item, joined: Item, picked: Item, asOne: Item)
    requires ReadingOf(p, call) == Follow(ByFunction(RELATED)) && BodyOf(p, ByFunction(RELATED)) == [asList, list]
    requires ReadingOf(p, asList) == Follow(ByVariable(ID, AsList)) && BodyOf(p, ByVariable(ID, AsList)) == [get]
    requires ReadingOf(p, get) == Follow(ByFunction(CANONICAL)) && BodyOf(p, ByFunction(CANONICAL)) == [joined]
    requires ReadingOf(p, joined) == Record(Site(joined.expr, None)) && ReadingOf(p, list) == Parts([picked, asOne])
    requires ReadingOf(p, picked) == Record(Site(picked.expr, None)) && ReadingOf(p, asOne) == Follow(ByVariable(ID, AsOne))
    requires joined.expr != picked.expr
    ensures Walked(p, [call], START).sites == [Site(joined.expr, None), Site(picked.expr, None)]
    ensures Walked(p, [call], START).recorded == {joined.expr, picked.expr}
  {
    hide *;
    MarkedStates(joined.expr, picked.expr);
    var s2, s3, s4, s5 := AfterList(), AfterCall(), AfterJoined(joined.expr), AfterPicked(joined.expr, picked.expr);
    WalkedFollow(p, call, [], ByFunction(RELATED), START);
    assert [call] + [] == [call] && [asList, list] + [] == [asList] + [list];
    WalkedFollow(p, asList, [list], ByVariable(ID, AsList), Mark(START, ByFunction(RELATED)));
    WalkedFollow(p, get, [list], ByFunction(CANONICAL), s2);
    WalkedRecord(p, joined, [list], Site(joined.expr, None), s3);
    assert Walked(p, [call], START) == Walked(p, [list], s4);
    assert [list] + [] == [list] && [picked, asOne] + [] == [picked] + [asOne];
    WalkedParts(p, list, [], [picked, asOne], s4);
    WalkedRecord(p, picked, [asOne], Site(picked.expr, None), s4);
    assert [asOne] + [] == [asOne];
    WalkedAgain(p, asOne, [], ByVariable(ID, AsOne), s5);
    WalkedNothing(p, s5);
  }

  function AfterList(): State {
    Mark(Mark(START, ByFunction(RELATED)), ByVariable(ID, AsList))
  }

  function AfterCall(): State {
    Mark(AfterList(), ByFunction(CANONICAL))
  }

  function AfterJoined(joined: Expr): State {
    Keep(AfterCall(), Site(joined, None))
  }

  function AfterPicked(joined: Expr, picked: Expr): State {
    Keep(AfterJoined(joined), Site(picked, None))
  }

  lemma MarkedStates(joined: Expr, picked: Expr)
    requires joined != picked
    ensures !Met(START, ByFunction(RELATED)) && !Met(Mark(START, ByFunction(RELATED)), ByVariable(ID, AsList))
    ensures AfterList() == Mark(Mark(START, ByFunction(RELATED)), ByVariable(ID, AsList))
    ensures !Met(AfterList(), ByFunction(CANONICAL)) && AfterCall() == Mark(AfterList(), ByFunction(CANONICAL))
    ensures AfterJoined(joined) == Keep(AfterCall(), Site(joined, None))
    ensures AfterPicked(joined, picked) == Keep(AfterJoined(joined), Site(picked, None))
    ensures Met(AfterPicked(joined, picked), ByVariable(ID, AsOne))
    ensures AfterPicked(joined, picked).sites == [Site(joined, None), Site(picked, None)]
    ensures AfterPicked(joined, picked).recorded == {joined, picked}
  {}

  lemma NestedIsReached()
    ensures ReachedLeaf(NESTED, [RELATED_CALL], LEFT_BEHIND)
  {
    NestedReadings();
    NestedLeaves();
    hide ReadingOf, BodyOf, ReachedIn;
    var p, body := NESTED, BodyOf(NESTED, ByFunction(RELATED));
    ItemNames(p, RELATED_CALL, ByFunction(RELATED));
    var last := Item(AsOne, Ident(4, Some(ID)));
    ItemNames(p, last, ByVariable(ID, AsOne));
    var parts := [Item(AsOne, PICKED), last];
    assert parts[1] in parts && body[1] in body;
    assert ByVariable(ID, AsOne) in Names(p, body[1]);
    ReachedNext(p, [RELATED_CALL], ByFunction(RELATED), ByVariable(ID, AsOne));
    var read := BodyOf(p, ByVariable(ID, AsOne));
    assert read[0] in read && LEFT_BEHIND in Leaves(p, read[0]);
  }
}
