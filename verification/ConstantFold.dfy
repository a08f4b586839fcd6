/**
  The bounded fold of a published ID: a constant, a concatenation, a bound parameter, or a call of a one-line helper.

  `FoldsExactly` says which expressions fold. The fold is held to a big-step evaluator of the same expressions:
  `FoldSound` says an answer is the value the expression has, if it has one; `FoldIsTheValue` that it has one where no
  argument is passed over, and `FoldedValueIffPassedOverReturn` exactly when it has one elsewhere.
  `FoldKeptWithMoreRoom` says more remaining depth and more bindings never change an answer.
*/
module ConstantFold {
  import opened Outcomes

  const MAX_FOLD_DEPTH: nat := 3

  datatype Variable = Variable(id: nat)

  datatype Function = Function(id: nat)

  /** An expression, with the string constant the type checker folds it to, if it does. */
  datatype Expr = Expr(constant: Option<string>, shape: Shape)

  datatype Shape =
    | Paren(inner: Expr)
    | Concat(left: Expr, right: Expr)
    | OtherBinary(left: Expr, right: Expr)
    | Name(variable: Option<Variable>)
    | Call(callee: Option<Function>, args: seq<Expr>)
    | OtherShape(id: nat)

  /** A function body is one return of one expression, or anything else. */
  datatype Body = SingleReturn(result: Expr) | OtherBody(id: nat)

  datatype Declaration = Declaration(params: seq<Variable>, body: Body)

  type Program = map<Function, Declaration>

  type Bindings = map<Variable, string>

  // ---------------------------------------------------------------- the fold

  function Room(depth: nat): nat {
    if depth > MAX_FOLD_DEPTH then 0 else MAX_FOLD_DEPTH + 1 - depth
  }

  function FoldExpr(p: Program, e: Expr, bound: Bindings, depth: nat): Option<string>
    decreases Room(depth), 2, e
  {
    if depth > MAX_FOLD_DEPTH then None
    else if e.constant.Some? then e.constant
    else
      match e.shape
      case Paren(inner) => FoldExpr(p, inner, bound, depth)
      case Concat(left, right) =>
        var l, r := FoldExpr(p, left, bound, depth), FoldExpr(p, right, bound, depth);
        if l.Some? && r.Some? then Some(l.value + r.value) else None
      case Name(Some(v)) => if v in bound then Some(bound[v]) else None
      case Call(callee, args) => FoldCall(p, callee, args, bound, depth)
      case _ => None
  }

  /** The helper a call names, when it is declared, returns one expression, and takes as many arguments as it is given. */
  function OneLineHelper(p: Program, callee: Option<Function>, args: seq<Expr>): (d: Option<Declaration>)
    ensures d.Some? ==> callee.Some? && callee.value in p && d.value == p[callee.value]
    ensures d.Some? ==> d.value.body.SingleReturn? && |d.value.params| == |args|
  {
    if callee.Some? && callee.value in p && p[callee.value].body.SingleReturn? && |p[callee.value].params| == |args|
    then Some(p[callee.value]) else None
  }

  function FoldCall(p: Program, callee: Option<Function>, args: seq<Expr>, argBound: Bindings, depth: nat): Option<string>
    requires depth <= MAX_FOLD_DEPTH
    decreases Room(depth), 1
  {
    match OneLineHelper(p, callee, args)
    case None => None
    case Some(d) => FoldExpr(p, d.body.result, Bind(p, d.params, args, argBound, depth + 1, |args|), depth + 1)
  }

  /** The first n parameters bound to the arguments that fold; the others are left out. */
  function Bind(p: Program, params: seq<Variable>, args: seq<Expr>, argBound: Bindings, depth: nat, n: nat): Bindings
    requires n <= |args| == |params|
    decreases Room(depth), 3, n
  {
    if n == 0 then map[]
    else
      var before := Bind(p, params, args, argBound, depth, n - 1);
      match FoldExpr(p, args[n - 1], argBound, depth)
      case Some(value) => before[params[n - 1] := value]
      case None => before
  }

  /** foldCall as it runs, filling `bound` in a loop over the parameters. */
  method FoldCallInLoop(p: Program, callee: Option<Function>, args: seq<Expr>, argBound: Bindings, depth: nat)
    returns (r: Option<string>)
    requires depth <= MAX_FOLD_DEPTH
    ensures r == FoldCall(p, callee, args, argBound, depth)
  {
    if callee.None? || callee.value !in p {
      return None;
    }
    var declared := p[callee.value];
    if !declared.body.SingleReturn? || |declared.params| != |args| {
      return None;
    }
    var bound: Bindings := map[];
    for index := 0 to |declared.params|
      invariant bound == Bind(p, declared.params, args, argBound, depth + 1, index)
    {
      var value := FoldExpr(p, args[index], argBound, depth + 1);
      if value.None? {
        continue;
      }
      bound := bound[declared.params[index] := value.value];
    }
    r := FoldExpr(p, declared.body.result, bound, depth + 1);
  }

  // ---------------------------------------------------------------- what folds

  /**
    What can be read off an expression within so many helpers called one inside the other: a constant, a bound name, a
    concatenation of such, or a call of a helper that returns one expression, which is read with the parameters bound
    whose arguments can be.
  */
  ghost predicate Foldable(p: Program, e: Expr, names: set<Variable>, helpers: nat)
    decreases helpers, 0, e
  {
    e.constant.Some? ||
    match e.shape
    case Paren(inner) => Foldable(p, inner, names, helpers)
    case Concat(left, right) => Foldable(p, left, names, helpers) && Foldable(p, right, names, helpers)
    case Name(variable) => variable.Some? && variable.value in names
    case Call(callee, args) =>
      && helpers > 0 && callee.Some? && callee.value in p
      && p[callee.value].body.SingleReturn? && |p[callee.value].params| == |args|
      && Foldable(p, p[callee.value].body.result, Bindable(p, p[callee.value].params, args, names, helpers - 1, |args|),
                  helpers - 1)
    case _ => false
  }

  ghost function Bindable(p: Program, params: seq<Variable>, args: seq<Expr>, names: set<Variable>, helpers: nat,
                          n: nat): set<Variable>
    requires n <= |args| == |params|
    decreases helpers, 1
  {
    set i | 0 <= i < n && Foldable(p, args[i], names, helpers) :: params[i]
  }

  /** The fold answers exactly what is foldable with the helpers left, three at the outside. */
  lemma {:induction false} FoldsExactly(p: Program, e: Expr, bound: Bindings, depth: nat)
    ensures FoldExpr(p, e, bound, depth).Some? <==> depth <= 3 && Foldable(p, e, bound.Keys, 3 - depth)
    decreases Room(depth), 2, e
  {
    if depth <= 3 && e.constant.None? {
      match e.shape
      case Paren(inner) => FoldsExactly(p, inner, bound, depth);
      case Concat(left, right) =>
        FoldsExactly(p, left, bound, depth);
        FoldsExactly(p, right, bound, depth);
      case Call(callee, args) =>
        CallFoldsExactly(p, callee, args, bound, depth);
      case _ =>
    }
  }

  lemma {:induction false} CallFoldsExactly(p: Program, callee: Option<Function>, args: seq<Expr>, bound: Bindings, depth: nat)
    requires depth <= 3
    ensures FoldCall(p, callee, args, bound, depth).Some?
       <==> Foldable(p, Expr(None, Call(callee, args)), bound.Keys, 3 - depth)
    decreases Room(depth), 1
  {
    if OneLineHelper(p, callee, args).Some? {
      var d := OneLineHelper(p, callee, args).value;
      var inner := Bind(p, d.params, args, bound, depth + 1, |args|);
      if depth < 3 {
        BindsExactly(p, d.params, args, bound, depth + 1, |args|);
      }
      FoldsExactly(p, d.body.result, inner, depth + 1);
      hide FoldExpr, Bind;
      assert 3 - (depth + 1) == 3 - depth - 1;
    }
  }

  /** The parameters bound are those whose arguments are foldable. */
  lemma {:induction false} BindsExactly(p: Program, params: seq<Variable>, args: seq<Expr>, bound: Bindings, depth: nat, n: nat)
    requires n <= |args| == |params| && depth <= 3
    ensures Bind(p, params, args, bound, depth, n).Keys == Bindable(p, params, args, bound.Keys, 3 - depth, n)
    decreases Room(depth), 3, n
  {
    hide FoldExpr, Foldable;
    if n == 0 {
    } else {
      BindsExactly(p, params, args, bound, depth, n - 1);
      FoldsExactly(p, args[n - 1], bound, depth);
    }
  }

  const PREFIXING := Function(0)
  const VERB := Variable(0)

  /** func canonicalID(verb string) string { return "project." + verb } */
  function PrefixProgram(): Program {
    map[PREFIXING := Declaration([VERB], SingleReturn(
          Expr(None, Concat(Expr(Some("project."), OtherShape(0)), Expr(None, Name(Some(VERB)))))))]
  }

  /** The shape the fold is there for. */
  lemma PrefixedVerbFolds()
    ensures FoldExpr(PrefixProgram(), Expr(None, Call(Some(PREFIXING), [Expr(Some("get"), OtherShape(1))])), map[], 0)
         == Some("project.get")
  {
    var p, arg := PrefixProgram(), Expr(Some("get"), OtherShape(1));
    var inner := Bind(p, [VERB], [arg], map[], 1, 1);
    assert FoldExpr(p, arg, map[], 1) == Some("get");
    assert inner == map[VERB := "get"];
    assert FoldExpr(p, Expr(None, Name(Some(VERB))), inner, 1) == Some("get");
    assert FoldExpr(p, Expr(Some("project."), OtherShape(0)), inner, 1) == Some("project.");
    assert "project." + "get" == "project.get";
  }

  // ---------------------------------------------------------------- the meaning of an expression

  datatype Value = Text(text: string) | NotText

  type Environment = map<Variable, Value>

  /** What the program does outside the shapes the fold reads; no value means it does not return. */
  datatype World = World(
    shape: (nat, Environment) -> Option<Value>,
    body: (nat, Environment) -> Option<Value>,
    extern: seq<Value> -> Option<Value>)

  /** The value of an expression, if it has one within `fuel` nested calls; arguments are evaluated before the call. */
  function Eval(p: Program, w: World, e: Expr, env: Environment, fuel: nat): Option<Value>
    decreases fuel, e
  {
    match e.constant
    case Some(text) => Some(Text(text))
    case None =>
      match e.shape
      case Paren(inner) => Eval(p, w, inner, env, fuel)
      case Concat(left, right) =>
        (match (Eval(p, w, left, env, fuel), Eval(p, w, right, env, fuel))
         case (Some(Text(l)), Some(Text(r))) => Some(Text(l + r))
         case (Some(_), Some(_)) => Some(NotText)
         case _ => None)
      case OtherBinary(left, right) =>
        if Eval(p, w, left, env, fuel).Some? && Eval(p, w, right, env, fuel).Some? then Some(NotText) else None
      case Name(Some(v)) => if v in env then Some(env[v]) else None
      case Name(None) => Some(NotText)
      case OtherShape(id) => w.shape(id, env)
      case Call(callee, args) =>
        var values := EvalAll(p, w, args, env, fuel);
        if values.None? then None
        else if callee.Some? && callee.value in p && |p[callee.value].params| == |args| then
          var inner := Zip(p[callee.value].params, values.value, |args|);
          (match p[callee.value].body
           case OtherBody(id) => w.body(id, inner)
           case SingleReturn(result) => if fuel == 0 then None else Eval(p, w, result, inner, fuel - 1))
        else w.extern(values.value)
  }

  function EvalAll(p: Program, w: World, args: seq<Expr>, env: Environment, fuel: nat): (r: Option<seq<Value>>)
    ensures r.Some? ==> |r.value| == |args|
    decreases fuel, args
  {
    if args == [] then Some([])
    else
      var first := Eval(p, w, args[0], env, fuel);
      var rest := EvalAll(p, w, args[1..], env, fuel);
      if first.Some? && rest.Some? then Some([first.value] + rest.value) else None
  }

  /** The environment a helper's body runs in: its first n parameters hold the values passed. */
  function Zip(params: seq<Variable>, values: seq<Value>, n: nat): Environment
    requires n <= |params| == |values|
  {
    if n == 0 then map[] else Zip(params, values, n - 1)[params[n - 1] := values[n - 1]]
  }

  // ---------------------------------------------------------------- soundness

  /** Every binding in force holds the text its variable holds. */
  ghost predicate Agrees(bound: Bindings, env: Environment) {
    forall v | v in bound :: v in env && env[v] == Text(bound[v])
  }

  ghost predicate Distinct(params: seq<Variable>) {
    forall i, j | 0 <= i < j < |params| :: params[i] != params[j]
  }

  /** Two parameters of one function are two variables. */
  ghost predicate WellScoped(p: Program) {
    forall f | f in p :: Distinct(p[f].params)
  }

  /** The i-th argument folds, if at all, to the i-th value. */
  ghost predicate ArgumentsAgree(p: Program, args: seq<Expr>, values: seq<Value>, argBound: Bindings, depth: nat)
    requires |args| == |values|
  {
    forall i | 0 <= i < |args| ::
      FoldExpr(p, args[i], argBound, depth).Some? ==> values[i] == Text(FoldExpr(p, args[i], argBound, depth).value)
  }

  lemma {:induction false} ZipKeys(params: seq<Variable>, values: seq<Value>, n: nat)
    requires n <= |params| == |values|
    ensures forall v | v in Zip(params, values, n) :: exists i :: 0 <= i < n && params[i] == v
  {
    if n == 0 {
    } else {
      ZipKeys(params, values, n - 1);
    }
  }

  lemma {:induction false} BindAgrees(p: Program, params: seq<Variable>, args: seq<Expr>, values: seq<Value>,
                                      argBound: Bindings, depth: nat, n: nat)
    requires n <= |args| == |params| == |values| && Distinct(params)
    requires ArgumentsAgree(p, args, values, argBound, depth)
    ensures Agrees(Bind(p, params, args, argBound, depth, n), Zip(params, values, n))
    ensures forall v | v in Bind(p, params, args, argBound, depth, n) :: exists i :: 0 <= i < n && params[i] == v
  {
    hide FoldExpr;
    if n == 0 {
    } else {
      BindAgrees(p, params, args, values, argBound, depth, n - 1);
      ZipKeys(params, values, n - 1);
      var before := Bind(p, params, args, argBound, depth, n - 1);
      assert params[n - 1] !in before;
    }
  }

  /** A folded expression has the value it folds to, or none at all. */
  lemma {:induction false} FoldSound(p: Program, w: World, e: Expr, bound: Bindings, env: Environment, depth: nat, fuel: nat)
    requires WellScoped(p) && Agrees(bound, env)
    requires FoldExpr(p, e, bound, depth).Some? && Eval(p, w, e, env, fuel).Some?
    ensures Eval(p, w, e, env, fuel).value == Text(FoldExpr(p, e, bound, depth).value)
    decreases Room(depth), 2, e
  {
    if e.constant.None? {
      match e.shape
      case Paren(inner) =>
        FoldSound(p, w, inner, bound, env, depth, fuel);
      case Concat(left, right) =>
        FoldSound(p, w, left, bound, env, depth, fuel);
        FoldSound(p, w, right, bound, env, depth, fuel);
      case Call(callee, args) =>
        FoldCallSound(p, w, callee, args, bound, env, depth, fuel);
      case _ =>
    }
  }

  lemma {:induction false} ArgumentsSound(p: Program, w: World, args: seq<Expr>, bound: Bindings, env: Environment,
                                          depth: nat, fuel: nat)
    requires WellScoped(p) && Agrees(bound, env)
    requires EvalAll(p, w, args, env, fuel).Some?
    ensures ArgumentsAgree(p, args, EvalAll(p, w, args, env, fuel).value, bound, depth)
    decreases Room(depth), 3, |args|
  {
    if args == [] {
    } else {
      hide FoldExpr, Eval;
      ArgumentsSound(p, w, args[1..], bound, env, depth, fuel);
      if FoldExpr(p, args[0], bound, depth).Some? {
        FoldSound(p, w, args[0], bound, env, depth, fuel);
      }
      forall i | 0 < i < |args| ensures args[1..][i - 1] == args[i] {}
    }
  }

  lemma {:induction false} FoldCallSound(p: Program, w: World, callee: Option<Function>, args: seq<Expr>, bound: Bindings,
                                         env: Environment, depth: nat, fuel: nat)
    requires depth <= MAX_FOLD_DEPTH && WellScoped(p) && Agrees(bound, env)
    requires FoldCall(p, callee, args, bound, depth).Some?
    requires EvalAll(p, w, args, env, fuel).Some?
    ensures callee.Some? && callee.value in p && p[callee.value].body.SingleReturn? && |p[callee.value].params| == |args|
    ensures var inner := Zip(p[callee.value].params, EvalAll(p, w, args, env, fuel).value, |args|);
            fuel > 0 && Eval(p, w, p[callee.value].body.result, inner, fuel - 1).Some? ==>
              Eval(p, w, p[callee.value].body.result, inner, fuel - 1).value
              == Text(FoldCall(p, callee, args, bound, depth).value)
    decreases Room(depth), 1
  {
    var d := OneLineHelper(p, callee, args).value;
    var values := EvalAll(p, w, args, env, fuel).value;
    ArgumentsSound(p, w, args, bound, env, depth + 1, fuel);
    BindAgrees(p, d.params, args, values, bound, depth + 1, |args|);
    var inner, folded := Zip(d.params, values, |args|), Bind(p, d.params, args, bound, depth + 1, |args|);
    if fuel > 0 && Eval(p, w, d.body.result, inner, fuel - 1).Some? {
      FoldSound(p, w, d.body.result, folded, inner, depth + 1, fuel - 1);
    }
  }

  // ---------------------------------------------------------------- depth and bindings

  ghost predicate Extends(more: Bindings, bound: Bindings) {
    forall v | v in bound :: v in more && more[v] == bound[v]
  }

  /** An answer found at one depth is found unchanged at every smaller depth, and under every larger set of bindings. */
  lemma {:induction false} FoldKeptWithMoreRoom(p: Program, e: Expr, bound: Bindings, more: Bindings, depth: nat, shallower: nat)
    requires WellScoped(p) && Extends(more, bound) && shallower <= depth
    requires FoldExpr(p, e, bound, depth).Some?
    ensures FoldExpr(p, e, more, shallower) == FoldExpr(p, e, bound, depth)
    decreases Room(depth), 2, e
  {
    if e.constant.None? {
      match e.shape
      case Paren(inner) =>
        FoldKeptWithMoreRoom(p, inner, bound, more, depth, shallower);
      case Concat(left, right) =>
        FoldKeptWithMoreRoom(p, left, bound, more, depth, shallower);
        FoldKeptWithMoreRoom(p, right, bound, more, depth, shallower);
      case Call(callee, args) =>
        var d := OneLineHelper(p, callee, args).value;
        BindKept(p, d.params, args, bound, more, depth + 1, shallower + 1, |args|);
        FoldKeptWithMoreRoom(p, d.body.result, Bind(p, d.params, args, bound, depth + 1, |args|),
                             Bind(p, d.params, args, more, shallower + 1, |args|), depth + 1, shallower + 1);
      case _ =>
    }
  }

  lemma {:induction false} BindKept(p: Program, params: seq<Variable>, args: seq<Expr>, bound: Bindings, more: Bindings,
                                    depth: nat, shallower: nat, n: nat)
    requires WellScoped(p) && Extends(more, bound) && shallower <= depth
    requires n <= |args| == |params| && Distinct(params)
    ensures Extends(Bind(p, params, args, more, shallower, n), Bind(p, params, args, bound, depth, n))
    ensures forall v | v in Bind(p, params, args, bound, depth, n) :: exists i :: 0 <= i < n && params[i] == v
    decreases Room(depth), 3, n
  {
    if n == 0 {
    } else {
      hide FoldExpr;
      BindKept(p, params, args, bound, more, depth, shallower, n - 1);
      if FoldExpr(p, args[n - 1], bound, depth).Some? {
        FoldKeptWithMoreRoom(p, args[n - 1], bound, more, depth, shallower);
      }
      assert params[n - 1] !in Bind(p, params, args, bound, depth, n - 1);
    }
  }

  // ---------------------------------------------------------------- arguments passed over

  /** Every argument of every helper the fold follows folds itself, so none is passed over. */
  ghost predicate NonePassedOver(p: Program, e: Expr, bound: Bindings, depth: nat)
    decreases Room(depth), 2, e
  {
    depth > MAX_FOLD_DEPTH || e.constant.Some? ||
    match e.shape
    case Paren(inner) => NonePassedOver(p, inner, bound, depth)
    case Concat(left, right) => NonePassedOver(p, left, bound, depth) && NonePassedOver(p, right, bound, depth)
    case Call(callee, args) =>
      (match OneLineHelper(p, callee, args)
       case None => true
       case Some(d) =>
         && (forall i | 0 <= i < |args| ::
               FoldExpr(p, args[i], bound, depth + 1).Some? && NonePassedOver(p, args[i], bound, depth + 1))
         && NonePassedOver(p, d.body.result, Bind(p, d.params, args, bound, depth + 1, |args|), depth + 1))
    case _ => true
  }

  /** Every argument the fold passes over, in a call it follows, has a value where the call is evaluated. */
  ghost predicate PassedOverReturn(p: Program, w: World, e: Expr, bound: Bindings, env: Environment, depth: nat, fuel: nat)
    decreases Room(depth), 2, e
  {
    depth > MAX_FOLD_DEPTH || e.constant.Some? ||
    match e.shape
    case Paren(inner) => PassedOverReturn(p, w, inner, bound, env, depth, fuel)
    case Concat(left, right) =>
      PassedOverReturn(p, w, left, bound, env, depth, fuel) && PassedOverReturn(p, w, right, bound, env, depth, fuel)
    case Call(callee, args) =>
      (match OneLineHelper(p, callee, args)
       case None => true
       case Some(d) =>
         && ArgumentsReturn(p, w, args, bound, env, depth + 1, fuel)
         && (fuel > 0 && EvalAll(p, w, args, env, fuel).Some? ==>
               PassedOverReturn(p, w, d.body.result, Bind(p, d.params, args, bound, depth + 1, |args|),
                                Zip(d.params, EvalAll(p, w, args, env, fuel).value, |args|), depth + 1, fuel - 1)))
    case _ => true
  }

  /** Of the arguments, those that fold pass nothing over that has no value, and the others have one themselves. */
  ghost predicate ArgumentsReturn(p: Program, w: World, args: seq<Expr>, bound: Bindings, env: Environment, depth: nat, fuel: nat)
    decreases Room(depth), 3
  {
    forall i | 0 <= i < |args| ::
      if FoldExpr(p, args[i], bound, depth).Some? then PassedOverReturn(p, w, args[i], bound, env, depth, fuel)
      else Eval(p, w, args[i], env, fuel).Some?
  }

  lemma {:induction false} EvalAllIff(p: Program, w: World, args: seq<Expr>, env: Environment, fuel: nat)
    ensures EvalAll(p, w, args, env, fuel).Some? <==> forall i | 0 <= i < |args| :: Eval(p, w, args[i], env, fuel).Some?
  {
    hide Eval;
    if args == [] {
    } else {
      EvalAllIff(p, w, args[1..], env, fuel);
      assert forall i | 0 <= i < |args[1..]| :: args[1..][i] == args[i + 1];
      assert forall i | 0 < i < |args| :: args[i] == args[1..][i - 1];
    }
  }

  /** With room for the calls it follows, a folded expression has a value exactly when what the fold passed over has. */
  lemma {:induction false} ValueIffPassedOverReturn(p: Program, w: World, e: Expr, bound: Bindings, env: Environment,
                                                    depth: nat, fuel: nat)
    requires WellScoped(p) && Agrees(bound, env) && FoldExpr(p, e, bound, depth).Some? && fuel >= Room(depth)
    ensures Eval(p, w, e, env, fuel).Some? <==> PassedOverReturn(p, w, e, bound, env, depth, fuel)
    decreases Room(depth), 2, e
  {
    hide EvalAll, ArgumentsReturn, Bind, Zip;
    if e.constant.None? {
      match e.shape
      case Paren(inner) =>
        ValueIffPassedOverReturn(p, w, inner, bound, env, depth, fuel);
      case Concat(left, right) =>
        ValueIffPassedOverReturn(p, w, left, bound, env, depth, fuel);
        ValueIffPassedOverReturn(p, w, right, bound, env, depth, fuel);
      case Call(callee, args) =>
        var d := OneLineHelper(p, callee, args).value;
        ArgumentsIff(p, w, args, bound, env, depth + 1, fuel);
        if EvalAll(p, w, args, env, fuel).Some? {
          var values := EvalAll(p, w, args, env, fuel).value;
          ArgumentsSound(p, w, args, bound, env, depth + 1, fuel);
          BindAgrees(p, d.params, args, values, bound, depth + 1, |args|);
          ValueIffPassedOverReturn(p, w, d.body.result, Bind(p, d.params, args, bound, depth + 1, |args|),
                                   Zip(d.params, values, |args|), depth + 1, fuel - 1);
        }
      case _ =>
    }
  }

  lemma ArgumentsIff(p: Program, w: World, args: seq<Expr>, bound: Bindings, env: Environment, depth: nat, fuel: nat)
    requires WellScoped(p) && Agrees(bound, env) && fuel >= Room(depth)
    ensures EvalAll(p, w, args, env, fuel).Some? <==> ArgumentsReturn(p, w, args, bound, env, depth, fuel)
    decreases Room(depth), 3
  {
    EvalAllIff(p, w, args, env, fuel);
    forall i | 0 <= i < |args| && FoldExpr(p, args[i], bound, depth).Some?
      ensures Eval(p, w, args[i], env, fuel).Some? <==> PassedOverReturn(p, w, args[i], bound, env, depth, fuel)
    {
      ValueIffPassedOverReturn(p, w, args[i], bound, env, depth, fuel);
    }
    hide FoldExpr, Eval, EvalAll, PassedOverReturn;
  }

  lemma {:induction false} NoneMeansReturn(p: Program, w: World, e: Expr, bound: Bindings, env: Environment, depth: nat, fuel: nat)
    requires NonePassedOver(p, e, bound, depth)
    ensures PassedOverReturn(p, w, e, bound, env, depth, fuel)
    decreases Room(depth), 2, e
  {
    if depth <= MAX_FOLD_DEPTH && e.constant.None? {
      match e.shape
      case Paren(inner) =>
        NoneMeansReturn(p, w, inner, bound, env, depth, fuel);
      case Concat(left, right) =>
        NoneMeansReturn(p, w, left, bound, env, depth, fuel);
        NoneMeansReturn(p, w, right, bound, env, depth, fuel);
      case Call(callee, args) =>
        if OneLineHelper(p, callee, args).Some? {
          var d := OneLineHelper(p, callee, args).value;
          forall i | 0 <= i < |args| ensures PassedOverReturn(p, w, args[i], bound, env, depth + 1, fuel) {
            NoneMeansReturn(p, w, args[i], bound, env, depth + 1, fuel);
          }
          if fuel > 0 && EvalAll(p, w, args, env, fuel).Some? {
            NoneMeansReturn(p, w, d.body.result, Bind(p, d.params, args, bound, depth + 1, |args|),
                            Zip(d.params, EvalAll(p, w, args, env, fuel).value, |args|), depth + 1, fuel - 1);
          }
        }
      case _ =>
    }
  }

  /** Where nothing is passed over the fold is total correctness: the expression returns, and returns what was folded. */
  lemma FoldIsTheValue(p: Program, w: World, e: Expr, bound: Bindings, env: Environment, depth: nat, fuel: nat)
    requires WellScoped(p) && Agrees(bound, env) && FoldExpr(p, e, bound, depth).Some? && fuel >= Room(depth)
    requires NonePassedOver(p, e, bound, depth)
    ensures Eval(p, w, e, env, fuel) == Some(Text(FoldExpr(p, e, bound, depth).value))
  {
    hide FoldExpr, Eval, NonePassedOver, PassedOverReturn;
    NoneMeansReturn(p, w, e, bound, env, depth, fuel);
    ValueIffPassedOverReturn(p, w, e, bound, env, depth, fuel);
    FoldSound(p, w, e, bound, env, depth, fuel);
  }

  lemma NoValueMeansPassedOver(p: Program, w: World, e: Expr, bound: Bindings, env: Environment, depth: nat, fuel: nat)
    requires WellScoped(p) && Agrees(bound, env) && FoldExpr(p, e, bound, depth).Some? && fuel >= Room(depth)
    requires Eval(p, w, e, env, fuel).None?
    ensures !NonePassedOver(p, e, bound, depth)
  {
    hide FoldExpr, Eval, NonePassedOver;
    if NonePassedOver(p, e, bound, depth) {
      FoldIsTheValue(p, w, e, bound, env, depth, fuel);
    }
  }

  /** More fuel never changes a value. */
  lemma {:induction false} EvalKept(p: Program, w: World, e: Expr, env: Environment, fuel: nat, more: nat)
    requires Eval(p, w, e, env, fuel).Some? && fuel <= more
    ensures Eval(p, w, e, env, more) == Eval(p, w, e, env, fuel)
    decreases fuel, e
  {
    if e.constant.None? {
      match e.shape
      case Paren(inner) =>
        EvalKept(p, w, inner, env, fuel, more);
      case Concat(left, right) =>
        EvalKept(p, w, left, env, fuel, more);
        EvalKept(p, w, right, env, fuel, more);
      case OtherBinary(left, right) =>
        EvalKept(p, w, left, env, fuel, more);
        EvalKept(p, w, right, env, fuel, more);
      case Call(callee, args) =>
        EvalAllKept(p, w, args, env, fuel, more);
        if callee.Some? && callee.value in p && |p[callee.value].params| == |args| && p[callee.value].body.SingleReturn? {
          var inner := Zip(p[callee.value].params, EvalAll(p, w, args, env, fuel).value, |args|);
          EvalKept(p, w, p[callee.value].body.result, inner, fuel - 1, more - 1);
        }
      case _ =>
    }
  }

  lemma {:induction false} EvalAllKept(p: Program, w: World, args: seq<Expr>, env: Environment, fuel: nat, more: nat)
    requires EvalAll(p, w, args, env, fuel).Some? && fuel <= more
    ensures EvalAll(p, w, args, env, more) == EvalAll(p, w, args, env, fuel)
    decreases fuel, args
  {
    if args == [] {
    } else {
      hide Eval;
      EvalKept(p, w, args[0], env, fuel, more);
      EvalAllKept(p, w, args[1..], env, fuel, more);
    }
  }

  /** The fold's answer is the value of the expression exactly when every argument it passed over has a value. */
  lemma FoldedValueIffPassedOverReturn(p: Program, w: World, e: Expr, bound: Bindings, env: Environment)
    requires WellScoped(p) && Agrees(bound, env) && FoldExpr(p, e, bound, 0).Some?
    ensures (exists fuel :: Eval(p, w, e, env, fuel) == Some(Text(FoldExpr(p, e, bound, 0).value)))
       <==> (exists fuel :: fuel >= Room(0) && PassedOverReturn(p, w, e, bound, env, 0, fuel))
  {
    hide FoldExpr, Eval, PassedOverReturn;
    if fuel: nat :| Eval(p, w, e, env, fuel) == Some(Text(FoldExpr(p, e, bound, 0).value)) {
      var enough := if fuel >= Room(0) then fuel else Room(0);
      EvalKept(p, w, e, env, fuel, enough);
      ValueIffPassedOverReturn(p, w, e, bound, env, 0, enough);
    }
    if fuel: nat :| fuel >= Room(0) && PassedOverReturn(p, w, e, bound, env, 0, fuel) {
      ValueIffPassedOverReturn(p, w, e, bound, env, 0, fuel);
      FoldSound(p, w, e, bound, env, 0, fuel);
    }
  }

  // ---------------------------------------------------------------- an answer where there is no value

  const CONSTANT_HELPER := Function(0)
  const ENDLESS_HELPER := Function(1)

  /** One helper ignores its parameter and returns a constant; the other calls itself. */
  function EndlessProgram(): Program {
    map[CONSTANT_HELPER := Declaration([Variable(0)], SingleReturn(Expr(Some("x"), OtherShape(0)))),
        ENDLESS_HELPER := Declaration([], SingleReturn(Expr(None, Call(Some(ENDLESS_HELPER), []))))]
  }

  function EndlessCall(): Expr {
    Expr(None, Call(Some(ENDLESS_HELPER), []))
  }

  function ConstantOfEndless(): Expr {
    Expr(None, Call(Some(CONSTANT_HELPER), [EndlessCall()]))
  }

  lemma {:induction false} EndlessHasNoValue(w: World, env: Environment, fuel: nat)
    ensures Eval(EndlessProgram(), w, EndlessCall(), env, fuel).None?
  {
    if fuel == 0 {
    } else {
      EndlessHasNoValue(w, Zip([], [], 0), fuel - 1);
    }
  }

  /** The fold passes over an argument it cannot fold, so it answers for a call that never returns. */
  lemma FoldAnswersForEndlessCall(w: World, fuel: nat)
    ensures FoldExpr(EndlessProgram(), ConstantOfEndless(), map[], 0) == Some("x")
    ensures Eval(EndlessProgram(), w, ConstantOfEndless(), map[], fuel).None?
    ensures !NonePassedOver(EndlessProgram(), ConstantOfEndless(), map[], 0)
  {
    EndlessHasNoValue(w, map[], fuel);
    EndlessHasNoValue(w, map[], Room(0));
    NoValueMeansPassedOver(EndlessProgram(), w, ConstantOfEndless(), map[], map[], 0, Room(0));
  }
}
