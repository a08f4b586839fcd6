/**
  The scan for unread constants: two stacks driven by the events of a syntax tree, and the union over several loads.

  `TreeRuns` says what driving the stacks over any tree does, `DeclaredAlongPaths` what that gives each constant in
  terms of the declarations around it, `DeclaresItsNames` which constants a declaration adds, and `AuditLoads` that the
  answer is what is declared and not used, in source order, in whatever order the loads came.
*/
module DeadConsts {
  import opened Outcomes
  import opened StringOrder

  datatype Position = Position(file: string, line: int, col: int)

  /** One name a declaration binds, and what the type checker made of it. */
  datatype Ident = Ident(name: string, at: Position, isConst: bool, exported: bool)

  datatype Node =
    | FuncDecl(name: string, children: seq<Node>)
    | FuncLit(children: seq<Node>)
    | ConstDecl(specs: seq<seq<Ident>>, children: seq<Node>)
    | Other(children: seq<Node>)

  datatype Constant = Constant(package: string, at: Position, name: string, func: string, groupSize: nat)

  /** What ast.Inspect calls its function with: a node, or nil when the node opened last is left. */
  datatype Event = Enter(node: Node) | Leave

  function Events(node: Node): seq<Event>
    decreases node
  {
    [Enter(node)] + EventsOfAll(node.children) + [Leave]
  }

  function EventsOfAll(nodes: seq<Node>): seq<Event>
    decreases nodes
  {
    if nodes == [] then [] else Events(nodes[0]) + EventsOfAll(nodes[1..])
  }

  // ---------------------------------------------------------------- one declaration

  /** constNames of one spec */
  function NamesOfSpec(spec: seq<Ident>): seq<Ident> {
    if spec == [] then []
    else (if spec[0].name == "_" then [] else [spec[0]]) + NamesOfSpec(spec[1..])
  }

  /** constNames */
  function ConstNames(specs: seq<seq<Ident>>): seq<Ident> {
    if specs == [] then [] else NamesOfSpec(specs[0]) + ConstNames(specs[1..])
  }

  function Found(pkg: string, name: Ident, enclosing: string, size: nat): Constant {
    Constant(pkg, name.at, name.name, enclosing, size)
  }

  /** The constants of some of a declaration's names, in order. */
  function FoundAmong(pkg: string, names: seq<Ident>, enclosing: string, size: nat): seq<Constant> {
    if names == [] then []
    else
      (if !names[0].isConst || names[0].exported then [] else [Found(pkg, names[0], enclosing, size)])
      + FoundAmong(pkg, names[1..], enclosing, size)
  }

  /** What one node declares under an enclosing function. */
  function DeclaredBy(pkg: string, node: Node, enclosing: Option<string>): seq<Constant> {
    if node.ConstDecl? then
      var names := ConstNames(node.specs);
      FoundAmong(pkg, names, Name(enclosing), |names|)
    else []
  }

  function Name(enclosing: Option<string>): string {
    if enclosing.Some? then enclosing.value else ""
  }

  /** How many names a declaration binds, the blank one aside. */
  ghost function Bound(specs: seq<seq<Ident>>): nat {
    if specs == [] then 0 else BoundBySpec(specs[0]) + Bound(specs[1..])
  }

  ghost function BoundBySpec(spec: seq<Ident>): nat {
    if spec == [] then 0 else BoundBySpec(spec[1..]) + if spec[0].name == "_" then 0 else 1
  }

  lemma {:induction false} NamesOfSpecAre(spec: seq<Ident>)
    ensures |NamesOfSpec(spec)| == BoundBySpec(spec)
    ensures forall name :: name in NamesOfSpec(spec) <==> name in spec && name.name != "_"
  {
    if spec != [] {
      NamesOfSpecAre(spec[1..]);
      assert spec == [spec[0]] + spec[1..];
    }
  }

  lemma {:induction false} ConstNamesAre(specs: seq<seq<Ident>>)
    ensures |ConstNames(specs)| == Bound(specs)
    ensures forall name :: name in ConstNames(specs) <==> name.name != "_" && exists spec | spec in specs :: name in spec
  {
    if specs != [] {
      NamesOfSpecAre(specs[0]);
      ConstNamesAre(specs[1..]);
      hide NamesOfSpec, BoundBySpec;
      assert specs == [specs[0]] + specs[1..];
    }
  }

  lemma {:induction false} FoundAmongAre(pkg: string, names: seq<Ident>, enclosing: string, size: nat, c: Constant)
    ensures c in FoundAmong(pkg, names, enclosing, size)
      <==> exists name | name in names ::
             name.isConst && !name.exported && c == Constant(pkg, name.at, name.name, enclosing, size)
  {
    if names != [] {
      FoundAmongAre(pkg, names[1..], enclosing, size, c);
      assert names == [names[0]] + names[1..];
    }
  }

  /**
    A declaration adds its unexported constants, the blank name aside: each where it stands, under the function around
    it or none, with the number of names the whole declaration binds.
  */
  lemma DeclaresItsNames(pkg: string, node: Node, enclosing: Option<string>, c: Constant)
    ensures node.ConstDecl? ==>
              (c in DeclaredBy(pkg, node, enclosing)
               <==> exists spec, name | spec in node.specs && name in spec ::
                      && name.name != "_" && name.isConst && !name.exported && c.package == pkg
                      && c.at == name.at && c.name == name.name && c.groupSize == Bound(node.specs)
                      && (if enclosing.Some? then c.func == enclosing.value else c.func == ""))
    ensures !node.ConstDecl? ==> DeclaredBy(pkg, node, enclosing) == []
  {
    if node.ConstDecl? {
      var names := ConstNames(node.specs);
      ConstNamesAre(node.specs);
      FoundAmongAre(pkg, names, Name(enclosing), |names|, c);
      hide ConstNames, FoundAmong, Bound;
    }
  }

  // ---------------------------------------------------------------- passing the function down the tree

  /** The function around what a node holds, from the one around the node. */
  function Inside(node: Node, enclosing: Option<string>): Option<string> {
    match node
    case FuncDecl(name, _) => Some(name)
    case FuncLit(_) => if enclosing.Some? then enclosing else Some("func")
    case _ => enclosing
  }

  /** Every constant of a tree, each with the function passed down to it. */
  function Declares(pkg: string, node: Node, enclosing: Option<string>): seq<Constant>
    decreases node
  {
    DeclaredBy(pkg, node, Inside(node, enclosing)) + DeclaresOfAll(pkg, node.children, Inside(node, enclosing))
  }

  function DeclaresOfAll(pkg: string, nodes: seq<Node>, enclosing: Option<string>): seq<Constant>
    decreases nodes
  {
    if nodes == [] then [] else Declares(pkg, nodes[0], enclosing) + DeclaresOfAll(pkg, nodes[1..], enclosing)
  }

  type Table = map<Position, Constant>

  /** The table after some constants are written into it, in order. */
  function Write(table: Table, constants: seq<Constant>): Table
    decreases |constants|
  {
    if constants == [] then table else Write(table[constants[0].at := constants[0]], constants[1..])
  }

  lemma {:induction false} WriteBoth(table: Table, first: seq<Constant>, second: seq<Constant>)
    ensures Write(table, first + second) == Write(Write(table, first), second)
    decreases |first|
  {
    if first == [] {
      assert first + second == second;
    } else {
      assert (first + second)[1..] == first[1..] + second;
      WriteBoth(table[first[0].at := first[0]], first[1..], second);
    }
  }

  // ---------------------------------------------------------------- the two stacks

  /** The nodes open, the functions among them, and the table so far. */
  datatype State = State(open: seq<Node>, funcs: seq<string>, table: Table)

  function Top(funcs: seq<string>): Option<string> {
    if funcs == [] then None else Some(funcs[|funcs| - 1])
  }

  predicate IsFunc(node: Node) {
    node.FuncDecl? || node.FuncLit?
  }

  /** No stack is read or popped while it is empty. */
  predicate Steps(s: State, e: Event) {
    e.Leave? ==> s.open != [] && (IsFunc(s.open[|s.open| - 1]) ==> s.funcs != [])
  }

  function Entered(funcs: seq<string>, node: Node): seq<string> {
    match node
    case FuncDecl(name, _) => funcs + [name]
    case FuncLit(_) => funcs + [if funcs == [] then "func" else funcs[|funcs| - 1]]
    case _ => funcs
  }

  function Step(pkg: string, s: State, e: Event): State
    requires Steps(s, e)
  {
    match e
    case Enter(node) =>
      var funcs := Entered(s.funcs, node);
      State(s.open + [node], funcs, Write(s.table, DeclaredBy(pkg, node, Top(funcs))))
    case Leave =>
      var last := |s.open| - 1;
      State(s.open[..last], if IsFunc(s.open[last]) then s.funcs[..|s.funcs| - 1] else s.funcs, s.table)
  }

  /** Where the events lead, if no stack runs empty under way. */
  function Run(pkg: string, s: State, events: seq<Event>): Option<State>
    decreases |events|
  {
    if events == [] then Some(s)
    else if Steps(s, events[0]) then Run(pkg, Step(pkg, s, events[0]), events[1..])
    else None
  }

  lemma RunCons(pkg: string, s: State, e: Event, rest: seq<Event>)
    requires Steps(s, e)
    ensures Run(pkg, s, [e] + rest) == Run(pkg, Step(pkg, s, e), rest)
  {
    assert ([e] + rest)[1..] == rest;
  }

  lemma EventsSplit(node: Node, rest: seq<Event>)
    ensures Events(node) + rest == [Enter(node)] + (EventsOfAll(node.children) + ([Leave] + rest))
  {}

  lemma EventsOfAllSplit(nodes: seq<Node>, rest: seq<Event>)
    requires nodes != []
    ensures EventsOfAll(nodes) + rest == Events(nodes[0]) + (EventsOfAll(nodes[1..]) + rest)
  {}

  lemma EnteredTop(funcs: seq<string>, node: Node)
    ensures Top(Entered(funcs, node)) == Inside(node, Top(funcs))
    ensures IsFunc(node) ==> Entered(funcs, node) != [] && Entered(funcs, node)[..|Entered(funcs, node)| - 1] == funcs
    ensures !IsFunc(node) ==> Entered(funcs, node) == funcs
  {}

  lemma LeaveUndoes(pkg: string, open: seq<Node>, funcs: seq<string>, node: Node, table: Table)
    ensures Steps(State(open + [node], Entered(funcs, node), table), Leave)
    ensures Step(pkg, State(open + [node], Entered(funcs, node), table), Leave) == State(open, funcs, table)
  {
    EnteredTop(funcs, node);
    hide Entered;
    assert (open + [node])[..|open|] == open;
  }

  lemma EnterStep(pkg: string, s: State, node: Node)
    ensures Step(pkg, s, Enter(node))
         == State(s.open + [node], Entered(s.funcs, node), Write(s.table, DeclaredBy(pkg, node, Inside(node, Top(s.funcs)))))
  {
    EnteredTop(s.funcs, node);
  }

  lemma DeclaresUnfold(pkg: string, node: Node, enclosing: Option<string>)
    ensures Declares(pkg, node, enclosing)
         == DeclaredBy(pkg, node, Inside(node, enclosing)) + DeclaresOfAll(pkg, node.children, Inside(node, enclosing))
  {}

  /**
    Over the events of any tree no stack runs empty, both end as they began, and the table gains what passing the
    enclosing function down the tree declares.
  */
  lemma {:induction false} TreeRuns(pkg: string, s: State, node: Node, rest: seq<Event>)
    ensures Run(pkg, s, Events(node) + rest)
         == Run(pkg, s.(table := Write(s.table, Declares(pkg, node, Top(s.funcs)))), rest)
    decreases node
  {
    EventsSplit(node, rest);
    EnterSteps(s, node);
    EnterStep(pkg, s, node);
    EnteredTop(s.funcs, node);
    DeclaresUnfold(pkg, node, Top(s.funcs));
    hide Events, EventsOfAll, Declares, DeclaresOfAll, DeclaredBy, Write, Step, Steps, Run, Entered, Top, Inside;
    var inside := Inside(node, Top(s.funcs));
    var entered := Step(pkg, s, Enter(node));
    var inner := EventsOfAll(node.children) + ([Leave] + rest);
    RunCons(pkg, s, Enter(node), inner);
    TreesRun(pkg, entered, node.children, [Leave] + rest);
    WriteBoth(s.table, DeclaredBy(pkg, node, inside), DeclaresOfAll(pkg, node.children, inside));
    var table := Write(s.table, Declares(pkg, node, Top(s.funcs)));
    LeaveUndoes(pkg, s.open, s.funcs, node, table);
    RunCons(pkg, State(s.open + [node], Entered(s.funcs, node), table), Leave, rest);
  }

  lemma EnterSteps(s: State, node: Node)
    ensures Steps(s, Enter(node))
  {}

  lemma {:induction false} TreesRun(pkg: string, s: State, nodes: seq<Node>, rest: seq<Event>)
    ensures Run(pkg, s, EventsOfAll(nodes) + rest)
         == Run(pkg, s.(table := Write(s.table, DeclaresOfAll(pkg, nodes, Top(s.funcs)))), rest)
    decreases nodes
  {
    if nodes == [] {
      assert EventsOfAll(nodes) + rest == rest;
    } else {
      EventsOfAllSplit(nodes, rest);
      hide *;
      var after := s.(table := Write(s.table, Declares(pkg, nodes[0], Top(s.funcs))));
      TreeRuns(pkg, s, nodes[0], EventsOfAll(nodes[1..]) + rest);
      TreesRun(pkg, after, nodes[1..], rest);
      WriteBoth(s.table, Declares(pkg, nodes[0], Top(s.funcs)), DeclaresOfAll(pkg, nodes[1..], Top(s.funcs)));
    }
  }

  // ---------------------------------------------------------------- what a constant is declared inside

  /** A path from a node down to one it holds. */
  ghost predicate Chain(root: Node, path: seq<Node>)
    decreases |path|
  {
    path != [] && path[0] == root && (|path| > 1 ==> path[1] in root.children && Chain(path[1], path[1..]))
  }

  ghost function Along(enclosing: Option<string>, path: seq<Node>): Option<string>
    decreases |path|
  {
    if path == [] then enclosing else Along(Inside(path[0], enclosing), path[1..])
  }

  /** The last declaration on a path, of functions declared there. */
  ghost function LastDecl(path: seq<Node>): Option<string>
    decreases |path|
  {
    if path == [] then None
    else if path[|path| - 1].FuncDecl? then Some(path[|path| - 1].name)
    else LastDecl(path[..|path| - 1])
  }

  lemma {:induction false} AlongAppend(enclosing: Option<string>, path: seq<Node>, last: Node)
    ensures Along(enclosing, path + [last]) == Inside(last, Along(enclosing, path))
    decreases |path|
  {
    if path == [] {
      assert (path + [last])[1..] == [];
    } else {
      assert (path + [last])[1..] == path[1..] + [last];
      AlongAppend(Inside(path[0], enclosing), path[1..], last);
    }
  }

  /** The innermost function declaration around it, or "func" when only literals are, or nothing. */
  lemma {:induction false} AlongIsInnermost(path: seq<Node>)
    ensures Along(None, path)
         == if LastDecl(path).Some? then LastDecl(path)
            else if exists node | node in path :: node.FuncLit? then Some("func")
            else None
    decreases |path|
  {
    if path == [] {
    } else {
      var front, last := path[..|path| - 1], path[|path| - 1];
      assert path == front + [last];
      AlongAppend(None, front, last);
      AlongIsInnermost(front);
    }
  }

  lemma ChainOne(node: Node, enclosing: Option<string>)
    ensures Chain(node, [node]) && Along(enclosing, [node]) == Inside(node, enclosing)
  {
    assert [node][1..] == [];
  }

  lemma ChainCons(node: Node, child: Node, path: seq<Node>, enclosing: Option<string>)
    requires child in node.children && Chain(child, path)
    ensures Chain(node, [node] + path) && Along(enclosing, [node] + path) == Along(Inside(node, enclosing), path)
  {
    assert ([node] + path)[1..] == path;
  }

  lemma ChainParts(node: Node, path: seq<Node>, enclosing: Option<string>)
    requires Chain(node, path)
    ensures |path| > 1 ==> path[1] in node.children && Chain(path[1], path[1..])
    ensures Along(enclosing, path) == Along(Inside(node, enclosing), path[1..])
    ensures |path| == 1 ==> path[0] == node && Along(enclosing, path) == Inside(node, enclosing)
  {
    if |path| == 1 {
      assert path[1..] == [];
    }
  }

  ghost predicate DeclaredAt(pkg: string, path: seq<Node>, enclosing: Option<string>, c: Constant) {
    path != [] && c in DeclaredBy(pkg, path[|path| - 1], Along(enclosing, path))
  }

  lemma {:induction false} DeclaredHasPath(pkg: string, node: Node, enclosing: Option<string>, c: Constant)
    returns (path: seq<Node>)
    requires c in Declares(pkg, node, enclosing)
    ensures Chain(node, path) && DeclaredAt(pkg, path, enclosing, c)
    decreases node
  {
    DeclaresUnfold(pkg, node, enclosing);
    hide Inside, DeclaredBy, Declares, DeclaresOfAll, Chain, Along;
    var inside := Inside(node, enclosing);
    if c in DeclaredBy(pkg, node, inside) {
      ChainOne(node, enclosing);
      path := [node];
    } else {
      var child := DeclaredByChild(pkg, node.children, inside, c);
      var below := DeclaredHasPath(pkg, child, inside, c);
      ChainCons(node, child, below, enclosing);
      path := [node] + below;
    }
  }

  lemma {:induction false} PathIsDeclared(pkg: string, node: Node, enclosing: Option<string>, c: Constant, path: seq<Node>)
    requires Chain(node, path) && DeclaredAt(pkg, path, enclosing, c)
    ensures c in Declares(pkg, node, enclosing)
    decreases node
  {
    DeclaresUnfold(pkg, node, enclosing);
    ChainParts(node, path, enclosing);
    hide Inside, DeclaredBy, Declares, DeclaresOfAll, Chain, Along;
    if |path| <= 1 {
    } else {
      PathIsDeclared(pkg, path[1], Inside(node, enclosing), c, path[1..]);
      ChildDeclares(pkg, node.children, path[1], Inside(node, enclosing), c);
    }
  }

  /** A constant is in a tree's answer exactly when some path leads to its declaration, under the name the path gives. */
  lemma DeclaredAlongPaths(pkg: string, node: Node, enclosing: Option<string>, c: Constant)
    ensures c in Declares(pkg, node, enclosing)
      <==> exists path :: Chain(node, path) && DeclaredAt(pkg, path, enclosing, c)
  {
    hide *;
    if c in Declares(pkg, node, enclosing) {
      var path := DeclaredHasPath(pkg, node, enclosing, c);
    }
    forall path | Chain(node, path) && DeclaredAt(pkg, path, enclosing, c) ensures c in Declares(pkg, node, enclosing) {
      PathIsDeclared(pkg, node, enclosing, c, path);
    }
  }

  lemma {:induction false} DeclaredByChild(pkg: string, nodes: seq<Node>, enclosing: Option<string>, c: Constant)
    returns (child: Node)
    requires c in DeclaresOfAll(pkg, nodes, enclosing)
    ensures child in nodes && c in Declares(pkg, child, enclosing)
    decreases nodes
  {
    hide Declares;
    child := nodes[0];
    if c !in Declares(pkg, nodes[0], enclosing) {
      child := DeclaredByChild(pkg, nodes[1..], enclosing, c);
    }
  }

  lemma {:induction false} ChildDeclares(pkg: string, nodes: seq<Node>, child: Node, enclosing: Option<string>, c: Constant)
    requires child in nodes && c in Declares(pkg, child, enclosing)
    ensures c in DeclaresOfAll(pkg, nodes, enclosing)
    decreases nodes
  {
    hide Declares;
    if child != nodes[0] {
      ChildDeclares(pkg, nodes[1..], child, enclosing, c);
    }
  }

  // ---------------------------------------------------------------- one load

  datatype Use = Use(at: Position, isConst: bool)

  /** A package as a load gives it, under the name the repository gives it. */
  datatype Package = Package(
    path: string, name: string, testMain: bool, leavesFilesOut: bool, files: seq<Node>, uses: seq<Use>)

  function FilesDeclare(pkg: string, files: seq<Node>): seq<Constant> {
    if files == [] then [] else Declares(pkg, files[0], None) + FilesDeclare(pkg, files[1..])
  }

  /** What a load declares: the synthesized test mains aside. */
  function LoadDeclares(loaded: seq<Package>): seq<Constant> {
    if loaded == [] then []
    else
      (if loaded[0].testMain then [] else FilesDeclare(loaded[0].name, loaded[0].files)) + LoadDeclares(loaded[1..])
  }

  function UsedBy(uses: seq<Use>): set<Position> {
    set u | u in uses && u.isConst :: u.at
  }

  function LoadUses(loaded: seq<Package>): set<Position> {
    set pkg, u | pkg in loaded && !pkg.testMain && u in pkg.uses && u.isConst :: u.at
  }

  function LoadNames(loaded: seq<Package>): set<string> {
    set pkg | pkg in loaded && !pkg.testMain :: pkg.name
  }

  function LoadLeavesOut(loaded: seq<Package>): set<string> {
    set pkg | pkg in loaded && !pkg.testMain && pkg.leavesFilesOut :: pkg.path
  }

  lemma RunNext(pkg: string, s: State, events: seq<Event>, i: nat)
    requires i < |events| && Run(pkg, s, events[i..]).Some?
    ensures Steps(s, events[i])
    ensures Run(pkg, Step(pkg, s, events[i]), events[i + 1..]) == Run(pkg, s, events[i..])
  {
    assert events[i..][1..] == events[i + 1..];
  }

  lemma RunOver(pkg: string, s: State)
    ensures Run(pkg, s, []) == Some(s)
  {}

  lemma FileRuns(pkg: string, file: Node, table: Table)
    ensures Run(pkg, State([], [], table), Events(file)) == Some(State([], [], Write(table, Declares(pkg, file, None))))
  {
    TreeRuns(pkg, State([], [], table), file, []);
    hide Events, Declares, Write;
    assert Events(file) + [] == Events(file);
  }

  lemma WriteNext(table: Table, pkg: string, names: seq<Ident>, j: nat, enclosing: string, size: nat)
    requires j < |names|
    ensures Write(table, FoundAmong(pkg, names[j..], enclosing, size))
         == Write(if !names[j].isConst || names[j].exported then table
                  else table[names[j].at := Found(pkg, names[j], enclosing, size)],
                  FoundAmong(pkg, names[j + 1..], enclosing, size))
  {
    assert names[j..][1..] == names[j + 1..];
    var rest := FoundAmong(pkg, names[j + 1..], enclosing, size);
    assert [] + rest == rest;
    assert ([Found(pkg, names[j], enclosing, size)] + rest)[1..] == rest;
  }

  lemma WriteOver(table: Table, pkg: string, enclosing: string, size: nat)
    ensures Write(table, FoundAmong(pkg, [], enclosing, size)) == table
  {}

  lemma FilesNext(pkg: string, files: seq<Node>, k: nat)
    requires k < |files|
    ensures FilesDeclare(pkg, files[k..]) == Declares(pkg, files[k], None) + FilesDeclare(pkg, files[k + 1..])
  {
    hide Declares;
    assert files[k..][1..] == files[k + 1..];
  }

  lemma LoadNext(loaded: seq<Package>, k: nat)
    requires k < |loaded|
    ensures LoadDeclares(loaded[k..])
         == (if loaded[k].testMain then [] else FilesDeclare(loaded[k].name, loaded[k].files)) + LoadDeclares(loaded[k + 1..])
  {
    hide FilesDeclare;
    assert loaded[k..][1..] == loaded[k + 1..];
  }

  /** funcLitName */
  function FuncLitName(enclosing: seq<string>): string {
    if |enclosing| > 0 then enclosing[|enclosing| - 1] else "func"
  }

  class Scanner {
    var declared: Table
    var used: set<Position>
    var packages: set<string>
    var platformPackages: set<string>

    constructor ()
      ensures declared == map[] && used == {} && packages == {} && platformPackages == {}
    {
      declared, used, packages, platformPackages := map[], {}, {}, {};
    }

    /** The callback's part that writes one declaration's constants. */
    method DeclareNames(pkg: string, decl: Node, funcs: seq<string>)
      requires decl.ConstDecl?
      modifies this`declared
      ensures declared == Write(old(declared), DeclaredBy(pkg, decl, Top(funcs)))
    {
      hide Write, FoundAmong, ConstNames;
      var enclosing := "";
      if |funcs| > 0 {
        enclosing := funcs[|funcs| - 1];
      }
      var names := ConstNames(decl.specs);
      assert names[0..] == names;
      for j := 0 to |names|
        invariant Write(declared, FoundAmong(pkg, names[j..], enclosing, |names|))
               == Write(old(declared), FoundAmong(pkg, names, enclosing, |names|))
      {
        WriteNext(declared, pkg, names, j, enclosing, |names|);
        if !names[j].isConst || names[j].exported {
          continue;
        }
        declared := declared[names[j].at := Found(pkg, names[j], enclosing, |names|)];
      }
      assert names[|names|..] == [];
      WriteOver(declared, pkg, enclosing, |names|);
    }

    /** observeFile */
    method ObserveFile(pkg: string, file: Node)
      modifies this`declared
      ensures declared == Write(old(declared), Declares(pkg, file, None))
    {
      hide Write, Declares, Events, Run, DeclaredBy;
      var open: seq<Node> := [];
      var funcs: seq<string> := [];
      var events := Events(file);
      FileRuns(pkg, file, declared);
      assert events[0..] == events;
      for i := 0 to |events|
        invariant Run(pkg, State(open, funcs, declared), events[i..])
               == Some(State([], [], Write(old(declared), Declares(pkg, file, None))))
      {
        RunNext(pkg, State(open, funcs, declared), events, i);
        match events[i] {
          case Leave =>
            if IsFunc(open[|open| - 1]) {
              funcs := funcs[..|funcs| - 1];
            }
            open := open[..|open| - 1];
          case Enter(node) =>
            open := open + [node];
            if node.FuncDecl? {
              funcs := funcs + [node.name];
            } else if node.FuncLit? {
              funcs := funcs + [FuncLitName(funcs)];
            }
            if node.ConstDecl? {
              DeclareNames(pkg, node, funcs);
            } else {
              NothingDeclared(pkg, node, Top(funcs), declared);
            }
        }
      }
      assert events[|events|..] == [];
      RunOver(pkg, State(open, funcs, declared));
    }

    /** observe */
    method Observe(loaded: seq<Package>)
      modifies this
      ensures declared == Write(old(declared), LoadDeclares(loaded))
      ensures used == old(used) + LoadUses(loaded)
      ensures packages == old(packages) + LoadNames(loaded)
      ensures platformPackages == old(platformPackages) + LoadLeavesOut(loaded)
    {
      hide Write, LoadDeclares, FilesDeclare, Declares;
      assert loaded[0..] == loaded;
      for k := 0 to |loaded|
        invariant Write(declared, LoadDeclares(loaded[k..])) == Write(old(declared), LoadDeclares(loaded))
        invariant used == old(used) + LoadUses(loaded[..k])
        invariant packages == old(packages) + LoadNames(loaded[..k])
        invariant platformPackages == old(platformPackages) + LoadLeavesOut(loaded[..k])
      {
        var pkg := loaded[k];
        LoadNext(loaded, k);
        assert loaded[..k + 1] == loaded[..k] + [pkg];
        if pkg.testMain {
          assert [] + LoadDeclares(loaded[k + 1..]) == LoadDeclares(loaded[k + 1..]);
          continue;
        }
        packages := packages + {pkg.name};
        if pkg.leavesFilesOut {
          platformPackages := platformPackages + {pkg.path};
        }
        WriteBoth(declared, FilesDeclare(pkg.name, pkg.files), LoadDeclares(loaded[k + 1..]));
        ObservePackage(pkg);
      }
      assert loaded[|loaded|..] == [] && loaded[..|loaded|] == loaded;
      LoadOver(declared);
    }

    /** The body of observe's loop over one package. */
    method ObservePackage(pkg: Package)
      modifies this`declared, this`used
      ensures declared == Write(old(declared), FilesDeclare(pkg.name, pkg.files))
      ensures used == old(used) + UsedBy(pkg.uses)
    {
      hide Write, FilesDeclare, Declares;
      assert pkg.files[0..] == pkg.files;
      for k := 0 to |pkg.files|
        invariant Write(declared, FilesDeclare(pkg.name, pkg.files[k..]))
               == Write(old(declared), FilesDeclare(pkg.name, pkg.files))
        invariant used == old(used)
      {
        FilesNext(pkg.name, pkg.files, k);
        WriteBoth(declared, Declares(pkg.name, pkg.files[k], None), FilesDeclare(pkg.name, pkg.files[k + 1..]));
        ObserveFile(pkg.name, pkg.files[k]);
      }
      assert pkg.files[|pkg.files|..] == [];
      FilesOver(declared, pkg.name);
      for k := 0 to |pkg.uses|
        invariant declared == Write(old(declared), FilesDeclare(pkg.name, pkg.files))
        invariant used == old(used) + UsedBy(pkg.uses[..k])
      {
        assert pkg.uses[..k + 1] == pkg.uses[..k] + [pkg.uses[k]];
        if pkg.uses[k].isConst {
          used := used + {pkg.uses[k].at};
        }
      }
      assert pkg.uses[..|pkg.uses|] == pkg.uses;
    }

    /** dead: what no load recorded a use of, in source order. */
    method Dead() returns (found: seq<Constant>)
      requires KeyedByPosition(declared)
      ensures InSourceOrder(found)
      ensures forall c :: c in found <==> c.at in declared && declared[c.at] == c && c.at !in used
    {
      found := [];
      var left := declared.Keys;
      while left != {}
        invariant left <= declared.Keys
        invariant InSourceOrder(found)
        invariant forall c :: c in found <==> c.at in declared.Keys - left && declared[c.at] == c && c.at !in used
      {
        var at :| at in left;
        left := left - {at};
        if at in used {
          continue;
        }
        InsertsInOrder(declared[at], found);
        found := InsertByPosition(declared[at], found);
      }
    }
  }

  lemma NothingDeclared(pkg: string, node: Node, enclosing: Option<string>, table: Table)
    requires !node.ConstDecl?
    ensures Write(table, DeclaredBy(pkg, node, enclosing)) == table
  {}

  lemma LoadOver(table: Table)
    ensures Write(table, LoadDeclares([])) == table
  {}

  lemma FilesOver(table: Table, pkg: string)
    ensures Write(table, FilesDeclare(pkg, [])) == table
  {}

  // ---------------------------------------------------------------- source order

  /** sortConstants' order: file, then line, then column. */
  predicate Before(a: Position, b: Position) {
    if a.file != b.file then Leq(a.file, b.file)
    else if a.line != b.line then a.line < b.line
    else a.col < b.col
  }

  /** File by file in the order of their names, then line by line, then from left to right. */
  lemma BeforeIs(a: Position, b: Position)
    ensures Before(a, b)
      <==> || (a.file != b.file && Leq(a.file, b.file))
           || (a.file == b.file && a.line < b.line)
           || (a.file == b.file && a.line == b.line && a.col < b.col)
  {}

  lemma BeforeIsTotal(a: Position, b: Position)
    ensures a != b ==> Before(a, b) || Before(b, a)
    ensures Before(a, b) ==> !Before(b, a)
  {
    LeqTotal(a.file, b.file);
    if Leq(a.file, b.file) && Leq(b.file, a.file) {
      LeqAntisymmetric(a.file, b.file);
    }
  }

  lemma BeforeTransitive(a: Position, b: Position, c: Position)
    requires Before(a, b) && Before(b, c)
    ensures Before(a, c)
  {
    if a.file != b.file && b.file != c.file {
      LeqTransitive(a.file, b.file, c.file);
      if a.file == c.file {
        LeqAntisymmetric(a.file, b.file);
      }
    }
  }

  ghost predicate InSourceOrder(found: seq<Constant>) {
    forall i, j | 0 <= i < j < |found| :: Before(found[i].at, found[j].at)
  }

  ghost predicate KeyedByPosition(table: Table) {
    forall at | at in table :: table[at].at == at
  }

  /** Where sorting puts one more constant. */
  function InsertByPosition(c: Constant, found: seq<Constant>): seq<Constant> {
    if found == [] || Before(c.at, found[0].at) then [c] + found
    else [found[0]] + InsertByPosition(c, found[1..])
  }

  lemma {:induction false} InsertsInOrder(c: Constant, found: seq<Constant>)
    requires InSourceOrder(found) && forall d | d in found :: d.at != c.at
    ensures InSourceOrder(InsertByPosition(c, found))
    ensures forall d :: d in InsertByPosition(c, found) <==> d == c || d in found
  {
    hide Before;
    if found == [] {
    } else if Before(c.at, found[0].at) {
      forall j | 0 <= j < |found| ensures Before(c.at, found[j].at) {
        if j > 0 {
          BeforeTransitive(c.at, found[0].at, found[j].at);
        }
      }
    } else {
      BeforeIsTotal(c.at, found[0].at);
      InsertsInOrder(c, found[1..]);
      assert found == [found[0]] + found[1..];
      var rest := InsertByPosition(c, found[1..]);
      forall j | 0 <= j < |rest| ensures Before(found[0].at, rest[j].at) {
        assert rest[j] in rest;
      }
    }
  }

  /** A list in source order is determined by what it holds. */
  lemma {:induction false} InSourceOrderUnique(mine: seq<Constant>, theirs: seq<Constant>)
    requires InSourceOrder(mine) && InSourceOrder(theirs) && forall c :: c in mine <==> c in theirs
    ensures mine == theirs
    decreases |mine|
  {
    hide Before;
    if mine == [] {
      FirstIsIn(theirs);
    } else {
      FirstIsFirst(mine, theirs);
      assert mine == [mine[0]] + mine[1..] && theirs == [theirs[0]] + theirs[1..];
      NotAgain(mine);
      NotAgain(theirs);
      forall c ensures c in mine[1..] <==> c in theirs[1..] {
        assert c in mine <==> c == mine[0] || c in mine[1..];
        assert c in theirs <==> c == theirs[0] || c in theirs[1..];
      }
      InSourceOrderUnique(mine[1..], theirs[1..]);
    }
  }

  lemma FirstIsIn(found: seq<Constant>)
    ensures found != [] ==> found[0] in found
  {}

  lemma NotAgain(found: seq<Constant>)
    requires InSourceOrder(found) && found != []
    ensures found[0] !in found[1..]
  {
    BeforeIsTotal(found[0].at, found[0].at);
    hide Before;
  }

  lemma FirstIsFirst(mine: seq<Constant>, theirs: seq<Constant>)
    requires InSourceOrder(mine) && InSourceOrder(theirs) && (forall c :: c in mine <==> c in theirs) && mine != []
    ensures theirs != [] && mine[0] == theirs[0]
  {
    assert mine[0] in theirs && theirs[0] in mine;
    BeforeIsTotal(mine[0].at, theirs[0].at);
    hide Before;
  }

  // ---------------------------------------------------------------- several loads

  /** Loads of one tree see the same constant at a position. */
  ghost predicate Agree(constants: seq<Constant>) {
    forall a, b | a in constants && b in constants && a.at == b.at :: a == b
  }

  /** Written in any order, agreeing constants leave exactly themselves. */
  lemma {:induction false} WriteIsUnion(table: Table, constants: seq<Constant>)
    requires KeyedByPosition(table) && Agree(constants)
    requires forall c | c in constants && c.at in table :: table[c.at] == c
    ensures KeyedByPosition(Write(table, constants))
    ensures forall at :: at in Write(table, constants) <==> at in table || exists c :: c in constants && c.at == at
    ensures forall at | at in table :: at in Write(table, constants) && Write(table, constants)[at] == table[at]
    ensures forall c | c in constants :: c.at in Write(table, constants) && Write(table, constants)[c.at] == c
    decreases |constants|
  {
    if constants == [] {
    } else {
      var first, rest := constants[0], constants[1..];
      var next := table[first.at := first];
      RestAgrees(table, constants);
      WriteIsUnion(next, rest);
      assert Write(table, constants) == Write(next, rest);
      hide Write, Agree;
      assert forall c :: c in constants <==> c == first || c in rest;
    }
  }

  lemma RestAgrees(table: Table, constants: seq<Constant>)
    requires constants != [] && KeyedByPosition(table) && Agree(constants)
    requires forall c | c in constants && c.at in table :: table[c.at] == c
    ensures Agree(constants[1..]) && KeyedByPosition(table[constants[0].at := constants[0]])
    ensures forall c | c in constants[1..] && c.at in table[constants[0].at := constants[0]] ::
              table[constants[0].at := constants[0]][c.at] == c
  {
    assert forall c | c in constants[1..] :: c in constants;
    assert constants[0] in constants;
  }

  function AllPackages(loads: seq<seq<Package>>): seq<Package> {
    if loads == [] then [] else loads[0] + AllPackages(loads[1..])
  }

  /** One of the packages observed declares a constant. */
  ghost predicate Declared(packages: seq<Package>, c: Constant) {
    exists pkg | pkg in packages :: !pkg.testMain && InSome(pkg.name, pkg.files, c)
  }

  ghost predicate Used(packages: seq<Package>, at: Position) {
    exists pkg, u | pkg in packages && u in pkg.uses :: !pkg.testMain && u.isConst && u.at == at
  }

  lemma LoadUsesAre(loaded: seq<Package>)
    ensures forall at :: at in LoadUses(loaded) <==> Used(loaded, at)
  {}

  ghost predicate InSome(pkg: string, files: seq<Node>, c: Constant) {
    exists file | file in files :: c in Declares(pkg, file, None)
  }

  lemma {:induction false} FilesDeclareEach(pkg: string, files: seq<Node>, c: Constant)
    ensures c in FilesDeclare(pkg, files) <==> InSome(pkg, files, c)
  {
    hide Declares;
    if files == [] {
    } else {
      FilesDeclareEach(pkg, files[1..], c);
      assert files == [files[0]] + files[1..];
      assert files[0] in files;
      assert InSome(pkg, files, c) <==> c in Declares(pkg, files[0], None) || InSome(pkg, files[1..], c);
    }
  }

  lemma {:induction false} LoadDeclaresEach(loaded: seq<Package>, c: Constant)
    ensures c in LoadDeclares(loaded) <==> Declared(loaded, c)
  {
    hide Declares, FilesDeclare;
    if loaded == [] {
    } else {
      LoadDeclaresEach(loaded[1..], c);
      FilesDeclareEach(loaded[0].name, loaded[0].files, c);
      hide InSome;
      assert loaded == [loaded[0]] + loaded[1..];
      assert loaded[0] in loaded;
    }
  }

  lemma {:induction false} LoadDeclaresBoth(first: seq<Package>, second: seq<Package>)
    ensures LoadDeclares(first + second) == LoadDeclares(first) + LoadDeclares(second)
  {
    hide FilesDeclare;
    if first == [] {
      assert first + second == second;
    } else {
      assert (first + second)[1..] == first[1..] + second;
      LoadDeclaresBoth(first[1..], second);
    }
  }

  lemma LoadUsesBoth(first: seq<Package>, second: seq<Package>)
    ensures LoadUses(first + second) == LoadUses(first) + LoadUses(second)
  {}

  /** The loads one run makes, read one after another, and what they leave unread. */
  method AuditLoads(loads: seq<seq<Package>>) returns (found: seq<Constant>)
    requires Agree(LoadDeclares(AllPackages(loads)))
    ensures InSourceOrder(found)
    ensures forall c :: c in found <==> Declared(AllPackages(loads), c) && !Used(AllPackages(loads), c.at)
  {
    hide LoadDeclares, LoadUses, Write, Agree, Declared, Before;
    var scanner := new Scanner();
    ghost var seen: seq<Package> := [];
    ghost var all := AllPackages(loads);
    LoadOver(map[]);
    NoUses();
    assert loads[0..] == loads;
    for k := 0 to |loads|
      invariant fresh(scanner)
      invariant seen + AllPackages(loads[k..]) == all
      invariant scanner.declared == Write(map[], LoadDeclares(seen))
      invariant scanner.used == LoadUses(seen)
    {
      LoadDeclaresBoth(seen, loads[k]);
      LoadUsesBoth(seen, loads[k]);
      WriteBoth(map[], LoadDeclares(seen), LoadDeclares(loads[k]));
      assert loads[k..][1..] == loads[k + 1..];
      scanner.Observe(loads[k]);
      seen := seen + loads[k];
    }
    assert seen == all;
    WriteIsUnion(map[], LoadDeclares(all));
    found := scanner.Dead();
    LoadUsesAre(all);
    hide Used;
    forall c ensures c in LoadDeclares(all) <==> Declared(all, c) {
      LoadDeclaresEach(all, c);
    }
  }

  lemma NoUses()
    ensures LoadUses([]) == {}
  {}

  /** Two runs over the same packages, however grouped, ordered or repeated, find the same list. */
  lemma SameFindings(packages: seq<Package>, others: seq<Package>, mine: seq<Constant>, theirs: seq<Constant>)
    requires forall pkg :: pkg in packages <==> pkg in others
    requires InSourceOrder(mine) && forall c :: c in mine <==> Declared(packages, c) && !Used(packages, c.at)
    requires InSourceOrder(theirs) && forall c :: c in theirs <==> Declared(others, c) && !Used(others, c.at)
    ensures mine == theirs
  {
    hide InSourceOrder, InSome;
    assert forall at :: Used(packages, at) <==> Used(others, at);
    assert forall c :: Declared(packages, c) <==> Declared(others, c);
    InSourceOrderUnique(mine, theirs);
  }
}
