/**
  What the classification of a run says, in terms of its call lines.

  Each kind of cell is described by the lines that touch it: what their method, target, surface, status and outcome are.
  `ActionCellIs`, `ItemCellIs`, `FacetCellIs` and `FlowCellIs` say which cells there are, which tests stand behind each
  credit, and the state every cell is in.
*/
module ClassifiedLines {
  import opened CallFold
  import opened CallRecords
  import opened CellFill
  import opened Cells
  import opened Outcomes
  import opened Sessions
  import opened Splitting
  import StringOrder
  import opened UriTemplates

  // ---------------------------------------------------------------- what one line earns

  /** A line of a passing test is worth this, by its purpose, its method and the answer it got. */
  predicate Earns(call: Call, credit: Credit) {
    var answered := call.testStatus == "passed" && call.purpose != "cleanup";
    var ok := answered && call.outcome == "ok";
    match credit
    case NoCredit => false
    case CreditSkipped => call.testStatus == "skipped"
    case CreditFailed => call.testStatus != "skipped" && call.testStatus != "passed"
    case CreditCleanup => call.testStatus == "passed" && call.purpose == "cleanup" && call.outcome == "ok"
    case CreditPreview => answered && call.outcome == "preview"
    case CreditRefused => answered && "refused:" <= call.outcome
    case CreditErrorPath => answered && (call.outcome == "tool_error" || call.outcome == "protocol_error")
    case CreditSweep => ok && call.purpose == "sweep"
    case CreditUnobserved => ok && call.purpose != "sweep" && call.method_ == "tools/call" && call.dispatched == ""
    case CreditAsserted => ok && call.purpose != "sweep" && (call.method_ == "tools/call" ==> call.dispatched != "")
  }

  lemma EarnsItsCredit(call: Call, credit: Credit)
    ensures credit != NoCredit ==> (CreditOfOutcome(call) == credit <==> Earns(call, credit))
  {
    assert "refused:"[0] == 'r' && "ok"[0] == 'o' && "preview"[0] == 'p' && "tool_error"[0] == 't' && "protocol_error"[0] == 'p';
  }

  // ---------------------------------------------------------------- what one line touches

  /** The action the server said it ran, or else the one the test named. */
  function NamedAction(call: Call): string {
    if call.dispatched == "" then call.action else call.dispatched
  }

  /** A tool call of an action of the catalog, neither raw nor a model's. */
  predicate ActsOn(s: Setting, call: Call, key: ActionKey) {
    && !call.fineGrained && call.method_ == "tools/call" && call.purpose != "raw" && call.purpose != "model"
    && key.shape.surface == call.surface && key.shape.mode == call.mode
    && key.action == NamedAction(call) != "" && key.action in s.catalog.actions
  }

  /** The first template with the most literal segments of those that expand to the URI. */
  ghost predicate Resolved(templates: seq<string>, uri: string, k: nat) {
    && k < |templates| && Expands(Split(templates[k], '/'), uri)
    && forall j | 0 <= j < |templates| && Expands(Split(templates[j], '/'), uri) ::
         var mine, theirs := LiteralSegments(Split(templates[k], '/')), LiteralSegments(Split(templates[j], '/'));
         theirs <= mine && (j < k ==> theirs < mine)
  }

  /** The templates a read on a capability surface is resolved against; without a session those of the manifest. */
  function TemplatesFor(s: Setting, capabilities: string): seq<string> {
    if capabilities in s.served.surfaces then s.served.surfaces[capabilities].templates else s.server.manifest
  }

  /** The item a read of a URI is a read of: a listed resource itself, the template it expands, or else the URI. */
  ghost predicate Reads(s: Setting, capabilities: string, uri: string, item: string) {
    if capabilities in s.served.surfaces && uri in s.served.surfaces[capabilities].resources then item == uri
    else
      var templates := TemplatesFor(s, capabilities);
      || (exists k: nat :: Resolved(templates, uri, k) && item == templates[k])
      || (item == uri && forall t | t in templates :: !Expands(Split(t, '/'), uri))
  }

  /** The kind a subscription is to, or the URI itself where it is of no kind the server accepts. */
  predicate SubscribesTo(s: Setting, uri: string, item: string) {
    if s.server.classify(uri).Some? then item == s.server.classify(uri).value else item == uri
  }

  /** A line that is evidence for a capability item. */
  ghost predicate Addresses(s: Setting, call: Call, key: CapabilityKey) {
    && !call.fineGrained && key.item != ""
    && key.capabilities == (if call.capabilities == "minimal" then "minimal" else "full")
    && (if key.kind.ToolManifest? then key.shape.surface == call.surface && key.shape.mode == call.mode
        else key.shape.surface == "" && key.shape.mode == "")
    && match key.kind
       case Prompts => call.method_ == "prompts/get" && key.item == call.target
       case Completions => call.method_ == "completion/complete" && key.item == call.target
       case Subscriptions =>
         && (call.method_ == "resources/subscribe" || call.method_ == "subscriptions/listen")
         && SubscribesTo(s, call.target, key.item)
       case Resources =>
         && call.method_ == "resources/read" && Reads(s, key.capabilities, call.target, key.item)
         && key.item !in s.server.manifest
       case ToolManifest =>
         && call.method_ == "resources/read" && Reads(s, key.capabilities, call.target, key.item)
         && key.item in s.server.manifest
       case _ => false
  }

  lemma ResolvedIsMostSpecific(templates: seq<string>, uri: string, k: nat)
    ensures Resolved(templates, uri, k) <==> MostSpecific(templates, uri, k)
  {
    forall t ensures Expands(Split(t, '/'), uri) <==> TemplateMatch(t, uri).Some? {
      MatchIffExpands(t, uri);
    }
    forall t | TemplateMatch(t, uri).Some? ensures TemplateMatch(t, uri).value == LiteralSegments(Split(t, '/')) {
      MatchCountsLiterals(t, uri);
    }
    hide Split, TemplateMatch, Expands, LiteralSegments;
  }

  lemma {:induction false} SomeMostSpecific(templates: seq<string>, uri: string) returns (k: nat)
    requires exists t :: t in templates && TemplateMatch(t, uri).Some?
    ensures MostSpecific(templates, uri, k)
    decreases |templates|
  {
    hide TemplateMatch;
    var n := |templates| - 1;
    var front := templates[..n];
    assert forall t | t in templates :: t in front || t == templates[n];
    if exists t :: t in front && TemplateMatch(t, uri).Some? {
      k := SomeMostSpecific(front, uri);
      if TemplateMatch(templates[n], uri).Some? && TemplateMatch(templates[n], uri).value > TemplateMatch(templates[k], uri).value {
        k := n;
      }
    } else {
      k := n;
      forall j | 0 <= j < n ensures TemplateMatch(templates[j], uri).None? {
        assert templates[j] == front[j];
      }
    }
  }

  lemma ReadsItsTarget(s: Setting, capabilities: string, uri: string, item: string)
    ensures Reads(s, capabilities, uri, item) <==> item == ResourceTarget(s, capabilities, uri)
  {
    var templates := TemplatesFor(s, capabilities);
    forall k: nat ensures Resolved(templates, uri, k) <==> MostSpecific(templates, uri, k) {
      ResolvedIsMostSpecific(templates, uri, k);
    }
    forall t ensures Expands(Split(t, '/'), uri) <==> TemplateMatch(t, uri).Some? {
      MatchIffExpands(t, uri);
    }
    hide Split, TemplateMatch, Expands, Resolved;
    if exists t :: t in templates && TemplateMatch(t, uri).Some? {
      var k := SomeMostSpecific(templates, uri);
      BestMatchIs(templates, uri, k);
      forall j: nat | MostSpecific(templates, uri, j) ensures templates[j] == templates[k] {
        BestMatchIs(templates, uri, j);
      }
    } else {
      NoBestMatch(templates, uri);
    }
    hide BestMatch, MostSpecific;
  }

  // ---------------------------------------------------------------- effects are what lines touch

  lemma ActsAsItsEffect(s: Setting, call: Call, key: ActionKey)
    requires !call.fineGrained
    ensures EffectOf(s, call).Acted? && EffectOf(s, call).key == key <==> ActsOn(s, call, key)
    ensures ActsOn(s, call, key) ==>
              EffectOf(s, call) == Acted(key, CreditOfOutcome(call), call.test, NoteOf(s.catalog.actions[key.action], CreditOfOutcome(call)))
  {
    hide CreditOfOutcome, NoteOf, ResourceTarget, SubscriptionKind, KeyFor;
  }

  lemma KeyIs(kind: Kind, call: Call, item: string, key: CapabilityKey)
    requires !kind.Elicitation? && !kind.Modes?
    ensures KeyFor(kind, ShapeOfCall(call), EffectiveCapabilitySurface(call.capabilities), item) == key <==>
      && key.kind == kind && key.item == item
      && key.capabilities == (if call.capabilities == "minimal" then "minimal" else "full")
      && (if kind.ToolManifest? then key.shape.surface == call.surface && key.shape.mode == call.mode
          else key.shape.surface == "" && key.shape.mode == "")
  {}

  lemma ReachesIs(kind: Kind, call: Call, item: string, key: CapabilityKey)
    requires !kind.Elicitation? && !kind.Modes?
    ensures CapabilityEffect(kind, call, item) == Reached(key, CreditOfOutcome(call), call.test) <==>
      && item != "" && key.kind == kind && key.item == item
      && key.capabilities == (if call.capabilities == "minimal" then "minimal" else "full")
      && (if kind.ToolManifest? then key.shape.surface == call.surface && key.shape.mode == call.mode
          else key.shape.surface == "" && key.shape.mode == "")
    ensures CapabilityEffect(kind, call, item).NoEffect? || CapabilityEffect(kind, call, item).Reached?
    ensures CapabilityEffect(kind, call, item).Reached? ==>
              CapabilityEffect(kind, call, item).earned == CreditOfOutcome(call) && CapabilityEffect(kind, call, item).test == call.test
  {
    KeyIs(kind, call, item, key);
    hide KeyFor, CreditOfOutcome, EffectiveCapabilitySurface;
  }

  /** The kind and the item a line is evidence for, where it is for one. */
  ghost function Evident(s: Setting, call: Call): Option<(Kind, string)> {
    var capabilities := EffectiveCapabilitySurface(call.capabilities);
    if call.method_ == "resources/read" then
      var item := ResourceTarget(s, capabilities, call.target);
      Some((if item in s.server.manifest then ToolManifest else Resources, item))
    else if call.method_ == "prompts/get" then Some((Prompts, call.target))
    else if call.method_ == "completion/complete" then Some((Completions, call.target))
    else if call.method_ == "resources/subscribe" || call.method_ == "subscriptions/listen" then
      Some((Subscriptions, SubscriptionKind(s, call.target)))
    else None
  }

  lemma EffectIsEvident(s: Setting, call: Call)
    ensures Evident(s, call).Some? ==>
              EffectOf(s, call) == CapabilityEffect(Evident(s, call).value.0, call, Evident(s, call).value.1)
    ensures Evident(s, call).None? ==> !EffectOf(s, call).Reached?
  {
    hide ToolEffect, CapabilityEffect, ResourceTarget, SubscriptionKind, KeyFor;
    NoToolReaches(s, call);
  }

  lemma NoToolReaches(s: Setting, call: Call)
    ensures ToolEffect(s, call).NoEffect? || ToolEffect(s, call).Acted?
  {}

  lemma AddressesEvident(s: Setting, call: Call, key: CapabilityKey)
    requires !call.fineGrained
    ensures Addresses(s, call, key) <==>
      && Evident(s, call).Some? && key.kind == Evident(s, call).value.0 && key.item == Evident(s, call).value.1 != ""
      && key.capabilities == (if call.capabilities == "minimal" then "minimal" else "full")
      && (if key.kind.ToolManifest? then key.shape.surface == call.surface && key.shape.mode == call.mode
          else key.shape.surface == "" && key.shape.mode == "")
  {
    ReadsItsTarget(s, key.capabilities, call.target, key.item);
    SubscribesToItsKind(s, call.target, key.item);
    hide Reads, ResourceTarget, SubscriptionKind, SubscribesTo;
  }

  lemma SubscribesToItsKind(s: Setting, uri: string, item: string)
    ensures SubscribesTo(s, uri, item) <==> item == SubscriptionKind(s, uri)
  {}

  lemma AddressesAsItsEffect(s: Setting, call: Call, key: CapabilityKey)
    requires !call.fineGrained
    ensures EffectOf(s, call).Reached? && EffectOf(s, call).item == key <==> Addresses(s, call, key)
    ensures Addresses(s, call, key) ==> EffectOf(s, call) == Reached(key, CreditOfOutcome(call), call.test)
  {
    EffectIsEvident(s, call);
    AddressesEvident(s, call, key);
    if Evident(s, call).Some? {
      var (kind, item) := Evident(s, call).value;
      assert !kind.Elicitation? && !kind.Modes?;
      ReachesIs(kind, call, item, key);
    }
    hide EffectOf, Addresses, Evident, CapabilityEffect, CreditOfOutcome;
  }

  // ---------------------------------------------------------------- what a cell gathers from the lines

  /** An action's cell, or a capability item's. */
  datatype Target = OfAction(action: ActionKey) | OfItem(item: CapabilityKey)

  ghost predicate Touches(s: Setting, call: Call, t: Target) {
    match t
    case OfAction(key) => ActsOn(s, call, key)
    case OfItem(key) => Addresses(s, call, key)
  }

  predicate HasCell(r: Record, t: Target) {
    match t
    case OfAction(key) => key in r.cells
    case OfItem(key) => key in r.capabilities
  }

  function CellOf(r: Record, t: Target): Cell {
    match t
    case OfAction(key) => At(r.cells, key, NEW_CELL)
    case OfItem(key) => At(r.capabilities, key, CALLED_CELL)
  }

  /** The tests of the lines that touch a target and earn it a credit. */
  ghost function TestsFor(s: Setting, calls: seq<Call>, t: Target, credit: Credit): set<string> {
    set call | call in calls && Touches(s, call, t) && Earns(call, credit) :: call.test
  }

  /** How many lines touch a target and earn it a credit. */
  ghost function LinesFor(s: Setting, calls: seq<Call>, t: Target, credit: Credit): nat {
    if calls == [] then 0
    else
      var last := calls[|calls| - 1];
      LinesFor(s, calls[..|calls| - 1], t, credit) + if Touches(s, last, t) && Earns(last, credit) then 1 else 0
  }

  ghost predicate Gathers(s: Setting, calls: seq<Call>, t: Target, c: Cell) {
    && Consistent(c)
    && forall credit | credit != NoCredit ::
         && TestsOf(c, credit) == TestsFor(s, calls, t, credit)
         && CountOf(c, credit) == LinesFor(s, calls, t, credit)
  }

  lemma TouchedStep(s: Setting, r: Record, call: Call, t: Target)
    ensures Touches(s, call, t) ==> !call.fineGrained
    ensures var after := Step(s, r, call);
            if Touches(s, call, t) then HasCell(after, t) && CellOf(after, t) == Add(CellOf(r, t), CreditOfOutcome(call), call.test)
            else (HasCell(after, t) <==> HasCell(r, t)) && CellOf(after, t) == CellOf(r, t)
  {
    if !call.fineGrained {
      match t
      case OfAction(key) => ActsAsItsEffect(s, call, key);
      case OfItem(key) => AddressesAsItsEffect(s, call, key);
    }
    hide EffectOf, Addresses, ActsOn, CreditOfOutcome, Add, Noted;
  }

  lemma OneMoreLine(s: Setting, front: seq<Call>, last: Call, t: Target, credit: Credit)
    ensures var counts := Touches(s, last, t) && Earns(last, credit); var calls := front + [last];
            && TestsFor(s, calls, t, credit) == TestsFor(s, front, t, credit) + (if counts then {last.test} else {})
            && LinesFor(s, calls, t, credit) == LinesFor(s, front, t, credit) + if counts then 1 else 0
  {
    hide Touches, Earns;
    var calls := front + [last];
    assert calls[..|front|] == front;
    assert forall call :: call in calls <==> call in front || call == last;
  }

  lemma AddGathers(s: Setting, front: seq<Call>, last: Call, t: Target, c: Cell)
    requires Gathers(s, front, t, c)
    ensures Gathers(s, front + [last], t, if Touches(s, last, t) then Add(c, CreditOfOutcome(last), last.test) else c)
  {
    hide Touches, Earns, CreditOfOutcome, Add, Consistent, CountOf, TestsOf, TestsFor, LinesFor;
    var earned := CreditOfOutcome(last);
    AddConsistent(c, earned, last.test);
    AddKeepsRest(c, earned, last.test);
    AddTests(c, earned, last.test);
    var after := if Touches(s, last, t) then Add(c, earned, last.test) else c;
    forall credit | credit != NoCredit
      ensures TestsOf(after, credit) == TestsFor(s, front + [last], t, credit)
      ensures CountOf(after, credit) == LinesFor(s, front + [last], t, credit)
    {
      EarnsItsCredit(last, credit);
      OneMoreLine(s, front, last, t, credit);
    }
  }

  lemma AddTests(c: Cell, e: Credit, t: string)
    ensures forall x | x != NoCredit :: TestsOf(Add(c, e, t), x) == TestsOf(c, x) + if x == e then {t} else {}
  {}

  /** A cell is there exactly when a line touches it, and gathers those lines. */
  lemma {:induction false} LinesGathered(s: Setting, calls: seq<Call>, t: Target)
    ensures HasCell(FoldCalls(s, calls), t) <==> exists call | call in calls :: Touches(s, call, t)
    ensures Gathers(s, calls, t, CellOf(FoldCalls(s, calls), t))
  {
    hide Touches, Add, Step, Gathers, HasCell, CellOf;
    if calls == [] {
      NothingGathered(s, t);
    } else {
      var front, last := calls[..|calls| - 1], calls[|calls| - 1];
      LinesGathered(s, front, t);
      assert calls == front + [last] && last in calls;
      FoldCallsAppend(s, front, last);
      TouchedStep(s, FoldCalls(s, front), last, t);
      AddGathers(s, front, last, t, CellOf(FoldCalls(s, front), t));
    }
  }

  lemma NothingGathered(s: Setting, t: Target)
    ensures !HasCell(FoldCalls(s, []), t) && Gathers(s, [], t, CellOf(FoldCalls(s, []), t))
  {
    hide Touches, Earns;
  }

  // ---------------------------------------------------------------- the state the gathered credits give

  /** The credits lines earn a target. */
  ghost function EarnedBy(s: Setting, calls: seq<Call>, t: Target): set<Credit> {
    set call, credit | call in calls && credit in EVERY_CREDIT && Touches(s, call, t) && Earns(call, credit) :: credit
  }

  const EVERY_CREDIT: set<Credit> := {
    CreditSkipped, CreditFailed, CreditCleanup, CreditPreview, CreditRefused, CreditErrorPath, CreditSweep,
    CreditUnobserved, CreditAsserted}

  /** The state of a cell with these credits, best first; absent without any. */
  function StateWith(earned: set<Credit>): State {
    if CreditAsserted in earned then Asserted
    else if CreditUnobserved in earned then Unobserved
    else if CreditSweep in earned then SweepOnly
    else if CreditErrorPath in earned then ErrorPathOnly
    else if CreditRefused in earned then RefusedOnly
    else if CreditPreview in earned then PreviewOnly
    else if CreditCleanup in earned then CleanupOnly
    else if CreditFailed in earned then Failed
    else if CreditSkipped in earned then Skipped
    else Absent
  }

  lemma CountedIsEarned(s: Setting, calls: seq<Call>, t: Target, c: Cell, credit: Credit)
    requires Gathers(s, calls, t, c)
    ensures credit in c.counts <==> credit in EarnedBy(s, calls, t)
  {
    hide Touches;
    EarningIsEarned(s, calls, t, credit);
    if credit != NoCredit {
      LinesPositive(s, calls, t, credit);
      assert CountOf(c, credit) == LinesFor(s, calls, t, credit);
    }
  }

  lemma EarningIsEarned(s: Setting, calls: seq<Call>, t: Target, credit: Credit)
    ensures credit in EarnedBy(s, calls, t)
       <==> credit != NoCredit && exists call | call in calls :: Touches(s, call, t) && Earns(call, credit)
  {
    hide Touches, Earns;
  }

  lemma {:induction false} LinesPositive(s: Setting, calls: seq<Call>, t: Target, credit: Credit)
    ensures LinesFor(s, calls, t, credit) > 0 <==> exists call | call in calls :: Touches(s, call, t) && Earns(call, credit)
  {
    hide Touches, Earns;
    if calls == [] {
    } else {
      var front, last := calls[..|calls| - 1], calls[|calls| - 1];
      LinesPositive(s, front, t, credit);
      assert calls == front + [last] && last in calls;
    }
  }

  /** A cell is in the state its credits give it, best first. */
  lemma BestGivesState(s: Setting, calls: seq<Call>, t: Target, c: Cell)
    requires Gathers(s, calls, t, c)
    ensures c.best == NoCredit <==> EarnedBy(s, calls, t) == {}
    ensures StateWith(EarnedBy(s, calls, t)) == if c.best == NoCredit then Absent else CreditState(c.best)
  {
    var earned := EarnedBy(s, calls, t);
    forall credit ensures credit in c.counts <==> credit in earned {
      CountedIsEarned(s, calls, t, c, credit);
    }
    hide EarnedBy, TestsFor, LinesFor;
    if c.best == NoCredit {
      assert earned == {};
    } else {
      assert c.best in earned;
      forall e | e in earned ensures Rank(e) <= Rank(c.best) {
        assert e in c.counts;
      }
      TopRankDecides(earned, c.best);
    }
  }

  lemma TopRankDecides(earned: set<Credit>, best: Credit)
    requires best in earned && best != NoCredit && forall e | e in earned :: Rank(e) <= Rank(best)
    ensures StateWith(earned) == CreditState(best)
  {}

  // ---------------------------------------------------------------- the action cells

  /** What keeps an action from running on a shape that was served. */
  ghost predicate Withheld(s: Setting, key: ActionKey)
    requires key.action in s.catalog.actions && key.shape in s.served.shapes
  {
    var action, surface, tools := s.catalog.actions[key.action], key.shape.surface, s.served.shapes[key.shape].tools;
    var meta := ShapeKey("meta", key.shape.mode);
    || (key.shape.mode == "read-only" && !action.readOnly)
    || (surface == "dynamic" && "gitlab_execute_action" !in tools)
    || (surface == "meta" && (action.metaTool == "" || action.metaTool !in tools))
    || (surface == "individual" && (action.individualTool == "" || action.individualTool !in tools))
    || (surface != "dynamic" && surface != "meta" && surface != "individual")
    || (surface == "dynamic" && meta in s.served.shapes && action.metaTool != ""
        && action.metaTool !in s.served.shapes[meta].tools)
  }

  lemma WithheldIsUnservable(s: Setting, key: ActionKey)
    requires key.action in s.catalog.actions && key.shape in s.served.shapes
    ensures Withheld(s, key) <==> CannotServeAt(s, key)
  {}

  ghost predicate OnGrid(s: Setting, key: ActionKey) {
    key.shape in s.served.shapes && key.action in s.catalog.ids
  }

  /**
    An action has a cell on a shape when the shape was served and the catalog lists it, or when a line acts on it there.
    Its tests are those of the lines, and its state the one the lines earn it; where they earn nothing it is unservable
    where the shape withholds it, and absent otherwise.
  */
  lemma ActionCellIs(s: Setting, calls: seq<Call>, key: ActionKey)
    ensures var cells := FillAll(s, FoldCalls(s, calls)).cells; var t := OfAction(key);
            && (key in cells <==> OnGrid(s, key) || exists call | call in calls :: ActsOn(s, call, key))
            && (key in cells ==>
                  && Gathers(s, calls, t, cells[key])
                  && cells[key].state == Some(
                       if EarnedBy(s, calls, t) == {} && OnGrid(s, key) && key.action in s.catalog.actions && Withheld(s, key)
                       then Unservable else StateWith(EarnedBy(s, calls, t))))
  {
    var r, t := FoldCalls(s, calls), OfAction(key);
    LinesGathered(s, calls, t);
    BestGivesState(s, calls, t, CellOf(r, t));
    if key.action in s.catalog.actions && key.shape in s.served.shapes {
      WithheldIsUnservable(s, key);
    }
    GridIs(s, key);
    FilledAction(s, r, key);
    hide FoldCalls, FillAll, ActsOn, EarnedBy, TestsFor, LinesFor, Withheld, CannotServe, Earns, StateWith, Grid;
    if key in FillAll(s, r).cells {
      SameGathered(s, calls, t, CellOf(r, t), FillAll(s, r).cells[key]);
    }
  }

  lemma GridIs(s: Setting, key: ActionKey)
    ensures key in Grid(s) <==> OnGrid(s, key)
  {
    if OnGrid(s, key) {
      assert key == ActionKey(key.shape, key.action);
    }
  }

  lemma FilledAction(s: Setting, r: Record, key: ActionKey)
    ensures var cells := FillAll(s, r).cells; var c := At(r.cells, key, NEW_CELL);
            && (key in cells <==> key in r.cells || key in Grid(s))
            && (key in cells ==> cells[key] == c.(state := Some(Settle(c, key in Grid(s) && CannotServeAt(s, key)))))
  {
    hide Grid, CannotServeAt, Settle, WithFlows, WithModes, FillItems, Listed;
  }

  lemma SameGathered(s: Setting, calls: seq<Call>, t: Target, c: Cell, d: Cell)
    requires Gathers(s, calls, t, c) && d.best == c.best && d.tests == c.tests && d.counts == c.counts
    ensures Gathers(s, calls, t, d)
  {
    hide TestsFor, LinesFor;
    forall credit | credit != NoCredit
      ensures TestsOf(d, credit) == TestsFor(s, calls, t, credit) && CountOf(d, credit) == LinesFor(s, calls, t, credit)
    {
      assert TestsOf(c, credit) == TestsFor(s, calls, t, credit) && CountOf(c, credit) == LinesFor(s, calls, t, credit);
    }
  }

  // ---------------------------------------------------------------- the capability items

  /** What the sessions of a capability surface served, at the grain of its kind. */
  ghost predicate Serves(s: Setting, key: CapabilityKey) {
    && key.capabilities in s.served.surfaces
    && (key.kind.ToolManifest? || (key.shape.surface == "" && key.shape.mode == ""))
    && var surface := s.served.surfaces[key.capabilities];
       match key.kind
       case Resources =>
         (key.item in surface.resources || key.item in surface.templates) && key.item !in s.server.manifest
       case Prompts => key.item in surface.prompts
       case Completions => key.item in surface.completions
       case Subscriptions =>
         && key.capabilities == "full"
         && if surface.kinds != [] then key.item in surface.kinds
            else exists t | t in s.server.subscriptionTemplates :: s.server.classify(SampleFrom(t)) == Some(key.item)
       case ToolManifest => key.shape in surface.shapes && key.item in surface.shapes[key.shape]
       case _ => false
  }

  lemma {:induction false} WithoutHas(manifest: seq<string>, items: seq<string>, x: string)
    ensures x in Without(manifest, items) <==> x in items && x !in manifest
  {
    if items == [] {
    } else {
      WithoutHas(manifest, items[1..], x);
      assert items == [items[0]] + items[1..];
    }
  }

  lemma {:induction false} KindsSampled(server: Server, templates: seq<string>, kind: string)
    ensures kind in TemplateKinds(server, templates)
       <==> exists t | t in templates :: server.classify(SampleFrom(t)) == Some(kind)
  {
    hide SampleFrom;
    if templates == [] {
    } else {
      KindsSampled(server, templates[1..], kind);
      SomeTemplate(server, templates, kind);
      var first := server.classify(SampleFrom(templates[0]));
      assert TemplateKinds(server, templates)
          == (if first.Some? then [first.value] else []) + TemplateKinds(server, templates[1..]);
    }
  }

  lemma SomeTemplate(server: Server, templates: seq<string>, kind: string)
    requires templates != []
    ensures (exists t | t in templates :: server.classify(SampleFrom(t)) == Some(kind))
       <==> || server.classify(SampleFrom(templates[0])) == Some(kind)
            || exists t | t in templates[1..] :: server.classify(SampleFrom(t)) == Some(kind)
  {
    hide SampleFrom;
    forall t ensures t in templates <==> t == templates[0] || t in templates[1..] {
      assert templates == [templates[0]] + templates[1..];
    }
  }

  lemma SubscribableHas(server: Server, listed: seq<string>, kind: string)
    ensures kind in SubscribableKinds(server, listed) <==>
      if listed != [] then kind in listed
      else exists t | t in server.subscriptionTemplates :: server.classify(SampleFrom(t)) == Some(kind)
  {
    var kinds := TemplateKinds(server, server.subscriptionTemplates);
    KindsSampled(server, server.subscriptionTemplates, kind);
    StringOrder.SortSorts(kinds);
    assert kind in multiset(StringOrder.Sort(kinds)) <==> kind in multiset(kinds);
    hide SampleFrom, TemplateKinds, StringOrder.Sort;
  }

  lemma ServedItems(s: Setting, capabilities: string, kind: Kind, item: string)
    requires capabilities in s.served.surfaces && kind in GRAIN_KINDS
    ensures item in Items(s.server, capabilities, s.served.surfaces[capabilities], kind)
       <==> Serves(s, CapabilityKey(kind, NO_SHAPE, capabilities, item))
  {
    var surface := s.served.surfaces[capabilities];
    WithoutHas(s.server.manifest, surface.resources, item);
    WithoutHas(s.server.manifest, surface.templates, item);
    SubscribableHas(s.server, surface.kinds, item);
    hide Without, SubscribableKinds, SampleFrom;
  }

  lemma ListedIsServed(s: Setting, key: CapabilityKey)
    ensures key in Listed(s) <==> Serves(s, key)
  {
    if key.capabilities in s.served.surfaces && key.kind in GRAIN_KINDS {
      ServedItems(s, key.capabilities, key.kind, key.item);
    }
    hide Items;
    if key.kind in GRAIN_KINDS {
      assert KeyFor(key.kind, NO_SHAPE, key.capabilities, key.item) == CapabilityKey(key.kind, NO_SHAPE, key.capabilities, key.item);
      if Serves(s, key) {
        assert key == KeyFor(key.kind, NO_SHAPE, key.capabilities, key.item);
      }
    } else if key.kind.ToolManifest? {
      if Serves(s, key) {
        assert key == KeyFor(ToolManifest, key.shape, key.capabilities, key.item);
      }
    }
  }

  lemma FilledItem(s: Setting, r: Record, key: CapabilityKey)
    requires !key.kind.Elicitation? && !key.kind.Modes?
    ensures var items := FillAll(s, r).items; var c := At(r.capabilities, key, NEW_CELL);
            && (key in items <==> key in r.capabilities || key in Listed(s))
            && (key in items ==> items[key] == c.(state := Some(Settle(c, false)), unlisted := c.unlisted && key !in Listed(s)))
  {
    hide Listed, Settle, FillActions, FlowAt, FacetAt, Interactive, FacetsOf;
  }

  /**
    A capability item has a cell when a session of its capability surface served it, or when a line addresses it; it is
    unlisted when none did. Its tests are those of the lines, and its state the one they earn it, absent without any.
  */
  lemma ItemCellIs(s: Setting, calls: seq<Call>, key: CapabilityKey)
    requires !key.kind.Elicitation? && !key.kind.Modes?
    ensures var items := FillAll(s, FoldCalls(s, calls)).items; var t := OfItem(key);
            && (key in items <==> Serves(s, key) || exists call | call in calls :: Addresses(s, call, key))
            && (key in items ==>
                  && Gathers(s, calls, t, items[key])
                  && items[key].state == Some(StateWith(EarnedBy(s, calls, t)))
                  && (items[key].unlisted <==> !Serves(s, key)))
  {
    var r, t := FoldCalls(s, calls), OfItem(key);
    LinesGathered(s, calls, t);
    BestGivesState(s, calls, t, CellOf(r, t));
    FoldedUnsettled(s, calls);
    ListedIsServed(s, key);
    FilledItem(s, r, key);
    hide FoldCalls, FillAll, Addresses, EarnedBy, TestsFor, LinesFor, Serves, Earns, StateWith, Listed;
    if key in FillAll(s, r).items {
      SameGathered(s, calls, t, CellOf(r, t), FillAll(s, r).items[key]);
    }
  }

  // ---------------------------------------------------------------- the protective modes

  /** A line that shows a facet of a mode: a read going through, or a mutation withheld or previewed. */
  ghost predicate ShowsFacet(s: Setting, call: Call, shape: ShapeKey, facet: string) {
    var key := ActionKey(shape, NamedAction(call));
    && ActsOn(s, call, key)
    && var quiet := s.catalog.actions[key.action].readOnly;
       || (facet == "reads" && quiet
           && (Earns(call, CreditAsserted) || Earns(call, CreditUnobserved) || Earns(call, CreditSweep)))
       || (facet == "withheld" && !quiet && (Earns(call, CreditRefused) || Earns(call, CreditErrorPath)))
       || (facet == "previews" && !quiet && Earns(call, CreditPreview))
  }

  /** A line of a failing test on the shape. */
  ghost predicate FailsOn(s: Setting, call: Call, shape: ShapeKey) {
    ActsOn(s, call, ActionKey(shape, NamedAction(call))) && Earns(call, CreditFailed)
  }

  ghost function TestsShowing(s: Setting, calls: seq<Call>, shape: ShapeKey, facet: string): set<string> {
    set call | call in calls && ShowsFacet(s, call, shape, facet) :: call.test
  }

  ghost function TestsFailing(s: Setting, calls: seq<Call>, shape: ShapeKey): set<string> {
    set call | call in calls && FailsOn(s, call, shape) :: call.test
  }

  ghost predicate EvidenceIs(s: Setting, calls: seq<Call>, shape: ShapeKey, e: Evidence) {
    && e.readThrough == TestsShowing(s, calls, shape, "reads") && e.withheld == TestsShowing(s, calls, shape, "withheld")
    && e.previews == TestsShowing(s, calls, shape, "previews") && e.failed == TestsFailing(s, calls, shape)
  }

  /** What an acting line shows of a mode, by what it earns. */
  lemma NoteShows(s: Setting, call: Call, shape: ShapeKey, e: Evidence)
    requires ActsOn(s, call, ActionKey(shape, NamedAction(call)))
    ensures var action := s.catalog.actions[NamedAction(call)];
            var after := WithNote(e, NoteOf(action, CreditOfOutcome(call)), call.test);
            && after.readThrough == e.readThrough + (if ShowsFacet(s, call, shape, "reads") then {call.test} else {})
            && after.withheld == e.withheld + (if ShowsFacet(s, call, shape, "withheld") then {call.test} else {})
            && after.previews == e.previews + (if ShowsFacet(s, call, shape, "previews") then {call.test} else {})
            && after.failed == e.failed + (if FailsOn(s, call, shape) then {call.test} else {})
  {
    EarnsItsCredit(call, CreditFailed);
    EarnsItsCredit(call, CreditPreview);
    EarnsItsCredit(call, CreditRefused);
    EarnsItsCredit(call, CreditErrorPath);
    EarnsItsCredit(call, CreditAsserted);
    EarnsItsCredit(call, CreditUnobserved);
    EarnsItsCredit(call, CreditSweep);
    hide CreditOfOutcome, Earns, ActsOn;
  }

  /** What one line adds to the evidence on a shape. */
  lemma LineNotes(s: Setting, r: Record, call: Call, shape: ShapeKey)
    requires shape.mode != "default"
    ensures var before, after := EvidenceAt(r.modes, shape), EvidenceAt(Step(s, r, call).modes, shape);
            && after.readThrough == before.readThrough + (if ShowsFacet(s, call, shape, "reads") then {call.test} else {})
            && after.withheld == before.withheld + (if ShowsFacet(s, call, shape, "withheld") then {call.test} else {})
            && after.previews == before.previews + (if ShowsFacet(s, call, shape, "previews") then {call.test} else {})
            && after.failed == before.failed + (if FailsOn(s, call, shape) then {call.test} else {})
  {
    var key := ActionKey(shape, NamedAction(call));
    if ActsOn(s, call, key) {
      ActsAsItsEffect(s, call, key);
      NoteShows(s, call, shape, EvidenceAt(r.modes, shape));
      NotedThere(r.modes, shape, NoteOf(s.catalog.actions[key.action], CreditOfOutcome(call)), call.test);
    } else {
      NotedElsewhere(s, r, call, shape);
    }
    hide EffectOf, CreditOfOutcome, Earns, Credited, ActsOn, NoteOf, WithNote, EvidenceAt, Noted;
  }

  lemma NotedThere(modes: map<ShapeKey, Evidence>, shape: ShapeKey, note: Note, test: string)
    requires shape.mode != "default"
    ensures EvidenceAt(Noted(modes, shape, note, test), shape) == WithNote(EvidenceAt(modes, shape), note, test)
  {}

  lemma NotedElsewhere(s: Setting, r: Record, call: Call, shape: ShapeKey)
    requires !ActsOn(s, call, ActionKey(shape, NamedAction(call)))
    ensures EvidenceAt(Step(s, r, call).modes, shape) == EvidenceAt(r.modes, shape)
  {
    if !call.fineGrained {
      ActsAsItsEffect(s, call, ActionKey(shape, NamedAction(call)));
      OnlyItsShape(s, call, shape);
    }
    hide EffectOf, ActsOn, Credited, WithNote;
  }

  lemma OnlyItsShape(s: Setting, call: Call, shape: ShapeKey)
    requires !call.fineGrained
    ensures EffectOf(s, call).Acted? && EffectOf(s, call).key.shape == shape ==>
              EffectOf(s, call).key == ActionKey(shape, NamedAction(call))
  {
    hide CreditOfOutcome, NoteOf, ResourceTarget, SubscriptionKind, KeyFor;
  }

  lemma {:induction false} EvidenceFromLines(s: Setting, calls: seq<Call>, shape: ShapeKey)
    requires shape.mode != "default"
    ensures EvidenceIs(s, calls, shape, EvidenceAt(FoldCalls(s, calls).modes, shape))
  {
    hide ShowsFacet, FailsOn, Step;
    if calls == [] {
    } else {
      var front, last := calls[..|calls| - 1], calls[|calls| - 1];
      EvidenceFromLines(s, front, shape);
      assert calls == front + [last];
      FoldCallsAppend(s, front, last);
      hide FoldCalls, EvidenceAt;
      LineNotes(s, FoldCalls(s, front), last, shape);
      OneMoreShowing(s, front, last, shape, "reads");
      OneMoreShowing(s, front, last, shape, "withheld");
      OneMoreShowing(s, front, last, shape, "previews");
    }
  }

  lemma OneMoreShowing(s: Setting, front: seq<Call>, last: Call, shape: ShapeKey, facet: string)
    ensures TestsShowing(s, front + [last], shape, facet)
         == TestsShowing(s, front, shape, facet) + if ShowsFacet(s, last, shape, facet) then {last.test} else {}
    ensures TestsFailing(s, front + [last], shape)
         == TestsFailing(s, front, shape) + if FailsOn(s, last, shape) then {last.test} else {}
  {
    hide ShowsFacet, FailsOn;
    assert forall call :: call in front + [last] <==> call in front || call == last;
  }

  /** A protective mode is held to reads going through, and to mutations withheld when read-only or previewed when safe. */
  predicate HeldTo(s: Setting, key: CapabilityKey) {
    && key.capabilities == "" && key.shape in s.served.shapes && key.shape.mode != "default"
    && (|| key.item == "reads"
        || (key.item == "withheld" && key.shape.mode == "read-only")
        || (key.item == "previews" && key.shape.mode == "safe"))
  }

  lemma HeldToIsFacet(s: Setting, key: CapabilityKey)
    requires key.kind.Modes?
    ensures key in FacetKeys(s.served.shapes) <==> HeldTo(s, key)
  {
    if HeldTo(s, key) {
      assert key.item in FacetsOf(key.shape);
      assert key == FacetKey(key.shape, key.item);
    }
  }

  lemma ModesLast(shapes: map<ShapeKey, SessionShape>, modes: map<ShapeKey, Evidence>, items: map<CapabilityKey, Cell>,
                  key: CapabilityKey)
    ensures var all := WithModes(shapes, modes, items);
            && (key in all <==> key in items || key in FacetKeys(shapes))
            && (key in FacetKeys(shapes) ==> key.kind.Modes? && all[key] == FacetAt(modes, key))
            && (key in items && key !in FacetKeys(shapes) ==> all[key] == items[key])
  {
    hide FacetAt, FacetsOf;
  }

  lemma FlowsBefore(catalog: Catalog, cells: map<ActionKey, Cell>, elicited: set<string>, items: map<CapabilityKey, Cell>,
                    key: CapabilityKey)
    ensures var all := WithFlows(catalog, cells, elicited, items);
            && (key in all <==> key in items || key in FlowKeys(catalog, cells))
            && (key in FlowKeys(catalog, cells) ==>
                  && key.kind.Elicitation? && ActionKey(key.shape, key.item) in cells
                  && all[key] == FlowAt(cells, elicited, items, key))
  {
    hide FlowAt, Interactive;
  }

  lemma NoFacetOrFlow(s: Setting, r: Record, key: CapabilityKey)
    requires OnlyFolded(r) && (key.kind.Modes? || key.kind.Elicitation?)
    ensures key !in FillItems(Listed(s), r.capabilities)
  {
    hide Items, Settle;
  }

  lemma FilledIs(s: Setting, r: Record)
    ensures var c := FillAll(s, r); var items := FillItems(Listed(s), r.capabilities);
            && c.cells == FillActions(s, r.cells)
            && c.items == WithModes(s.served.shapes, r.modes, WithFlows(s.catalog, c.cells, r.elicited, items))
  {
    hide FillActions, FillItems, WithFlows, WithModes, Listed;
  }

  lemma FilledFacet(s: Setting, r: Record, key: CapabilityKey)
    requires key.kind.Modes? && OnlyFolded(r)
    ensures var items := FillAll(s, r).items;
            && (key in items <==> key in FacetKeys(s.served.shapes))
            && (key in items ==> items[key] == FacetAt(r.modes, key))
  {
    hide *;
    var items := FillItems(Listed(s), r.capabilities);
    FilledIs(s, r);
    NoFacetOrFlow(s, r, key);
    FlowsBefore(s.catalog, FillActions(s, r.cells), r.elicited, items, key);
    ModesLast(s.served.shapes, r.modes, WithFlows(s.catalog, FillActions(s, r.cells), r.elicited, items), key);
  }

  /** A facet has a cell on every shape held to it: asserted by the tests that show it, else failed by the failing ones. */
  lemma FacetCellIs(s: Setting, calls: seq<Call>, key: CapabilityKey)
    requires key.kind.Modes?
    ensures var items := FillAll(s, FoldCalls(s, calls)).items;
            var shown, failed := TestsShowing(s, calls, key.shape, key.item), TestsFailing(s, calls, key.shape);
            && (key in items <==> HeldTo(s, key))
            && (key in items ==>
                  && items[key].state == Some(if shown != {} then Asserted else if failed != {} then Failed else Absent)
                  && TestsOf(items[key], CreditAsserted) == shown
                  && TestsOf(items[key], CreditFailed) == (if shown == {} then failed else {}))
  {
    var r := FoldCalls(s, calls);
    FoldedUnsettled(s, calls);
    HeldToIsFacet(s, key);
    FilledFacet(s, r, key);
    if HeldTo(s, key) {
      EvidenceFromLines(s, calls, key.shape);
      ShownIs(s, calls, key, r.modes);
    }
    hide *;
  }

  lemma ShownIs(s: Setting, calls: seq<Call>, key: CapabilityKey, modes: map<ShapeKey, Evidence>)
    requires HeldTo(s, key) && EvidenceIs(s, calls, key.shape, EvidenceAt(modes, key.shape))
    ensures var shown, failed := TestsShowing(s, calls, key.shape, key.item), TestsFailing(s, calls, key.shape);
            var c := FacetAt(modes, key);
            && c.state == Some(if shown != {} then Asserted else if failed != {} then Failed else Absent)
            && TestsOf(c, CreditAsserted) == shown && TestsOf(c, CreditFailed) == (if shown == {} then failed else {})
  {
    hide TestsShowing, TestsFailing, EvidenceAt;
  }

  // ---------------------------------------------------------------- the elicitation flows

  /** The tests a passing line shows to have been asked something. */
  ghost function TestsElicited(calls: seq<Call>): set<string> {
    set call | call in calls && !call.fineGrained && call.method_ == "elicitation/create" && call.testStatus == "passed" :: call.test
  }

  /** The subscriptions a passing line shows an update was delivered to. */
  ghost predicate DeliveredBy(s: Setting, call: Call, key: CapabilityKey) {
    && !call.fineGrained && call.method_ == "notifications/resources/updated" && call.testStatus == "passed"
    && key.kind.Subscriptions? && key.shape.surface == "" && key.shape.mode == ""
    && key.capabilities == (if call.capabilities == "minimal" then "minimal" else "full")
    && SubscribesTo(s, call.target, key.item)
  }

  lemma LineElicits(s: Setting, r: Record, call: Call)
    ensures Step(s, r, call).elicited == r.elicited + TestsElicited([call])
    ensures forall key :: key in Step(s, r, call).delivered <==> key in r.delivered || DeliveredBy(s, call, key)
  {
    hide CreditOfOutcome, NoteOf, ResourceTarget, CreditOf, Credited, Noted;
  }

  lemma {:induction false} ElicitedFromLines(s: Setting, calls: seq<Call>)
    ensures FoldCalls(s, calls).elicited == TestsElicited(calls)
    ensures forall key :: key in FoldCalls(s, calls).delivered <==> exists call | call in calls :: DeliveredBy(s, call, key)
  {
    if calls == [] {
    } else {
      hide Step, DeliveredBy;
      var front, last := calls[..|calls| - 1], calls[|calls| - 1];
      ElicitedFromLines(s, front);
      assert calls == front + [last];
      FoldCallsAppend(s, front, last);
      LineElicits(s, FoldCalls(s, front), last);
      hide FoldCalls;
      assert forall call :: call in calls <==> call in front || call == last;
      assert TestsElicited(calls) == TestsElicited(front) + TestsElicited([last]);
    }
  }

  lemma FlowKeyIs(catalog: Catalog, cells: map<ActionKey, Cell>, key: CapabilityKey)
    requires key.kind.Elicitation?
    ensures var at := ActionKey(key.shape, key.item);
            key in FlowKeys(catalog, cells) <==>
              && key.capabilities == "" && at in cells
              && key.item in catalog.actions && catalog.actions[key.item].domain == "interactive"
  {
    var at := ActionKey(key.shape, key.item);
    if key.capabilities == "" {
      assert FlowKey(at) == key;
    }
  }

  lemma FlowAtIs(cells: map<ActionKey, Cell>, elicited: set<string>, items: map<CapabilityKey, Cell>, key: CapabilityKey)
    requires ActionKey(key.shape, key.item) in cells && key !in items
    ensures FlowAt(cells, elicited, items, key) == FlowOf(cells[ActionKey(key.shape, key.item)], elicited, false)
  {
    hide FlowOf;
  }

  lemma FilledFlow(s: Setting, r: Record, key: CapabilityKey)
    requires key.kind.Elicitation? && OnlyFolded(r)
    ensures var c := FillAll(s, r); var at := ActionKey(key.shape, key.item);
            && (key in c.items <==> key in FlowKeys(s.catalog, c.cells))
            && (key in c.items ==> at in c.cells && c.items[key] == FlowOf(c.cells[at], r.elicited, false))
  {
    hide *;
    var cells, items := FillActions(s, r.cells), FillItems(Listed(s), r.capabilities);
    FilledIs(s, r);
    NoFacetOrFlow(s, r, key);
    FlowsBefore(s.catalog, cells, r.elicited, items, key);
    ModesLast(s.served.shapes, r.modes, WithFlows(s.catalog, cells, r.elicited, items), key);
    if key in FlowKeys(s.catalog, cells) {
      FlowAtIs(cells, r.elicited, items, key);
    }
  }

  lemma FlowIs(found: Cell, elicited: set<string>)
    ensures var flow := FlowOf(found, elicited, false);
            && flow.best == found.best && flow.tests == found.tests && flow.counts == found.counts
            && flow.state ==
               if found.state == Some(Asserted) && !exists test | test in TestsOf(found, CreditAsserted) :: test in elicited
               then Some(ErrorPathOnly) else found.state
  {}

  /**
    Every cell of an interactive action has a flow beside it, which says what the action's cell says; but an action
    asserted by no test that was asked anything ran into the error path of its flow.
  */
  lemma FlowCellIs(s: Setting, calls: seq<Call>, key: CapabilityKey)
    requires key.kind.Elicitation?
    ensures var c := FillAll(s, FoldCalls(s, calls)); var at := ActionKey(key.shape, key.item);
            && (key in c.items <==>
                  && key.capabilities == "" && at in c.cells
                  && key.item in s.catalog.actions && s.catalog.actions[key.item].domain == "interactive")
            && (key in c.items ==>
                  && Gathers(s, calls, OfAction(at), c.items[key])
                  && c.items[key].state ==
                     if c.cells[at].state == Some(Asserted)
                        && !exists test | test in TestsFor(s, calls, OfAction(at), CreditAsserted) :: test in TestsElicited(calls)
                     then Some(ErrorPathOnly) else c.cells[at].state)
  {
    hide *;
    var r, at := FoldCalls(s, calls), ActionKey(key.shape, key.item);
    FoldedUnsettled(s, calls);
    FilledFlow(s, r, key);
    FlowKeyIs(s.catalog, FillAll(s, r).cells, key);
    ElicitedFromLines(s, calls);
    ActionCellIs(s, calls, at);
    if key in FillAll(s, r).items {
      var found := FillAll(s, r).cells[at];
      FlowIs(found, r.elicited);
      SameGathered(s, calls, OfAction(at), found, FillAll(s, r).items[key]);
      TestsGathered(s, calls, OfAction(at), found, CreditAsserted);
    }
  }

  lemma TestsGathered(s: Setting, calls: seq<Call>, t: Target, c: Cell, credit: Credit)
    requires Gathers(s, calls, t, c) && credit != NoCredit
    ensures TestsOf(c, credit) == TestsFor(s, calls, t, credit)
  {}

  // ---------------------------------------------------------------- the static pass

  /** The top-level test a name is of: what stands before its first slash. */
  predicate TopLevelOf(name: string, top: string) {
    top <= name && '/' !in top && (|top| == |name| || name[|top|] == '/')
  }

  /** A test that skipped names the action in the source. */
  ghost predicate SkipNames(st: Static, skip: Skip, action: string) {
    exists top | top in st.testIDs && TopLevelOf(skip.test, top) :: action in st.testIDs[top]
  }

  lemma {:induction false} TopLevelIs(name: string, top: string)
    ensures TopLevelOf(name, top) <==> top == TopLevelTest(name)
  {
    if name == "" || name[0] == '/' {
    } else {
      TopLevelIs(name[1..], if top == "" then "" else top[1..]);
      if TopLevelOf(name, top) {
        assert top != "" && top == [name[0]] + top[1..];
      }
    }
  }

  lemma SkipNamesIs(st: Static, skip: Skip, action: string)
    ensures SkipNames(st, skip, action) <==> action in NamedBy(st, skip)
  {
    forall top ensures TopLevelOf(skip.test, top) <==> top == TopLevelTest(skip.test) {
      TopLevelIs(skip.test, top);
    }
    hide TopLevelOf, TopLevelTest;
  }

  /** What the source makes of a state: an assertion nothing reads is none, and a test that skipped explains an absence. */
  ghost predicate SourceMakes(s: Setting, st: Static, skips: seq<Skip>, key: ActionKey, before: State, after: State) {
    if before == Asserted && key.action in st.unasserted then after == Unasserted
    else if before == Absent && key.shape in s.served.shapes && exists skip | skip in skips :: SkipNames(st, skip, key.action)
    then after == Skipped
    else after == before
  }

  /** The state of an action's cell after the static pass. */
  lemma {:induction false} StaticStateIs(s: Setting, st: Static, skips: seq<Skip>, cells: map<ActionKey, Cell>, key: ActionKey)
    requires key in cells && cells[key].state.Some?
    ensures var after := SkipAll(s, st, skips, Unassert(st, cells));
            && key in after && after[key].state.Some?
            && SourceMakes(s, st, skips, key, cells[key].state.value, after[key].state.value)
  {
    if skips == [] {
    } else {
      var front, last := skips[..|skips| - 1], skips[|skips| - 1];
      StaticStateIs(s, st, front, cells, key);
      SkipNamesIs(st, last, key.action);
      assert forall skip :: skip in skips <==> skip in front || skip == last;
      hide SkipNames, NamedBy, Add;
    }
  }

  /** The first skipped test of the list that names the action in the source. */
  ghost predicate FirstNaming(st: Static, skips: seq<Skip>, action: string, k: nat) {
    k < |skips| && SkipNames(st, skips[k], action) && forall j | 0 <= j < k :: !SkipNames(st, skips[j], action)
  }

  /** The evidence of the one cell is that of the other. */
  predicate SameEvidence(before: Cell, after: Cell) {
    after.best == before.best && after.tests == before.tests && after.counts == before.counts
  }

  /** One skip by the test is credited behind what a cell has, and nothing else is. */
  ghost predicate OneSkipMore(before: Cell, after: Cell, test: string) {
    && CountOf(after, CreditSkipped) == CountOf(before, CreditSkipped) + 1
    && TestsOf(after, CreditSkipped) == TestsOf(before, CreditSkipped) + {test}
    && forall credit | credit != CreditSkipped ::
         CountOf(after, credit) == CountOf(before, credit) && TestsOf(after, credit) == TestsOf(before, credit)
  }

  /** The cells an absence is explained of are those the shape of which was served and some skipped test names. */
  ghost predicate Explained(s: Setting, st: Static, skips: seq<Skip>, key: ActionKey, before: Cell) {
    && before.state == Some(Absent) && key.shape in s.served.shapes
    && exists skip | skip in skips :: SkipNames(st, skip, key.action)
  }

  /** A cell is credited the first skipped test that explains its absence, once; every other keeps its evidence. */
  ghost predicate Explains(s: Setting, st: Static, skips: seq<Skip>, key: ActionKey, before: Cell, after: Cell) {
    if Explained(s, st, skips, key, before) then
      exists k: nat :: FirstNaming(st, skips, key.action, k) && OneSkipMore(before, after, skips[k].test)
    else SameEvidence(before, after)
  }

  lemma AddsASkip(before: Cell, test: string)
    ensures OneSkipMore(before, Add(before.(state := Some(Skipped)), CreditSkipped, test), test)
  {
    hide Better;
  }

  lemma FirstOfMore(st: Static, front: seq<Skip>, last: Skip, action: string)
    ensures forall k: nat | FirstNaming(st, front, action, k) :: FirstNaming(st, front + [last], action, k)
    ensures SkipNames(st, last, action) && (forall skip | skip in front :: !SkipNames(st, skip, action))
      ==> FirstNaming(st, front + [last], action, |front|)
  {
    hide SkipNames;
    var all := front + [last];
    assert forall j | 0 <= j < |front| :: all[j] == front[j] && front[j] in front;
  }

  lemma SkipsUnfold(s: Setting, st: Static, skips: seq<Skip>, cells: map<ActionKey, Cell>, key: ActionKey)
    requires skips != []
    ensures var front, last := SkipAll(s, st, skips[..|skips| - 1], cells), skips[|skips| - 1];
            && (key in front <==> key in SkipAll(s, st, skips, cells))
            && (key in front ==>
                  SkipAll(s, st, skips, cells)[key]
                  == if key.shape in s.served.shapes && key.action in NamedBy(st, last) && front[key].state == Some(Absent)
                     then Add(front[key].(state := Some(Skipped)), CreditSkipped, last.test) else front[key])
  {
    hide NamedBy, Add;
  }

  /** What an action's cell is credited in the static pass: one skip, where a skipped test explains its absence. */
  lemma {:induction false} StaticCreditsAre(s: Setting, st: Static, skips: seq<Skip>, cells: map<ActionKey, Cell>, key: ActionKey)
    requires key in cells && cells[key].state.Some?
    ensures var after := SkipAll(s, st, skips, Unassert(st, cells));
            key in after && Explains(s, st, skips, key, cells[key], after[key])
  {
    if skips == [] {
      hide SkipNames;
    } else {
      var front, last := skips[..|skips| - 1], skips[|skips| - 1];
      assert skips == front + [last];
      var unasserted := Unassert(st, cells);
      StaticCreditsAre(s, st, front, cells, key);
      StaticStateIs(s, st, front, cells, key);
      SkipsUnfold(s, st, skips, unasserted, key);
      SkipNamesIs(st, last, key.action);
      var middle := SkipAll(s, st, front, unasserted)[key];
      AddsASkip(middle, last.test);
      OneSkipBehind(s, st, front, last, key, cells[key], middle, SkipAll(s, st, skips, unasserted)[key]);
    }
  }

  /** Once an absence is explained, a further skip finds none; until then the cell is as it was. */
  lemma OneSkipBehind(s: Setting, st: Static, front: seq<Skip>, last: Skip, key: ActionKey, before: Cell, middle: Cell, after: Cell)
    requires before.state.Some? && middle.state.Some? && Explains(s, st, front, key, before, middle)
    requires SourceMakes(s, st, front, key, before.state.value, middle.state.value)
    requires if key.shape in s.served.shapes && SkipNames(st, last, key.action) && middle.state == Some(Absent)
             then OneSkipMore(middle, after, last.test) else after == middle
    ensures Explains(s, st, front + [last], key, before, after)
  {
    FirstOfMore(st, front, last, key.action);
    hide SkipNames, CountOf, TestsOf;
    var all := front + [last];
    assert forall skip :: skip in all <==> skip in front || skip == last;
    if Explained(s, st, front, key, before) {
      var k: nat :| FirstNaming(st, front, key.action, k) && OneSkipMore(before, middle, front[k].test);
      assert all[k] == front[k];
    } else if Explained(s, st, all, key, before) {
      assert OneSkipMore(before, after, last.test) by {
        SameEvidenceSame(before, middle);
      }
      assert all[|front|] == last;
    }
  }

  lemma SameEvidenceSame(before: Cell, after: Cell)
    requires SameEvidence(before, after)
    ensures forall credit :: CountOf(before, credit) == CountOf(after, credit) && TestsOf(before, credit) == TestsOf(after, credit)
  {}

  lemma SettledCell(s: Setting, calls: seq<Call>, key: ActionKey)
    ensures var cells := FillAll(s, FoldCalls(s, calls)).cells;
            key in cells ==> cells[key].state.Some? && Gathers(s, calls, OfAction(key), cells[key])
  {
    hide *;
    ActionCellIs(s, calls, key);
  }

  lemma StaticParts(s: Setting, st: Static, skips: seq<Skip>, elicited: set<string>, c: Classes)
    ensures var after := ApplyStatic(s, st, skips, elicited, c);
            && after.cells == SkipAll(s, st, skips, Unassert(st, c.cells))
            && after.items == WithFlows(s.catalog, after.cells, elicited, c.items)
  {
    hide SkipAll, Unassert, WithFlows;
  }

  /** The flows follow the cells again once the static pass is over. */
  lemma StaticFlowIs(s: Setting, calls: seq<Call>, st: Static, skips: seq<Skip>, key: CapabilityKey)
    requires key.kind.Elicitation?
    ensures var r := FoldCalls(s, calls); var c := FillAll(s, r); var at := ActionKey(key.shape, key.item);
            var after := ApplyStatic(s, st, skips, r.elicited, c);
            && (key in after.items <==> key in c.items)
            && (key in after.items ==>
                  && at in after.cells && SameEvidence(after.cells[at], after.items[key])
                  && after.items[key].state ==
                     if after.cells[at].state == Some(Asserted)
                        && !exists test | test in TestsFor(s, calls, OfAction(at), CreditAsserted) :: test in TestsElicited(calls)
                     then Some(ErrorPathOnly) else after.cells[at].state)
  {
    hide *;
    var r, at := FoldCalls(s, calls), ActionKey(key.shape, key.item);
    var c := FillAll(s, r);
    StaticParts(s, st, skips, r.elicited, c);
    var cells := SkipAll(s, st, skips, Unassert(st, c.cells));
    FoldedUnsettled(s, calls);
    FilledFlow(s, r, key);
    FlowKeyIs(s.catalog, c.cells, key);
    FlowKeyIs(s.catalog, cells, key);
    SkippedKeys(s, st, skips, c.cells);
    FlowsBefore(s.catalog, cells, r.elicited, c.items, key);
    ElicitedFromLines(s, calls);
    if key in c.items {
      SettledCell(s, calls, at);
      StaticCreditsAre(s, st, skips, c.cells, at);
      AssertedTestsKept(s, st, skips, at, c.cells[at], cells[at]);
      TestsGathered(s, calls, OfAction(at), c.cells[at], CreditAsserted);
      FlowAgain(cells, r.elicited, c.items, key);
    }
  }

  lemma {:induction false} SkippedKeys(s: Setting, st: Static, skips: seq<Skip>, cells: map<ActionKey, Cell>)
    ensures forall key :: key in SkipAll(s, st, skips, Unassert(st, cells)) <==> key in cells
  {
    hide SkippedCell, UnassertedCell;
    if skips != [] {
      SkippedKeys(s, st, skips[..|skips| - 1], cells);
    }
  }

  lemma AssertedTestsKept(s: Setting, st: Static, skips: seq<Skip>, key: ActionKey, before: Cell, after: Cell)
    requires Explains(s, st, skips, key, before, after)
    ensures TestsOf(after, CreditAsserted) == TestsOf(before, CreditAsserted)
  {
    hide Explained, FirstNaming;
  }

  lemma FlowAgain(cells: map<ActionKey, Cell>, elicited: set<string>, items: map<CapabilityKey, Cell>, key: CapabilityKey)
    requires ActionKey(key.shape, key.item) in cells
    ensures var found, flow := cells[ActionKey(key.shape, key.item)], FlowAt(cells, elicited, items, key);
            && SameEvidence(found, flow)
            && flow.state ==
               if found.state == Some(Asserted) && !exists test | test in TestsOf(found, CreditAsserted) :: test in elicited
               then Some(ErrorPathOnly) else found.state
  {}
}
