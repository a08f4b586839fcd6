/**
  From evidence to states: every catalog action gets a cell on every shape, every served item one at its grain, and
  what only the source can say is put in last.

  `EverySettled` says no cell is left without a state, before and after the static pass, and `ClassifyIgnoresOrder` and
  `ClassifyIgnoresFineGrained` that the whole classification depends on neither the order of the call lines nor the
  fine-grained ones.
*/
module CellFill {
  import opened CallFold
  import opened CallRecords
  import opened Cells
  import opened Outcomes
  import opened Sessions

  const EXECUTE_ACTION_TOOL := "gitlab_execute_action"
  const INTERACTIVE_DOMAIN := "interactive"
  const FACET_READS := "reads"
  const FACET_WITHHELD := "withheld"
  const FACET_PREVIEWS := "previews"

  // ---------------------------------------------------------------- what a shape cannot serve

  /** toolOn */
  function ToolOn(a: Action, surface: string): Option<string> {
    if surface == SURFACE_DYNAMIC then Some(EXECUTE_ACTION_TOOL)
    else if surface == SURFACE_META then (if a.metaTool != "" then Some(a.metaTool) else None)
    else if surface == SURFACE_INDIVIDUAL then (if a.individualTool != "" then Some(a.individualTool) else None)
    else None
  }

  /** catalogAction.unservableReason, as whether there is one. */
  predicate WithheldOn(a: Action, shape: ShapeKey, tools: set<string>) {
    || (shape.mode == MODE_READ_ONLY && !a.readOnly)
    || ToolOn(a, shape.surface).None?
    || ToolOn(a, shape.surface).value !in tools
  }

  /** classification.unservableReason, as whether there is one: the meta sessions of a mode speak for the dynamic ones. */
  predicate CannotServe(shapes: map<ShapeKey, SessionShape>, shape: ShapeKey, a: Action)
    requires shape in shapes
  {
    var meta := ShapeKey(SURFACE_META, shape.mode);
    || WithheldOn(a, shape, shapes[shape].tools)
    || (shape.surface == SURFACE_DYNAMIC && meta in shapes && a.metaTool != "" && a.metaTool !in shapes[meta].tools)
  }

  /** settle */
  function Settle(c: Cell, unservable: bool): State {
    if c.best != NoCredit then CreditState(c.best) else if unservable then Unservable else Absent
  }

  ghost predicate GoodCatalog(catalog: Catalog) {
    && (forall i, j | 0 <= i < j < |catalog.ids| :: catalog.ids[i] != catalog.ids[j])
    && forall id :: id in catalog.ids <==> id in catalog.actions
  }

  // ---------------------------------------------------------------- the action cells

  function Grid(s: Setting): set<ActionKey> {
    set shape, id | shape in s.served.shapes && id in s.catalog.ids :: ActionKey(shape, id)
  }

  predicate CannotServeAt(s: Setting, key: ActionKey) {
    && key.shape in s.served.shapes && key.action in s.catalog.actions
    && CannotServe(s.served.shapes, key.shape, s.catalog.actions[key.action])
  }

  function SettledAction(s: Setting, cells: map<ActionKey, Cell>, key: ActionKey): Cell {
    var c := At(cells, key, NEW_CELL);
    c.(state := Some(Settle(c, key in Grid(s) && CannotServeAt(s, key))))
  }

  /** fillActionCells */
  function FillActions(s: Setting, cells: map<ActionKey, Cell>): map<ActionKey, Cell> {
    map key | key in cells.Keys + Grid(s) :: SettledAction(s, cells, key)
  }

  // ---------------------------------------------------------------- the capability cells

  const GRAIN_KINDS: set<Kind> := {Resources, Prompts, Completions, Subscriptions}

  /** Every item a capability surface served, at its kind's grain, and every manifest item a shape listed. */
  function ListedItems(s: Setting): set<CapabilityKey> {
    set capabilities, kind, item |
      capabilities in s.served.surfaces && kind in GRAIN_KINDS
      && item in Items(s.server, capabilities, s.served.surfaces[capabilities], kind)
      :: KeyFor(kind, NO_SHAPE, capabilities, item)
  }

  function ListedManifest(s: Setting): set<CapabilityKey> {
    set capabilities, shape, item |
      capabilities in s.served.surfaces && shape in s.served.surfaces[capabilities].shapes
      && item in s.served.surfaces[capabilities].shapes[shape]
      :: KeyFor(ToolManifest, shape, capabilities, item)
  }

  function Listed(s: Setting): set<CapabilityKey> {
    ListedItems(s) + ListedManifest(s)
  }

  function SettledItem(listed: set<CapabilityKey>, cells: map<CapabilityKey, Cell>, key: CapabilityKey): Cell {
    var c := At(cells, key, NEW_CELL);
    c.(state := Some(Settle(c, false)), unlisted := c.unlisted && key !in listed)
  }

  /** fillCapabilityCells, the elicitation flows aside. */
  function FillItems(listed: set<CapabilityKey>, cells: map<CapabilityKey, Cell>): map<CapabilityKey, Cell> {
    map key | key in cells.Keys + listed :: SettledItem(listed, cells, key)
  }

  // ---------------------------------------------------------------- the elicitation flows

  predicate Interactive(catalog: Catalog, key: ActionKey) {
    key.action in catalog.actions && catalog.actions[key.action].domain == INTERACTIVE_DOMAIN
  }

  function FlowKey(key: ActionKey): CapabilityKey {
    KeyFor(Elicitation, key.shape, "", key.action)
  }

  /** A flow says what the action's cell says, unless the action succeeded and nothing was asked of the client. */
  function FlowOf(found: Cell, elicited: set<string>, unlisted: bool): Cell {
    if found.state == Some(Asserted) && TestsOf(found, CreditAsserted) !! elicited
    then found.(state := Some(ErrorPathOnly), unlisted := unlisted)
    else found.(unlisted := unlisted)
  }

  function FlowKeys(catalog: Catalog, cells: map<ActionKey, Cell>): set<CapabilityKey> {
    set key | key in cells && Interactive(catalog, key) :: FlowKey(key)
  }

  function FlowAt(cells: map<ActionKey, Cell>, elicited: set<string>, items: map<CapabilityKey, Cell>,
                  key: CapabilityKey): Cell
    requires ActionKey(key.shape, key.item) in cells
  {
    FlowOf(cells[ActionKey(key.shape, key.item)], elicited, At(items, key, NEW_CELL).unlisted)
  }

  /** fillElicitationCells */
  function WithFlows(catalog: Catalog, cells: map<ActionKey, Cell>, elicited: set<string>,
                     items: map<CapabilityKey, Cell>): map<CapabilityKey, Cell> {
    map key | key in items.Keys + FlowKeys(catalog, cells) ::
      if key in FlowKeys(catalog, cells) then FlowAt(cells, elicited, items, key) else items[key]
  }

  // ---------------------------------------------------------------- the protective modes

  function FacetKey(shape: ShapeKey, facet: string): CapabilityKey {
    KeyFor(Modes, shape, "", facet)
  }

  /** The facets a protective mode is held to. */
  function FacetsOf(shape: ShapeKey): set<string> {
    if shape.mode == MODE_DEFAULT then {}
    else if shape.mode == MODE_READ_ONLY then {FACET_READS, FACET_WITHHELD}
    else if shape.mode == MODE_SAFE then {FACET_READS, FACET_PREVIEWS}
    else {FACET_READS}
  }

  function FacetKeys(shapes: map<ShapeKey, SessionShape>): set<CapabilityKey> {
    set shape, facet | shape in shapes && facet in FacetsOf(shape) :: FacetKey(shape, facet)
  }

  function Shown(modes: map<ShapeKey, Evidence>, shape: ShapeKey, facet: string): set<string> {
    var evidence := EvidenceAt(modes, shape);
    if facet == FACET_READS then evidence.readThrough
    else if facet == FACET_WITHHELD then evidence.withheld
    else evidence.previews
  }

  /** What the tests that showed a facet make of its cell, or the failing ones when none did. */
  function FacetCell(shown: set<string>, failed: set<string>): Cell {
    if shown != {} then
      Cell(CreditAsserted, map[CreditAsserted := shown], map[CreditAsserted := |shown|], Some(Asserted), false)
    else if failed != {} then
      Cell(CreditFailed, map[CreditFailed := failed], map[CreditFailed := |failed|], Some(Failed), false)
    else NEW_CELL.(state := Some(Absent))
  }

  function FacetAt(modes: map<ShapeKey, Evidence>, key: CapabilityKey): Cell {
    FacetCell(Shown(modes, key.shape, key.item), EvidenceAt(modes, key.shape).failed)
  }

  /** fillModeCells */
  function WithModes(shapes: map<ShapeKey, SessionShape>, modes: map<ShapeKey, Evidence>,
                     items: map<CapabilityKey, Cell>): map<CapabilityKey, Cell> {
    map key | key in items.Keys + FacetKeys(shapes) ::
      if key in FacetKeys(shapes) then FacetAt(modes, key) else items[key]
  }

  // ---------------------------------------------------------------- the whole classification

  datatype Classes = Classes(cells: map<ActionKey, Cell>, items: map<CapabilityKey, Cell>)

  /** classify, once the lines are folded. */
  function FillAll(s: Setting, r: Record): Classes {
    var cells := FillActions(s, r.cells);
    var items := WithFlows(s.catalog, cells, r.elicited, FillItems(Listed(s), r.capabilities));
    Classes(cells, WithModes(s.served.shapes, r.modes, items))
  }

  function SettingOf(server: Server, catalog: Catalog, sessions: seq<Session>): Setting {
    Setting(server, catalog, FoldSessions(server, sessions))
  }

  /** classify */
  ghost function Classify(server: Server, catalog: Catalog, sessions: seq<Session>, calls: seq<Call>): Classes {
    var s := SettingOf(server, catalog, sessions);
    FillAll(s, FoldCalls(s, calls))
  }

  // ---------------------------------------------------------------- what only the source can say

  /** The static scan: the actions every call site of which discards the result, and those each test names. */
  datatype Static = Static(unasserted: set<string>, testIDs: map<string, set<string>>)

  /** topLevelTest */
  function TopLevelTest(name: string): string {
    if name == "" || name[0] == '/' then "" else [name[0]] + TopLevelTest(name[1..])
  }

  function NamedBy(st: Static, skip: Skip): set<string> {
    var test := TopLevelTest(skip.test);
    if test in st.testIDs then st.testIDs[test] else {}
  }

  function UnassertedCell(st: Static, key: ActionKey, c: Cell): Cell {
    if c.state == Some(Asserted) && key.action in st.unasserted then c.(state := Some(Unasserted)) else c
  }

  function Unassert(st: Static, cells: map<ActionKey, Cell>): map<ActionKey, Cell> {
    map key | key in cells :: UnassertedCell(st, key, cells[key])
  }

  predicate SkipLands(s: Setting, st: Static, skip: Skip, key: ActionKey, c: Cell) {
    key.shape in s.served.shapes && key.action in NamedBy(st, skip) && c.state == Some(Absent)
  }

  function SkippedCell(s: Setting, st: Static, skip: Skip, key: ActionKey, c: Cell): Cell {
    if SkipLands(s, st, skip, key, c) then Add(c.(state := Some(Skipped)), CreditSkipped, skip.test) else c
  }

  function SkipOne(s: Setting, st: Static, skip: Skip, cells: map<ActionKey, Cell>): map<ActionKey, Cell> {
    map key | key in cells :: SkippedCell(s, st, skip, key, cells[key])
  }

  function SkipAll(s: Setting, st: Static, skips: seq<Skip>, cells: map<ActionKey, Cell>): map<ActionKey, Cell> {
    if skips == [] then cells
    else SkipOne(s, st, skips[|skips| - 1], SkipAll(s, st, skips[..|skips| - 1], cells))
  }

  /** applyStatic */
  function ApplyStatic(s: Setting, st: Static, skips: seq<Skip>, elicited: set<string>, c: Classes): Classes {
    var cells := SkipAll(s, st, skips, Unassert(st, c.cells));
    Classes(cells, WithFlows(s.catalog, cells, elicited, c.items))
  }

  // ---------------------------------------------------------------- every cell has a state

  ghost predicate AllSettled<K>(cells: map<K, Cell>) {
    forall key | key in cells :: cells[key].state.Some?
  }

  lemma FlowsSettled(catalog: Catalog, cells: map<ActionKey, Cell>, elicited: set<string>,
                     items: map<CapabilityKey, Cell>)
    requires AllSettled(cells) && AllSettled(items)
    ensures AllSettled(WithFlows(catalog, cells, elicited, items))
  {}

  /** After classify every cell, of an action, an item, a flow or a mode, is in exactly one state. */
  lemma EverySettled(s: Setting, r: Record)
    ensures AllSettled(FillAll(s, r).cells) && AllSettled(FillAll(s, r).items)
  {
    hide Settle, Listed, WithFlows, Grid, FacetAt, FacetKeys;
    var cells := FillActions(s, r.cells);
    var items := FillItems(Listed(s), r.capabilities);
    FlowsSettled(s.catalog, cells, r.elicited, items);
    forall key | key in FacetKeys(s.served.shapes) ensures FacetAt(r.modes, key).state.Some? {
      FacetSettled(r.modes, key);
    }
  }

  lemma FacetSettled(modes: map<ShapeKey, Evidence>, key: CapabilityKey)
    ensures FacetAt(modes, key).state.Some?
  {}

  /** The static pass keeps every cell where it was and settled. */
  lemma {:induction false} SkipsKeepCells(s: Setting, st: Static, skips: seq<Skip>, cells: map<ActionKey, Cell>)
    requires AllSettled(cells)
    ensures SkipAll(s, st, skips, cells).Keys == cells.Keys
    ensures AllSettled(SkipAll(s, st, skips, cells))
    ensures forall key | key in cells :: SkipAll(s, st, skips, cells)[key].unlisted == cells[key].unlisted
  {
    hide SkipLands;
    if skips == [] {
    } else {
      SkipsKeepCells(s, st, skips[..|skips| - 1], cells);
    }
  }

  lemma StaticKeepsCells(s: Setting, st: Static, skips: seq<Skip>, elicited: set<string>, c: Classes)
    requires AllSettled(c.cells) && AllSettled(c.items) && FlowKeys(s.catalog, c.cells) <= c.items.Keys
    ensures var after := ApplyStatic(s, st, skips, elicited, c);
            && after.cells.Keys == c.cells.Keys && after.items.Keys == c.items.Keys
            && AllSettled(after.cells) && AllSettled(after.items)
            && forall key | key in c.items :: after.items[key].unlisted == c.items[key].unlisted
  {
    hide SkipAll, UnassertedCell;
    var unasserted := Unassert(st, c.cells);
    forall key | key in c.cells ensures unasserted[key].state.Some? {
      UnassertedSettled(st, key, c.cells[key]);
    }
    SkipsKeepCells(s, st, skips, unasserted);
    var cells := SkipAll(s, st, skips, unasserted);
    assert FlowKeys(s.catalog, cells) == FlowKeys(s.catalog, c.cells);
    FlowsSettled(s.catalog, cells, elicited, c.items);
  }

  lemma UnassertedSettled(st: Static, key: ActionKey, c: Cell)
    requires c.state.Some?
    ensures UnassertedCell(st, key, c).state.Some?
  {}

  // ---------------------------------------------------------------- what the classification depends on

  /** Action, capability and mode cells are the same for any order of the call lines. */
  lemma ClassifyIgnoresOrder(server: Server, catalog: Catalog, sessions: seq<Session>, calls: seq<Call>, others: seq<Call>)
    requires multiset(calls) == multiset(others)
    ensures Classify(server, catalog, sessions, calls) == Classify(server, catalog, sessions, others)
  {
    hide FillAll, FoldCalls;
    OrderOfCalls(SettingOf(server, catalog, sessions), calls, others);
  }

  /** And the same with every fine-grained session and call line deleted. */
  lemma ClassifyIgnoresFineGrained(server: Server, catalog: Catalog, sessions: seq<Session>, calls: seq<Call>)
    ensures Classify(server, catalog, Classic(sessions), ClassicCalls(calls)) == Classify(server, catalog, sessions, calls)
  {
    hide FillAll, FoldCalls, FoldSessions;
    FineGrainedSessionsAside(server, sessions);
    FineGrainedCallsAside(SettingOf(server, catalog, sessions), calls);
  }

  // ---------------------------------------------------------------- what an action's state means

  /** The state of an action's cell after classify, from the call lines alone. */
  lemma ActionStateIs(s: Setting, calls: seq<Call>, key: ActionKey)
    requires key in FillActions(s, FoldCalls(s, calls).cells)
    ensures var c := FillActions(s, FoldCalls(s, calls).cells)[key];
            && Consistent(c)
            && (forall credit | credit != NoCredit :: CountOf(c, credit) == Earning(s, calls, key, credit))
            && c.state == Some(if c.best != NoCredit then CreditState(c.best)
                               else if key in Grid(s) && CannotServeAt(s, key) then Unservable else Absent)
  {
    hide Grid, CannotServeAt, FoldCalls, Earning;
    CellsCount(s, calls, key);
  }
}
