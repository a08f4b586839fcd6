/**
  The figures the report publishes, and that the cells add up to them.

  `DefaultModeAddsUp` holds the histogram of a surface to the size of the catalog, `ListedAddsUp` the listed histogram of
  a capability kind to the figures of the capability rows, and `UnlistedExactly` what stays out of it.
*/
module CoverageReport {
  import opened CallFold
  import opened CallRecords
  import opened CellFill
  import opened Cells
  import opened Outcomes
  import opened Sessions
  import opened StringOrder

  type Histogram = map<State, nat>

  function Bar(h: Histogram, st: State): nat {
    if st in h then h[st] else 0
  }

  function Total(h: Histogram): nat {
    Bar(h, Asserted) + Bar(h, Unobserved) + Bar(h, SweepOnly) + Bar(h, ErrorPathOnly) + Bar(h, RefusedOnly)
    + Bar(h, PreviewOnly) + Bar(h, CleanupOnly) + Bar(h, Unasserted) + Bar(h, Unservable) + Bar(h, Skipped)
    + Bar(h, Failed) + Bar(h, Absent)
  }

  function Raised(h: Histogram, st: State): Histogram {
    h[st := Bar(h, st) + 1]
  }

  lemma RaisedBars(h: Histogram, st: State)
    ensures forall x :: Bar(Raised(h, st), x) == Bar(h, x) + if x == st then 1 else 0
  {}

  lemma RaisedTotal(h: Histogram, st: State)
    ensures Total(Raised(h, st)) == Total(h) + 1
  {
    RaisedBars(h, st);
    hide Bar, Raised;
    match st {
      case Asserted =>
      case Unobserved =>
      case SweepOnly =>
      case ErrorPathOnly =>
      case RefusedOnly =>
      case PreviewOnly =>
      case CleanupOnly =>
      case Unasserted =>
      case Unservable =>
      case Skipped =>
      case Failed =>
      case Absent =>
    }
  }

  function HistogramAt<K>(m: map<K, Histogram>, k: K): Histogram {
    if k in m then m[k] else map[]
  }

  // ---------------------------------------------------------------- summarize

  ghost function InState<K>(cells: map<K, Cell>, keys: set<K>, st: State): set<K> {
    set key | key in keys && key in cells && cells[key].state == Some(st)
  }

  /** A histogram counts some cells by their state, and adds up to them. */
  ghost predicate HistogramOf<K>(cells: map<K, Cell>, keys: set<K>, h: Histogram) {
    Total(h) == |keys| && forall st :: Bar(h, st) == |InState(cells, keys, st)|
  }

  lemma InStateMore<K>(cells: map<K, Cell>, keys: set<K>, key: K, st: State)
    requires key in cells && key !in keys
    ensures |InState(cells, keys + {key}, st)| == |InState(cells, keys, st)| + if cells[key].state == Some(st) then 1 else 0
  {
    if cells[key].state == Some(st) {
      assert InState(cells, keys + {key}, st) == InState(cells, keys, st) + {key};
    } else {
      assert InState(cells, keys + {key}, st) == InState(cells, keys, st);
    }
  }

  lemma BarGrows<K>(cells: map<K, Cell>, keys: set<K>, h: Histogram, key: K, x: State)
    requires Bar(h, x) == |InState(cells, keys, x)| && key !in keys && key in cells && cells[key].state.Some?
    ensures Bar(Raised(h, cells[key].state.value), x) == |InState(cells, keys + {key}, x)|
  {
    RaisedBars(h, cells[key].state.value);
    InStateMore(cells, keys, key, x);
    hide Raised, Bar, InState;
  }

  lemma HistogramGrows<K>(cells: map<K, Cell>, keys: set<K>, h: Histogram, key: K)
    requires HistogramOf(cells, keys, h) && key !in keys && key in cells && cells[key].state.Some?
    ensures HistogramOf(cells, keys + {key}, Raised(h, cells[key].state.value))
  {
    hide Total, Bar, Raised, InState;
    RaisedTotal(h, cells[key].state.value);
    forall x ensures Bar(Raised(h, cells[key].state.value), x) == |InState(cells, keys + {key}, x)| {
      BarGrows(cells, keys, h, key, x);
    }
  }

  lemma EmptyHistogram<K>(cells: map<K, Cell>)
    ensures HistogramOf(cells, {}, map[])
  {
    assert forall st :: InState(cells, {}, st) == {};
  }

  ghost function OnSurface(keys: set<ActionKey>, surface: string): set<ActionKey> {
    set key | key in keys && key.shape == ShapeKey(surface, MODE_DEFAULT)
  }

  ghost predicate CountsSurfaces(cells: map<ActionKey, Cell>, keys: set<ActionKey>, states: map<string, Histogram>) {
    forall surface :: HistogramOf(cells, OnSurface(keys, surface), HistogramAt(states, surface))
  }

  ghost function ListedIn(items: map<CapabilityKey, Cell>, keys: set<CapabilityKey>, kind: Kind): set<CapabilityKey> {
    set key | key in keys && key in items && key.kind == kind && !items[key].unlisted
  }

  ghost predicate CountsKinds(items: map<CapabilityKey, Cell>, keys: set<CapabilityKey>, kinds: map<Kind, Histogram>) {
    forall kind :: HistogramOf(items, ListedIn(items, keys, kind), HistogramAt(kinds, kind))
  }

  lemma OnSurfaceMore(keys: set<ActionKey>, key: ActionKey, surface: string)
    ensures OnSurface(keys + {key}, surface)
         == if key.shape == ShapeKey(surface, MODE_DEFAULT) then OnSurface(keys, surface) + {key} else OnSurface(keys, surface)
    ensures key !in keys ==> key !in OnSurface(keys, surface)
  {}

  lemma ListedInMore(items: map<CapabilityKey, Cell>, keys: set<CapabilityKey>, key: CapabilityKey, kind: Kind)
    requires key in items
    ensures ListedIn(items, keys + {key}, kind)
         == if key.kind == kind && !items[key].unlisted then ListedIn(items, keys, kind) + {key} else ListedIn(items, keys, kind)
    ensures key !in keys ==> key !in ListedIn(items, keys, kind)
  {}

  lemma OneMoreCounted(cells: map<ActionKey, Cell>, keys: set<ActionKey>, states: map<string, Histogram>, key: ActionKey)
    requires CountsSurfaces(cells, keys, states) && key !in keys && key in cells && cells[key].state.Some?
    ensures CountsSurfaces(cells, keys + {key},
              if key.shape.mode != MODE_DEFAULT then states
              else states[key.shape.surface := Raised(HistogramAt(states, key.shape.surface), cells[key].state.value)])
  {
    hide HistogramOf, OnSurface, Raised;
    var next := if key.shape.mode != MODE_DEFAULT then states
                else states[key.shape.surface := Raised(HistogramAt(states, key.shape.surface), cells[key].state.value)];
    forall surface ensures HistogramOf(cells, OnSurface(keys + {key}, surface), HistogramAt(next, surface)) {
      OnSurfaceMore(keys, key, surface);
      if key.shape == ShapeKey(surface, MODE_DEFAULT) {
        HistogramGrows(cells, OnSurface(keys, surface), HistogramAt(states, surface), key);
      } else {
        assert key.shape.mode != MODE_DEFAULT || key.shape.surface != surface;
        assert HistogramAt(next, surface) == HistogramAt(states, surface);
      }
    }
  }

  lemma OneMoreListed(items: map<CapabilityKey, Cell>, keys: set<CapabilityKey>, kinds: map<Kind, Histogram>,
                      key: CapabilityKey)
    requires CountsKinds(items, keys, kinds) && key !in keys && key in items && items[key].state.Some?
    ensures CountsKinds(items, keys + {key},
              if items[key].unlisted then kinds
              else kinds[key.kind := Raised(HistogramAt(kinds, key.kind), items[key].state.value)])
  {
    hide HistogramOf, ListedIn, Raised;
    var next := if items[key].unlisted then kinds
                else kinds[key.kind := Raised(HistogramAt(kinds, key.kind), items[key].state.value)];
    forall kind ensures HistogramOf(items, ListedIn(items, keys + {key}, kind), HistogramAt(next, kind)) {
      ListedInMore(items, keys, key, kind);
      if key.kind == kind && !items[key].unlisted {
        HistogramGrows(items, ListedIn(items, keys, kind), HistogramAt(kinds, kind), key);
      } else {
        assert HistogramAt(next, kind) == HistogramAt(kinds, kind);
      }
    }
  }

  /** The calls a summary counts: what tests made themselves, outside the fine-grained sessions. */
  function TestCalls(calls: seq<Call>): seq<Call> {
    if calls == [] then []
    else
      var last := calls[|calls| - 1];
      TestCalls(calls[..|calls| - 1]) + if last.purpose == PURPOSE_TEST && !last.fineGrained then [last] else []
  }

  ghost function TestLines(calls: seq<Call>): set<nat> {
    set i: nat | 0 <= i < |calls| && calls[i].purpose == "test" && !calls[i].fineGrained
  }

  lemma {:induction false} TestCallsAre(calls: seq<Call>)
    ensures |TestCalls(calls)| == |TestLines(calls)|
  {
    if calls == [] {
    } else {
      var front, last := calls[..|calls| - 1], |calls| - 1;
      TestCallsAre(front);
      OneMoreTestLine(calls);
      hide TestLines;
    }
  }

  lemma OneMoreTestLine(calls: seq<Call>)
    requires calls != []
    ensures var front, last := calls[..|calls| - 1], calls[|calls| - 1];
            && TestLines(calls) == TestLines(front) + (if last.purpose == "test" && !last.fineGrained then {|front|} else {})
            && |front| !in TestLines(front)
  {
    var front := calls[..|calls| - 1];
    assert forall i | 0 <= i < |front| :: front[i] == calls[i];
  }

  /** The unlisted cells a kind's rows publish. */
  ghost function UnlistedIn(items: map<CapabilityKey, Cell>, keys: set<CapabilityKey>, kind: Kind): set<CapabilityKey> {
    set key | key in keys && key in items && key.kind == kind && items[key].unlisted && items[key].state != Some(Absent)
  }

  function UnlistedAt(unlisted: map<Kind, set<CapabilityKey>>, kind: Kind): set<CapabilityKey> {
    if kind in unlisted then unlisted[kind] else {}
  }

  /** Each kind with an unlisted cell that is not absent, and those cells. */
  ghost predicate UnlistedByKind(items: map<CapabilityKey, Cell>, keys: set<CapabilityKey>,
                                 unlisted: map<Kind, set<CapabilityKey>>) {
    forall kind :: UnlistedAt(unlisted, kind) == UnlistedIn(items, keys, kind) && (kind in unlisted ==> unlisted[kind] != {})
  }

  ghost function KindsOf(keys: set<CapabilityKey>): set<Kind> {
    set key | key in keys :: key.kind
  }

  lemma OneMoreUnlisted(items: map<CapabilityKey, Cell>, keys: set<CapabilityKey>, unlisted: map<Kind, set<CapabilityKey>>,
                        key: CapabilityKey)
    requires UnlistedByKind(items, keys, unlisted) && key in items && key !in keys
    ensures UnlistedByKind(items, keys + {key},
              if items[key].unlisted && items[key].state != Some(Absent)
              then unlisted[key.kind := UnlistedAt(unlisted, key.kind) + {key}] else unlisted)
  {
    forall kind
      ensures UnlistedIn(items, keys + {key}, kind)
           == if key.kind == kind && items[key].unlisted && items[key].state != Some(Absent)
              then UnlistedIn(items, keys, kind) + {key} else UnlistedIn(items, keys, kind)
    {}
  }

  /** summarize's count of the calls tests made. */
  method CountTestCalls(calls: seq<Call>) returns (n: nat)
    ensures n == |TestCalls(calls)|
  {
    n := 0;
    for i := 0 to |calls|
      invariant n == |TestCalls(calls[..i])|
    {
      assert calls[..i + 1][..i] == calls[..i];
      if calls[i].purpose == PURPOSE_TEST && !calls[i].fineGrained {
        n := n + 1;
      }
    }
    assert calls[..|calls|] == calls;
  }

  /**
    summarize: the calls tests made, the histograms over the default mode's action cells and, for every kind with a cell,
    over its listed cells, and the unlisted cells that are not absent.
  */
  method Summarize(c: Classes, calls: seq<Call>)
    returns (testCalls: nat, states: map<string, Histogram>, kinds: map<Kind, Histogram>,
             unlisted: map<Kind, set<CapabilityKey>>)
    requires AllSettled(c.cells) && AllSettled(c.items)
    ensures testCalls == |TestLines(calls)|
    ensures CountsSurfaces(c.cells, c.cells.Keys, states)
    ensures CountsKinds(c.items, c.items.Keys, kinds) && kinds.Keys == KindsOf(c.items.Keys)
    ensures UnlistedByKind(c.items, c.items.Keys, unlisted)
  {
    hide CountsSurfaces, CountsKinds, UnlistedByKind, Raised, TestLines;
    testCalls := CountTestCalls(calls);
    TestCallsAre(calls);
    states, kinds, unlisted := map[], map[], map[];
    NothingCounted(c);
    var left := c.cells.Keys;
    assert c.cells.Keys - left == {};
    while left != {}
      invariant left <= c.cells.Keys
      invariant CountsSurfaces(c.cells, c.cells.Keys - left, states)
    {
      var key :| key in left;
      OneMoreCounted(c.cells, c.cells.Keys - left, states, key);
      assert c.cells.Keys - (left - {key}) == (c.cells.Keys - left) + {key};
      left := left - {key};
      if key.shape.mode != MODE_DEFAULT {
        continue;
      }
      states := states[key.shape.surface := Raised(HistogramAt(states, key.shape.surface), c.cells[key].state.value)];
    }
    assert c.cells.Keys - left == c.cells.Keys;
    kinds, unlisted := SummarizeItems(c);
  }

  method SummarizeItems(c: Classes) returns (kinds: map<Kind, Histogram>, unlisted: map<Kind, set<CapabilityKey>>)
    requires AllSettled(c.items)
    ensures CountsKinds(c.items, c.items.Keys, kinds) && kinds.Keys == KindsOf(c.items.Keys)
    ensures UnlistedByKind(c.items, c.items.Keys, unlisted)
  {
    kinds, unlisted := map[], map[];
    NothingCounted(c);
    NoKinds(c.items);
    hide CountsKinds, UnlistedByKind, Raised, KindsOf;
    var rest := c.items.Keys;
    assert c.items.Keys - rest == {};
    while rest != {}
      invariant rest <= c.items.Keys
      invariant CountsKinds(c.items, c.items.Keys - rest, kinds) && kinds.Keys == KindsOf(c.items.Keys - rest)
      invariant UnlistedByKind(c.items, c.items.Keys - rest, unlisted)
    {
      var key :| key in rest;
      ghost var done := c.items.Keys - rest;
      EmptyBars(c.items, done, kinds, key.kind);
      kinds := kinds[key.kind := HistogramAt(kinds, key.kind)];
      OneMoreListed(c.items, done, kinds, key);
      OneMoreUnlisted(c.items, done, unlisted, key);
      assert c.items.Keys - (rest - {key}) == done + {key};
      KindsMore(done, key);
      rest := rest - {key};
      if c.items[key].unlisted {
        if c.items[key].state != Some(Absent) {
          unlisted := unlisted[key.kind := UnlistedAt(unlisted, key.kind) + {key}];
        }
        continue;
      }
      kinds := kinds[key.kind := Raised(HistogramAt(kinds, key.kind), c.items[key].state.value)];
    }
    assert c.items.Keys - rest == c.items.Keys;
  }

  lemma NoKinds(items: map<CapabilityKey, Cell>)
    ensures KindsOf({}) == {} && UnlistedByKind(items, {}, map[])
  {}

  lemma KindsMore(keys: set<CapabilityKey>, key: CapabilityKey)
    ensures KindsOf(keys + {key}) == KindsOf(keys) + {key.kind}
  {}

  /** An empty histogram, written out, counts what a missing one does. */
  lemma EmptyBars(items: map<CapabilityKey, Cell>, keys: set<CapabilityKey>, kinds: map<Kind, Histogram>, kind: Kind)
    requires CountsKinds(items, keys, kinds)
    ensures CountsKinds(items, keys, kinds[kind := HistogramAt(kinds, kind)])
  {
    hide HistogramOf, ListedIn;
    var next := kinds[kind := HistogramAt(kinds, kind)];
    assert forall k :: HistogramAt(next, k) == HistogramAt(kinds, k);
  }

  lemma NothingCounted(c: Classes)
    ensures CountsSurfaces(c.cells, {}, map[]) && CountsKinds(c.items, {}, map[])
  {
    EmptyHistogram(c.cells);
    EmptyHistogram(c.items);
    hide HistogramOf;
    assert forall surface :: OnSurface({}, surface) == {};
    assert forall kind :: ListedIn(c.items, {}, kind) == {};
  }

  // ---------------------------------------------------------------- the default mode adds up to the catalog

  /** A folded cell names a catalog action: a target the catalog lacks earns nothing. */
  lemma {:induction false} FoldedActionsKnown(s: Setting, calls: seq<Call>)
    ensures forall key | key in FoldCalls(s, calls).cells :: key.action in s.catalog.actions
  {
    if calls == [] {
    } else {
      FoldedActionsKnown(s, calls[..|calls| - 1]);
      ActedIsKnown(s, calls[|calls| - 1]);
      hide EffectOf, Noted, Add;
    }
  }

  lemma ActedIsKnown(s: Setting, call: Call)
    ensures EffectOf(s, call).Acted? ==> EffectOf(s, call).key.action in s.catalog.actions
  {
    hide ResourceTarget, SubscriptionKind, CreditOf, CreditOfOutcome, KeyFor;
  }

  ghost function Row(shape: ShapeKey, ids: seq<string>): set<ActionKey> {
    set id | id in ids :: ActionKey(shape, id)
  }

  lemma {:induction false} RowSize(shape: ShapeKey, ids: seq<string>)
    requires NoRepeats(ids)
    ensures |Row(shape, ids)| == |ids|
  {
    if ids == [] {
      assert Row(shape, ids) == {};
    } else {
      var front, last := ids[..|ids| - 1], ids[|ids| - 1];
      RowSize(shape, front);
      assert ids == front + [last];
      assert Row(shape, ids) == Row(shape, front) + {ActionKey(shape, last)};
      assert ActionKey(shape, last) !in Row(shape, front);
    }
  }

  /** On a default-mode surface with a session there is one cell per catalog action, so its histogram sums to the catalog. */
  lemma DefaultModeAddsUp(s: Setting, calls: seq<Call>, surface: string)
    requires GoodCatalog(s.catalog) && ShapeKey(surface, MODE_DEFAULT) in s.served.shapes
    ensures |OnSurface(FillActions(s, FoldCalls(s, calls).cells).Keys, surface)| == |s.catalog.ids|
  {
    hide FoldCalls, SettledAction;
    var shape := ShapeKey(surface, MODE_DEFAULT);
    FoldedActionsKnown(s, calls);
    RowSize(shape, s.catalog.ids);
    var keys := FillActions(s, FoldCalls(s, calls).cells).Keys;
    forall key ensures key in OnSurface(keys, surface) <==> key in Row(shape, s.catalog.ids) {
      if key in Row(shape, s.catalog.ids) {
        assert key in Grid(s);
      }
      if key in OnSurface(keys, surface) {
        assert key == ActionKey(shape, key.action);
      }
    }
    assert OnSurface(keys, surface) == Row(shape, s.catalog.ids);
  }

  // ---------------------------------------------------------------- the capability surfaces add up to their rows

  /** One capability surface's row: how many items of each kind its sessions served. */
  datatype SurfaceRow = SurfaceRow(
    capabilities: string, sessions: nat, shapes: nat, resources: nat, prompts: nat, completions: nat, kinds: nat)

  function Figure(row: SurfaceRow, kind: Kind): nat {
    match kind
    case Resources => row.resources
    case Prompts => row.prompts
    case Completions => row.completions
    case Subscriptions => row.kinds
    case _ => 0
  }

  function SumFigures(rows: seq<SurfaceRow>, kind: Kind): nat {
    if rows == [] then 0 else SumFigures(rows[..|rows| - 1], kind) + Figure(rows[|rows| - 1], kind)
  }

  function RowOf(s: Setting, capabilities: string): SurfaceRow
    requires capabilities in s.served.surfaces
  {
    var surface := s.served.surfaces[capabilities];
    SurfaceRow(
      capabilities, surface.sessions, |surface.shapes|,
      |Items(s.server, capabilities, surface, Resources)|, |Items(s.server, capabilities, surface, Prompts)|,
      |Items(s.server, capabilities, surface, Completions)|, |Items(s.server, capabilities, surface, Subscriptions)|)
  }

  /** sortedKeys */
  method KeysInOrder(keys: set<string>) returns (names: seq<string>)
    ensures Sorted(names) && NoRepeats(names) && forall x :: x in names <==> x in keys
  {
    hide Leq, Sort, Insert, Sorted, NoRepeats;
    names := [];
    NoneRepeat();
    var left := keys;
    while left != {}
      invariant left <= keys
      invariant NoRepeats(names)
      invariant forall x :: x in names <==> x in keys - left
    {
      var key :| key in left;
      left := left - {key};
      NoRepeatsSnoc(names, key);
      names := names + [key];
    }
    SortSorts(names);
    NoRepeatsSorted(names);
    names := Sort(names);
  }

  lemma NoneRepeat()
    ensures NoRepeats([])
  {}

  lemma NoRepeatsSorted(names: seq<string>)
    requires NoRepeats(names) && multiset(Sort(names)) == multiset(names)
    ensures NoRepeats(Sort(names))
  {
    hide Sort;
    var sorted := Sort(names);
    forall i, j | 0 <= i < j < |sorted| ensures sorted[i] != sorted[j] {
      CountOnce(names, sorted[i]);
      assert sorted == sorted[..j] + [sorted[j]] + sorted[j + 1..];
      assert sorted[..j][i] == sorted[i];
      assert multiset(sorted)[sorted[i]]
          == multiset(sorted[..j])[sorted[i]] + multiset([sorted[j]])[sorted[i]] + multiset(sorted[j + 1..])[sorted[i]];
      assert sorted[i] in multiset(sorted[..j]);
    }
  }

  function RowNames(rows: seq<SurfaceRow>): seq<string> {
    seq(|rows|, i requires 0 <= i < |rows| => rows[i].capabilities)
  }

  /** One row per capability surface, in name order, each with its surface's figures. */
  ghost predicate SurfaceRows(s: Setting, rows: seq<SurfaceRow>) {
    var names := RowNames(rows);
    && Sorted(names) && NoRepeats(names) && (forall x :: x in names <==> x in s.served.surfaces)
    && forall i | 0 <= i < |rows| :: names[i] in s.served.surfaces && rows[i] == RowOf(s, names[i])
  }

  /** capabilitySurfaceRows */
  method CapabilitySurfaceRows(s: Setting) returns (rows: seq<SurfaceRow>)
    ensures SurfaceRows(s, rows)
    ensures forall kind | kind in GRAIN_KINDS :: EachOnceIn(s, kind) <==> SumFigures(rows, kind) == |ListedOf(s, kind)|
  {
    hide Items, Leq, ListedOf, EachOnceIn, Sorted, NoRepeats;
    var names := KeysInOrder(s.served.surfaces.Keys);
    rows := [];
    for i := 0 to |names|
      invariant |rows| == i
      invariant forall j | 0 <= j < i :: names[j] in s.served.surfaces && rows[j] == RowOf(s, names[j])
      invariant forall j | 0 <= j < i :: rows[j].capabilities == names[j]
    {
      assert names[i] in names;
      rows := rows + [RowOf(s, names[i])];
    }
    assert RowNames(rows) == names;
    forall kind | kind in GRAIN_KINDS ensures EachOnceIn(s, kind) <==> SumFigures(rows, kind) == |ListedOf(s, kind)| {
      RowsAddUp(s, kind, rows);
    }
  }

  /** No served list of the kind repeats an item. */
  ghost predicate EachOnceIn(s: Setting, kind: Kind) {
    forall capabilities | capabilities in s.served.surfaces ::
      NoRepeats(Items(s.server, capabilities, s.served.surfaces[capabilities], kind))
  }

  ghost function ListedUnder(s: Setting, kind: Kind, names: seq<string>): set<CapabilityKey> {
    set capabilities, item |
      capabilities in names && capabilities in s.served.surfaces
      && item in Items(s.server, capabilities, s.served.surfaces[capabilities], kind)
      :: KeyFor(kind, NO_SHAPE, capabilities, item)
  }

  ghost function ListedOf(s: Setting, kind: Kind): set<CapabilityKey> {
    set key | key in ListedItems(s) && key.kind == kind
  }

  ghost function KeysOf(kind: Kind, capabilities: string, items: seq<string>): set<CapabilityKey> {
    set item | item in items :: KeyFor(kind, NO_SHAPE, capabilities, item)
  }

  lemma {:induction false} KeysOfSize(kind: Kind, capabilities: string, items: seq<string>)
    requires kind in GRAIN_KINDS
    ensures |KeysOf(kind, capabilities, items)| <= |items|
    ensures |KeysOf(kind, capabilities, items)| == |items| <==> NoRepeats(items)
  {
    if items == [] {
      assert KeysOf(kind, capabilities, items) == {};
    } else {
      var front, last := items[..|items| - 1], items[|items| - 1];
      KeysOfSize(kind, capabilities, front);
      assert items == front + [last];
      NoRepeatsSnoc(front, last);
      KeysOfSnoc(kind, capabilities, front, last);
      hide NoRepeats, KeysOf;
    }
  }

  lemma KeysOfSnoc(kind: Kind, capabilities: string, front: seq<string>, last: string)
    requires kind in GRAIN_KINDS
    ensures KeysOf(kind, capabilities, front + [last])
         == KeysOf(kind, capabilities, front) + {KeyFor(kind, NO_SHAPE, capabilities, last)}
    ensures KeyFor(kind, NO_SHAPE, capabilities, last) in KeysOf(kind, capabilities, front) <==> last in front
  {}

  lemma NoRepeatsSnoc(front: seq<string>, last: string)
    ensures NoRepeats(front + [last]) <==> NoRepeats(front) && last !in front
  {
    var all := front + [last];
    assert all[|front|] == last && forall i | 0 <= i < |front| :: all[i] == front[i];
    if NoRepeats(all) {
      forall i | 0 <= i < |front| ensures front[i] != last {
        assert all[i] != all[|front|];
      }
      forall i, j | 0 <= i < j < |front| ensures front[i] != front[j] {
        assert all[i] != all[j];
      }
    }
  }

  ghost predicate EachOnceUnder(s: Setting, kind: Kind, names: seq<string>) {
    forall capabilities | capabilities in names && capabilities in s.served.surfaces ::
      NoRepeats(Items(s.server, capabilities, s.served.surfaces[capabilities], kind))
  }

  lemma ListedUnderSnoc(s: Setting, kind: Kind, front: seq<string>, last: string)
    requires kind in GRAIN_KINDS && last in s.served.surfaces && last !in front
    ensures var more := KeysOf(kind, last, Items(s.server, last, s.served.surfaces[last], kind));
            && ListedUnder(s, kind, front + [last]) == ListedUnder(s, kind, front) + more
            && ListedUnder(s, kind, front) !! more
  {
    hide Items;
  }

  lemma {:induction false} ListedUnderSize(s: Setting, kind: Kind, names: seq<string>, rows: seq<SurfaceRow>)
    requires kind in GRAIN_KINDS && NoRepeats(names) && |rows| == |names|
    requires forall i | 0 <= i < |names| :: names[i] in s.served.surfaces && rows[i] == RowOf(s, names[i])
    ensures |ListedUnder(s, kind, names)| <= SumFigures(rows, kind)
    ensures |ListedUnder(s, kind, names)| == SumFigures(rows, kind) <==> EachOnceUnder(s, kind, names)
  {
    hide Items;
    if names == [] {
      assert ListedUnder(s, kind, names) == {};
    } else {
      var front, last := names[..|names| - 1], names[|names| - 1];
      assert names == front + [last];
      NoRepeatsSnoc(front, last);
      ListedUnderSize(s, kind, front, rows[..|rows| - 1]);
      var items := Items(s.server, last, s.served.surfaces[last], kind);
      KeysOfSize(kind, last, items);
      ListedUnderSnoc(s, kind, front, last);
      assert EachOnceUnder(s, kind, names) <==> EachOnceUnder(s, kind, front) && NoRepeats(items) by {
        assert last in names && forall x :: x in names <==> x in front || x == last;
      }
      FigureIs(s, last, kind);
      assert SumFigures(rows, kind) == SumFigures(rows[..|rows| - 1], kind) + |items|;
      hide ListedUnder, KeysOf, EachOnceUnder, SumFigures, NoRepeats;
    }
  }

  lemma FigureIs(s: Setting, capabilities: string, kind: Kind)
    requires capabilities in s.served.surfaces && kind in GRAIN_KINDS
    ensures Figure(RowOf(s, capabilities), kind) == |Items(s.server, capabilities, s.served.surfaces[capabilities], kind)|
  {
    hide Items;
  }

  lemma RowsAddUp(s: Setting, kind: Kind, rows: seq<SurfaceRow>)
    requires kind in GRAIN_KINDS && SurfaceRows(s, rows)
    ensures EachOnceIn(s, kind) <==> SumFigures(rows, kind) == |ListedOf(s, kind)|
  {
    ListedUnderSize(s, kind, RowNames(rows), rows);
    ListedUnderAll(s, kind, RowNames(rows));
    hide Items, SumFigures, RowOf, ListedUnder, ListedOf, NoRepeats;
  }

  lemma ListedUnderAll(s: Setting, kind: Kind, names: seq<string>)
    requires kind in GRAIN_KINDS && forall x :: x in names <==> x in s.served.surfaces
    ensures ListedUnder(s, kind, names) == ListedOf(s, kind)
  {
    hide Items;
  }

  // ---------------------------------------------------------------- listed and unlisted cells

  /** A capability cell is unlisted exactly when calls made it and no session of its capability surface listed its target. */
  lemma UnlistedExactly(s: Setting, calls: seq<Call>, key: CapabilityKey)
    ensures var r := FoldCalls(s, calls);
            var items := FillAll(s, r).items;
            && (key in items && items[key].unlisted <==> key in r.capabilities && key !in Listed(s))
            && (key in Listed(s) ==> key in items)
  {
    FoldedUnsettled(s, calls);
    var r := FoldCalls(s, calls);
    hide FoldCalls, Listed, Settle, Interactive, FacetsOf, Shown, FillActions;
  }

  lemma ListedKind(s: Setting, kind: Kind, key: CapabilityKey)
    requires kind in GRAIN_KINDS && key.kind == kind
    ensures key in Listed(s) <==> key in ListedOf(s, kind)
  {
    ManifestKind(s, key);
    hide ListedItems, ListedManifest;
  }

  lemma ManifestKind(s: Setting, key: CapabilityKey)
    requires key.kind in GRAIN_KINDS
    ensures key !in ListedManifest(s)
  {}

  lemma ItemKeys(s: Setting, r: Record, key: CapabilityKey)
    requires key.kind in GRAIN_KINDS
    ensures key in FillAll(s, r).items <==> key in r.capabilities || key in Listed(s)
  {
    hide Listed, Settle, Interactive, FacetsOf, Shown, FillActions, FlowAt, FacetAt;
  }

  /** The listed cells of a kind counted per capability surface are the items its sessions served. */
  lemma ListedCells(s: Setting, calls: seq<Call>, kind: Kind)
    requires kind in GRAIN_KINDS
    ensures var items := FillAll(s, FoldCalls(s, calls)).items;
            ListedIn(items, items.Keys, kind) == ListedOf(s, kind)
  {
    hide FillAll, FoldCalls, ListedItems, Listed;
    var r := FoldCalls(s, calls);
    var items := FillAll(s, r).items;
    forall key: CapabilityKey | key.kind == kind ensures key in ListedIn(items, items.Keys, kind) <==> key in ListedOf(s, kind) {
      UnlistedExactly(s, calls, key);
      ItemKeys(s, r, key);
      ListedKind(s, kind, key);
    }
    assert forall key | key in ListedOf(s, kind) :: key.kind == kind;
  }

  /**
    For each kind counted per capability surface, the listed histogram sums to the figures of the surface rows exactly
    when no surface serves an item twice.
  */
  lemma ListedAddsUp(s: Setting, calls: seq<Call>, kind: Kind, kinds: map<Kind, Histogram>, rows: seq<SurfaceRow>)
    requires kind in GRAIN_KINDS
    requires var items := FillAll(s, FoldCalls(s, calls)).items;
             CountsKinds(items, items.Keys, kinds)
    requires SurfaceRows(s, rows)
    ensures Total(HistogramAt(kinds, kind)) == SumFigures(rows, kind) <==> EachOnceIn(s, kind)
  {
    hide FillAll, FoldCalls, SumFigures, Total, Bar, ListedIn, ListedOf, EachOnceIn, SurfaceRows;
    ListedCells(s, calls, kind);
    RowsAddUp(s, kind, rows);
  }

  /** A classification, and what the static pass makes of it. */
  ghost function AfterStatic(s: Setting, calls: seq<Call>, st: Static, skips: seq<Skip>): Classes {
    var r := FoldCalls(s, calls);
    ApplyStatic(s, st, skips, r.elicited, FillAll(s, r))
  }

  lemma FlowsHaveCells(s: Setting, r: Record)
    ensures FlowKeys(s.catalog, FillAll(s, r).cells) <= FillAll(s, r).items.Keys
  {
    hide Listed, Interactive, FlowAt, FacetAt, FacetKeys, FillActions;
  }

  /** The static pass moves no figure: each histogram, summed, is what it was and what it is counted against. */
  lemma StaticKeepsFigures(s: Setting, calls: seq<Call>, st: Static, skips: seq<Skip>)
    ensures var c := FillAll(s, FoldCalls(s, calls));
            var after := AfterStatic(s, calls, st, skips);
            && AllSettled(after.cells) && AllSettled(after.items) && after.cells.Keys == c.cells.Keys
            && (forall kind :: ListedIn(after.items, after.items.Keys, kind) == ListedIn(c.items, c.items.Keys, kind))
            && forall surface | GoodCatalog(s.catalog) && ShapeKey(surface, MODE_DEFAULT) in s.served.shapes ::
                 |OnSurface(after.cells.Keys, surface)| == |s.catalog.ids|
  {
    var r := FoldCalls(s, calls);
    EverySettled(s, r);
    FlowsHaveCells(s, r);
    StaticKeepsCells(s, st, skips, r.elicited, FillAll(s, r));
    hide FillAll, FoldCalls, ApplyStatic, FillActions;
    forall surface | GoodCatalog(s.catalog) && ShapeKey(surface, MODE_DEFAULT) in s.served.shapes
      ensures |OnSurface(AfterStatic(s, calls, st, skips).cells.Keys, surface)| == |s.catalog.ids|
    {
      DefaultModeAddsUp(s, calls, surface);
    }
  }

  // ---------------------------------------------------------------- the levels

  predicate AssertedOn(cells: map<ActionKey, Cell>, surface: string, id: string) {
    var key := ActionKey(ShapeKey(surface, MODE_DEFAULT), id);
    key in cells && cells[key].state == Some(Asserted)
  }

  const ALL_SURFACES := [SURFACE_DYNAMIC, SURFACE_META, SURFACE_INDIVIDUAL]

  predicate OnAny(cells: map<ActionKey, Cell>, id: string) {
    AssertedOn(cells, SURFACE_DYNAMIC, id) || AssertedOn(cells, SURFACE_META, id) || AssertedOn(cells, SURFACE_INDIVIDUAL, id)
  }

  predicate OnAll(cells: map<ActionKey, Cell>, id: string) {
    AssertedOn(cells, SURFACE_DYNAMIC, id) && AssertedOn(cells, SURFACE_META, id) && AssertedOn(cells, SURFACE_INDIVIDUAL, id)
  }

  datatype Level = OnAnySurface | OnDynamic | OnAllSurfaces

  predicate Reaches(cells: map<ActionKey, Cell>, id: string, level: Level) {
    match level
    case OnAnySurface => OnAny(cells, id)
    case OnDynamic => AssertedOn(cells, SURFACE_DYNAMIC, id)
    case OnAllSurfaces => OnAll(cells, id)
  }

  /** The actions that reach a level, in the order they are given. */
  function LevelIds(cells: map<ActionKey, Cell>, ids: seq<string>, level: Level): seq<string> {
    if ids == [] then []
    else
      var last := ids[|ids| - 1];
      LevelIds(cells, ids[..|ids| - 1], level) + if Reaches(cells, last, level) then [last] else []
  }

  /** One action's row: its state on every surface that ran, and the levels it reaches. */
  datatype ActionRow = ActionRow(id: string, states: map<string, Option<State>>, l1: bool, l2: bool, l3: bool)

  ghost predicate IsActionRow(cells: map<ActionKey, Cell>, row: ActionRow, id: string) {
    && row.id == id
    && (forall surface :: surface in row.states
          <==> surface in ALL_SURFACES && ActionKey(ShapeKey(surface, MODE_DEFAULT), id) in cells)
    && (forall surface | surface in row.states && ActionKey(ShapeKey(surface, MODE_DEFAULT), id) in cells ::
          row.states[surface] == cells[ActionKey(ShapeKey(surface, MODE_DEFAULT), id)].state)
    && row.l1 == Reaches(cells, id, OnAnySurface) && row.l2 == Reaches(cells, id, OnDynamic)
    && row.l3 == Reaches(cells, id, OnAllSurfaces)
  }

  /** actionRows: a row per catalog action in catalog order, and the actions of each level in that order. */
  method ActionRows(ids: seq<string>, cells: map<ActionKey, Cell>)
    returns (rows: seq<ActionRow>, l1: seq<string>, l2: seq<string>, l3: seq<string>)
    ensures |rows| == |ids| && forall i | 0 <= i < |ids| :: IsActionRow(cells, rows[i], ids[i])
    ensures l1 == LevelIds(cells, ids, OnAnySurface) && l2 == LevelIds(cells, ids, OnDynamic)
    ensures l3 == LevelIds(cells, ids, OnAllSurfaces)
    ensures (forall id | id in l3 :: id in l2) && forall id | id in l2 :: id in l1
  {
    hide AssertedOn, IsActionRow, LevelIds;
    rows, l1, l2, l3 := [], [], [], [];
    NoneReach(cells);
    for i := 0 to |ids|
      invariant |rows| == i && forall j | 0 <= j < i :: IsActionRow(cells, rows[j], ids[j])
      invariant l1 == LevelIds(cells, ids[..i], OnAnySurface) && l2 == LevelIds(cells, ids[..i], OnDynamic)
      invariant l3 == LevelIds(cells, ids[..i], OnAllSurfaces)
    {
      var id := ids[i];
      OneMoreReaches(cells, ids, i);
      var states, asserted := StatesOf(cells, id);
      var row := ActionRow(id, states, asserted > 0, Some(Some(Asserted)) == StateAt(states, SURFACE_DYNAMIC),
                           asserted == |ALL_SURFACES|);
      DynamicState(cells, states, id);
      assert IsActionRow(cells, row, id) by {
        RowIs(cells, row, id);
      }
      if row.l1 {
        l1 := l1 + [id];
      }
      if row.l2 {
        l2 := l2 + [id];
      }
      if row.l3 {
        l3 := l3 + [id];
      }
      rows := rows + [row];
    }
    assert ids[..|ids|] == ids;
    LevelsWithin(cells, ids);
  }

  function StateAt(states: map<string, Option<State>>, surface: string): Option<Option<State>> {
    if surface in states then Some(states[surface]) else None
  }

  lemma NoneReach(cells: map<ActionKey, Cell>)
    ensures forall level :: LevelIds(cells, [], level) == []
  {}

  lemma OneMoreReaches(cells: map<ActionKey, Cell>, ids: seq<string>, i: nat)
    requires i < |ids|
    ensures forall level :: LevelIds(cells, ids[..i + 1], level)
                         == LevelIds(cells, ids[..i], level) + if Reaches(cells, ids[i], level) then [ids[i]] else []
  {
    hide Reaches;
    assert ids[..i + 1][..i] == ids[..i];
  }

  lemma {:induction false} LevelMembers(cells: map<ActionKey, Cell>, ids: seq<string>, level: Level)
    ensures forall id :: id in LevelIds(cells, ids, level) <==> id in ids && Reaches(cells, id, level)
  {
    hide Reaches;
    if ids == [] {
    } else {
      LevelMembers(cells, ids[..|ids| - 1], level);
      assert ids == ids[..|ids| - 1] + [ids[|ids| - 1]];
    }
  }

  /** Each level is contained in the next wider one. */
  lemma LevelsWithin(cells: map<ActionKey, Cell>, ids: seq<string>)
    ensures forall id | id in LevelIds(cells, ids, OnAllSurfaces) :: id in LevelIds(cells, ids, OnDynamic)
    ensures forall id | id in LevelIds(cells, ids, OnDynamic) :: id in LevelIds(cells, ids, OnAnySurface)
  {
    hide AssertedOn, LevelIds;
    LevelMembers(cells, ids, OnAllSurfaces);
    LevelMembers(cells, ids, OnDynamic);
    LevelMembers(cells, ids, OnAnySurface);
  }

  /** A row's states, as the inner loop leaves them over the first n surfaces. */
  ghost predicate StatesUpTo(cells: map<ActionKey, Cell>, states: map<string, Option<State>>, id: string, n: nat)
    requires n <= |ALL_SURFACES|
  {
    && (forall surface :: surface in states
          <==> surface in ALL_SURFACES[..n] && ActionKey(ShapeKey(surface, MODE_DEFAULT), id) in cells)
    && forall surface | surface in states && ActionKey(ShapeKey(surface, MODE_DEFAULT), id) in cells ::
         states[surface] == cells[ActionKey(ShapeKey(surface, MODE_DEFAULT), id)].state
  }

  lemma RowIs(cells: map<ActionKey, Cell>, row: ActionRow, id: string)
    requires row.id == id && StatesUpTo(cells, row.states, id, |ALL_SURFACES|)
    requires row.l1 == Reaches(cells, id, OnAnySurface) && row.l2 == Reaches(cells, id, OnDynamic)
    requires row.l3 == Reaches(cells, id, OnAllSurfaces)
    ensures IsActionRow(cells, row, id)
  {
    hide Reaches;
    assert ALL_SURFACES[..|ALL_SURFACES|] == ALL_SURFACES;
  }

  lemma DynamicState(cells: map<ActionKey, Cell>, states: map<string, Option<State>>, id: string)
    requires StatesUpTo(cells, states, id, |ALL_SURFACES|)
    ensures Some(Some(Asserted)) == StateAt(states, SURFACE_DYNAMIC) <==> AssertedOn(cells, SURFACE_DYNAMIC, id)
  {
    assert ALL_SURFACES[..|ALL_SURFACES|] == ALL_SURFACES;
    assert ALL_SURFACES[0] in ALL_SURFACES;
  }

  function Tally(cells: map<ActionKey, Cell>, id: string, n: nat): nat
    requires n <= 3
  {
    if n == 0 then 0 else Tally(cells, id, n - 1) + if AssertedOn(cells, ALL_SURFACES[n - 1], id) then 1 else 0
  }

  lemma TallyOfThree(cells: map<ActionKey, Cell>, id: string)
    ensures Tally(cells, id, 3) > 0 <==> OnAny(cells, id)
    ensures Tally(cells, id, 3) == 3 <==> OnAll(cells, id)
  {
    hide AssertedOn;
    assert Tally(cells, id, 1) == if AssertedOn(cells, SURFACE_DYNAMIC, id) then 1 else 0;
    assert Tally(cells, id, 2) == Tally(cells, id, 1) + if AssertedOn(cells, SURFACE_META, id) then 1 else 0;
  }

  /** The inner loop of actionRows. */
  method StatesOf(cells: map<ActionKey, Cell>, id: string) returns (states: map<string, Option<State>>, asserted: nat)
    ensures StatesUpTo(cells, states, id, |ALL_SURFACES|)
    ensures asserted > 0 <==> OnAny(cells, id)
    ensures asserted == |ALL_SURFACES| <==> OnAll(cells, id)
  {
    hide OnAny, OnAll;
    states, asserted := map[], 0;
    assert ALL_SURFACES[..0] == [];
    for j := 0 to |ALL_SURFACES|
      invariant StatesUpTo(cells, states, id, j)
      invariant asserted == Tally(cells, id, j)
    {
      var key := ActionKey(ShapeKey(ALL_SURFACES[j], MODE_DEFAULT), id);
      assert ALL_SURFACES[..j + 1] == ALL_SURFACES[..j] + [ALL_SURFACES[j]];
      if key !in cells {
        continue;
      }
      states := states[ALL_SURFACES[j] := cells[key].state];
      if cells[key].state == Some(Asserted) {
        asserted := asserted + 1;
      }
    }
    TallyOfThree(cells, id);
  }

  /** The static pass asserts nothing: a level it leaves is one that was there. */
  lemma {:induction false} StaticAssertsNothing(s: Setting, st: Static, skips: seq<Skip>, cells: map<ActionKey, Cell>,
                                                surface: string, id: string)
    ensures AssertedOn(SkipAll(s, st, skips, Unassert(st, cells)), surface, id)
       <==> AssertedOn(cells, surface, id) && id !in st.unasserted
  {
    hide NamedBy, Add;
    if skips == [] {
    } else {
      StaticAssertsNothing(s, st, skips[..|skips| - 1], cells, surface, id);
      SkipAssertsNothing(s, st, skips[|skips| - 1], SkipAll(s, st, skips[..|skips| - 1], Unassert(st, cells)), surface, id);
    }
  }

  lemma SkipAssertsNothing(s: Setting, st: Static, skip: Skip, cells: map<ActionKey, Cell>, surface: string, id: string)
    ensures AssertedOn(SkipOne(s, st, skip, cells), surface, id) <==> AssertedOn(cells, surface, id)
  {
    hide NamedBy, Bumped, Behind, Better;
  }
}
