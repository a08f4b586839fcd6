/**
  The classification as it runs: maps of cells filled in place, one loop after another.

  Every method is held to the functions of the modules beside it, so `Run` gives exactly the classification whose
  properties are proved there. Loops over Go maps take their keys in any order.
*/
module Classification {
  import opened CallFold
  import opened CallRecords
  import opened CellFill
  import opened Cells
  import opened Outcomes
  import opened Sessions
  import opened StringOrder
  import opened UriTemplates

  /** markAll */
  method MarkAll(marked: set<string>, names: seq<string>) returns (r: set<string>)
    ensures r == marked + Names(names)
  {
    r := marked;
    for i := 0 to |names|
      invariant r == marked + Names(names[..i])
    {
      assert names[..i + 1] == names[..i] + [names[i]];
      r := r + {names[i]};
    }
    assert names[..|names|] == names;
  }

  // ---------------------------------------------------------------- loops over cells

  /** Some keys of the grid are settled, and nothing else has changed. */
  ghost predicate PartFilled(s: Setting, before: map<ActionKey, Cell>, cells: map<ActionKey, Cell>, keys: set<ActionKey>) {
    && keys <= Grid(s) && cells.Keys == before.Keys + keys
    && (forall key | key in keys :: cells[key] == SettledAction(s, before, key))
    && forall key | key in before && key !in keys :: cells[key] == before[key]
  }

  lemma FillOneMore(s: Setting, before: map<ActionKey, Cell>, cells: map<ActionKey, Cell>, keys: set<ActionKey>,
                    key: ActionKey)
    requires PartFilled(s, before, cells, keys) && key in Grid(s)
    ensures PartFilled(s, before, cells[key := SettledAction(s, cells, key)], keys + {key})
  {
    hide CannotServeAt, Grid;
  }

  /** The keys visited by the second loop are settled, and those the first one filled already were. */
  ghost predicate RestFilled(s: Setting, before: map<ActionKey, Cell>, cells: map<ActionKey, Cell>, left: set<ActionKey>) {
    && cells.Keys == before.Keys + Grid(s)
    && forall key | key in cells ::
         if key in left && key !in Grid(s) then key in before && cells[key] == before[key]
         else cells[key] == SettledAction(s, before, key)
  }

  lemma AllFilledRest(s: Setting, before: map<ActionKey, Cell>, cells: map<ActionKey, Cell>)
    requires PartFilled(s, before, cells, Grid(s))
    ensures RestFilled(s, before, cells, cells.Keys)
  {
    hide Grid, SettledAction;
  }

  lemma RestOneLess(s: Setting, before: map<ActionKey, Cell>, cells: map<ActionKey, Cell>, left: set<ActionKey>,
                    key: ActionKey)
    requires RestFilled(s, before, cells, left) && Unsettled(before) && key in left && key in cells
    ensures RestFilled(s, before,
              if cells[key].state == None then cells[key := cells[key].(state := Some(Settle(cells[key], false)))] else cells,
              left - {key})
  {
    hide Grid, CannotServeAt, Settle;
  }

  lemma NoneLeft(s: Setting, before: map<ActionKey, Cell>, cells: map<ActionKey, Cell>)
    requires RestFilled(s, before, cells, {})
    ensures cells == FillActions(s, before)
  {
    hide Grid, SettledAction;
  }

  // ---------------------------------------------------------------- loops over capability items

  /** Some listed items are settled and listed, and nothing else has changed. */
  ghost predicate PartListed(before: map<CapabilityKey, Cell>, cells: map<CapabilityKey, Cell>, keys: set<CapabilityKey>) {
    && cells.Keys == before.Keys + keys
    && (forall key | key in keys :: cells[key] == SettledItem(keys, before, key))
    && forall key | key in before && key !in keys :: cells[key] == before[key]
  }

  lemma ListOneMore(before: map<CapabilityKey, Cell>, cells: map<CapabilityKey, Cell>, keys: set<CapabilityKey>,
                    key: CapabilityKey)
    requires PartListed(before, cells, keys)
    ensures var c := At(cells, key, NEW_CELL).(unlisted := false);
            PartListed(before, cells[key := c.(state := Some(Settle(c, false)))], keys + {key})
  {
    hide CreditState;
  }

  ghost predicate RestListed(before: map<CapabilityKey, Cell>, cells: map<CapabilityKey, Cell>, listed: set<CapabilityKey>,
                             left: set<CapabilityKey>) {
    && cells.Keys == before.Keys + listed
    && forall key | key in cells ::
         if key in left && key !in listed then key in before && cells[key] == before[key]
         else cells[key] == SettledItem(listed, before, key)
  }

  lemma AllListedRest(before: map<CapabilityKey, Cell>, cells: map<CapabilityKey, Cell>, listed: set<CapabilityKey>)
    requires PartListed(before, cells, listed)
    ensures RestListed(before, cells, listed, cells.Keys)
  {
    hide SettledItem;
  }

  lemma ListRestOneLess(before: map<CapabilityKey, Cell>, cells: map<CapabilityKey, Cell>, listed: set<CapabilityKey>,
                        left: set<CapabilityKey>, key: CapabilityKey)
    requires RestListed(before, cells, listed, left) && Unsettled(before) && key in left && key in cells
    ensures RestListed(before,
              if cells[key].state == None then cells[key := cells[key].(state := Some(Settle(cells[key], false)))] else cells,
              listed, left - {key})
  {
    hide Settle;
  }

  lemma NoneUnlisted(before: map<CapabilityKey, Cell>, cells: map<CapabilityKey, Cell>, listed: set<CapabilityKey>)
    requires RestListed(before, cells, listed, {})
    ensures cells == FillItems(listed, before)
  {
    hide SettledItem;
  }

  // ---------------------------------------------------------------- the classification

  class Classification {
    const server: Server
    const catalog: Catalog
    var shapes: map<ShapeKey, SessionShape>
    var surfaces: map<string, CapabilityShape>
    var cells: map<ActionKey, Cell>
    var items: map<CapabilityKey, Cell>
    var delivered: set<CapabilityKey>
    var elicited: set<string>
    var modes: map<ShapeKey, Evidence>

    function TheSetting(): Setting
      reads this
    {
      Setting(server, catalog, Served(shapes, surfaces))
    }

    function TheRecord(): Record
      reads this
    {
      Record(cells, items, delivered, elicited, modes)
    }

    constructor (server: Server, catalog: Catalog)
      ensures this.server == server && this.catalog == catalog
      ensures shapes == map[] && surfaces == map[] && TheRecord() == NO_RECORD
    {
      this.server, this.catalog := server, catalog;
      shapes, surfaces, cells, items, delivered, elicited, modes := map[], map[], map[], map[], {}, {}, map[];
    }

    /** foldSessions */
    method FoldSessionLines(sessions: seq<Session>)
      requires shapes == map[] && surfaces == map[]
      modifies this`shapes, this`surfaces
      ensures Served(shapes, surfaces) == FoldSessions(server, sessions)
    {
      hide WithCapabilities, FoldSession;
      for i := 0 to |sessions|
        invariant Served(shapes, surfaces) == FoldSessions(server, sessions[..i])
      {
        assert sessions[..i + 1][..i] == sessions[..i];
        FoldSessionLine(sessions[i]);
      }
      assert sessions[..|sessions|] == sessions;
    }

    /** The body of foldSessions' loop. */
    method FoldSessionLine(session: Session)
      modifies this`shapes, this`surfaces
      ensures Served(shapes, surfaces) == FoldSession(server, old(Served(shapes, surfaces)), session)
    {
      hide WithCapabilities, Names;
      if session.fineGrained {
        return;
      }
      var key := ShapeOf(session);
      var shape := if key in shapes then shapes[key] else NEW_SHAPE;
      var tools := MarkAll(shape.tools, session.tools);
      shape := shape.(sessions := shape.sessions + 1, tools := tools);
      if session.dispatchObserved {
      } else if session.idle {
        shape := shape.(idle := shape.idle + 1);
      } else {
        shape := shape.(observed := false);
      }
      shapes := shapes[key := shape];
      FoldCapabilitySession(session);
    }

    /** foldCapabilitySession */
    method FoldCapabilitySession(session: Session)
      modifies this`surfaces
      ensures var capabilities := EffectiveCapabilitySurface(session.capabilities);
              var surface := if capabilities in old(surfaces) then old(surfaces)[capabilities] else NEW_SURFACE;
              surfaces == old(surfaces)[capabilities := WithCapabilities(server, surface, session)]
    {
      hide MergeSorted;
      var key := ShapeOf(session);
      var capabilities := EffectiveCapabilitySurface(session.capabilities);
      var surface := if capabilities in surfaces then surfaces[capabilities] else NEW_SURFACE;
      var manifest := if key in surface.shapes then surface.shapes[key] else {};
      ghost var had := manifest;
      var listed := session.resources + session.templates;
      for i := 0 to |listed|
        invariant manifest == had + set uri | uri in listed[..i] && uri in server.manifest
      {
        assert listed[..i + 1] == listed[..i] + [listed[i]];
        if listed[i] in server.manifest {
          manifest := manifest + {listed[i]};
        }
      }
      assert listed[..|listed|] == listed;
      surface := CapabilityShape(
        MergeSorted(surface.resources, session.resources), MergeSorted(surface.templates, session.templates),
        MergeSorted(surface.prompts, session.prompts), MergeSorted(surface.completions, session.completions),
        MergeSorted(surface.kinds, session.kinds), surface.shapes[key := manifest], surface.sessions + 1);
      surfaces := surfaces[capabilities := surface];
    }

    // -------------------------------------------------------------- the call lines

    /** noteMode */
    method NoteMode(shape: ShapeKey, action: Action, test: string, earned: Credit)
      modifies this`modes
      ensures modes == Noted(old(modes), shape, NoteOf(action, earned), test)
    {
      if shape.mode == MODE_DEFAULT {
        return;
      }
      var evidence := EvidenceAt(modes, shape);
      if earned == CreditFailed {
        evidence := evidence.(failed := evidence.failed + {test});
      } else if earned == CreditPreview && !action.readOnly {
        evidence := evidence.(previews := evidence.previews + {test});
      } else if (earned == CreditRefused || earned == CreditErrorPath) && !action.readOnly {
        evidence := evidence.(withheld := evidence.withheld + {test});
      } else if (earned == CreditAsserted || earned == CreditUnobserved || earned == CreditSweep) && action.readOnly {
        evidence := evidence.(readThrough := evidence.readThrough + {test});
      }
      modes := modes[shape := evidence];
    }

    /** foldToolCall */
    method FoldToolCall(call: Call)
      modifies this`cells, this`modes
      ensures TheRecord() == Apply(old(TheRecord()), ToolEffect(TheSetting(), call))
    {
      hide CreditOf, Add, Noted, NoteOf;
      var (earned, target) := CreditOf(call);
      if target == "" {
        return;
      }
      if target !in catalog.actions {
        return;
      }
      var key := ActionKey(ShapeOfCall(call), target);
      var found := At(cells, key, NEW_CELL);
      cells := cells[key := Add(found, earned, call.test)];
      NoteMode(key.shape, catalog.actions[target], call.test, earned);
    }

    /** resourceTarget */
    method ResourceTargetOf(capabilities: string, uri: string) returns (item: string)
      ensures item == ResourceTarget(TheSetting(), capabilities, uri)
    {
      hide TemplateMatch, MostSpecific, BestMatch;
      if capabilities !in surfaces {
        var template, matched := MatchTemplate(server.manifest, uri);
        BestMatchFound(server.manifest, uri, template, matched);
        return if matched then template else uri;
      }
      var served := surfaces[capabilities];
      if uri in served.resources {
        return uri;
      }
      var template, matched := MatchTemplate(served.templates, uri);
      BestMatchFound(served.templates, uri, template, matched);
      return if matched then template else uri;
    }

    /** foldCapability */
    method FoldCapability(kind: Kind, call: Call, item: string)
      modifies this`items
      ensures TheRecord() == Apply(old(TheRecord()), CapabilityEffect(kind, call, item))
    {
      hide CreditOfOutcome, Add, KeyFor;
      if item == "" {
        return;
      }
      var key := KeyFor(kind, ShapeOfCall(call), EffectiveCapabilitySurface(call.capabilities), item);
      var found := NEW_CELL;
      if key in items {
        found := items[key];
      } else {
        found := found.(unlisted := true);
      }
      items := items[key := Add(found, CreditOfOutcome(call), call.test)];
    }

    /** foldCall */
    method FoldCallLine(call: Call)
      modifies this`cells, this`items, this`delivered, this`elicited, this`modes
      ensures TheRecord() == Apply(old(TheRecord()), EffectOf(TheSetting(), call))
    {
      hide ToolEffect, CapabilityEffect, ResourceTarget, KeyFor, Credited, Noted;
      var capabilities := EffectiveCapabilitySurface(call.capabilities);
      if call.method_ == METHOD_CALL_TOOL {
        FoldToolCall(call);
      } else if call.method_ == METHOD_READ_RESOURCE {
        var item := ResourceTargetOf(capabilities, call.target);
        FoldCapability(ResourceKind(TheSetting(), item), call, item);
      } else if call.method_ == METHOD_GET_PROMPT {
        FoldCapability(Prompts, call, call.target);
      } else if call.method_ == METHOD_COMPLETE {
        FoldCapability(Completions, call, call.target);
      } else if call.method_ == METHOD_SUBSCRIBE || call.method_ == METHOD_LISTEN {
        FoldCapability(Subscriptions, call, SubscriptionKind(TheSetting(), call.target));
      } else if call.method_ == METHOD_ELICIT {
        if call.testStatus == STATUS_PASSED {
          elicited := elicited + {call.test};
        }
      } else if call.method_ == METHOD_RESOURCE_UPDATED {
        if call.testStatus == STATUS_PASSED {
          delivered := delivered
            + {KeyFor(Subscriptions, ShapeOfCall(call), capabilities, SubscriptionKind(TheSetting(), call.target))};
        }
      }
    }

    /** The loop over the call lines in classify. */
    method FoldCallLines(calls: seq<Call>)
      requires TheRecord() == NO_RECORD
      modifies this`cells, this`items, this`delivered, this`elicited, this`modes
      ensures TheRecord() == FoldCalls(TheSetting(), calls)
    {
      hide Apply, EffectOf;
      for i := 0 to |calls|
        invariant TheRecord() == FoldCalls(TheSetting(), calls[..i])
      {
        assert calls[..i + 1][..i] == calls[..i];
        if calls[i].fineGrained {
          continue;
        }
        FoldCallLine(calls[i]);
      }
      assert calls[..|calls|] == calls;
    }

    // -------------------------------------------------------------- filling

    /** fillActionCells */
    method FillActionCells()
      requires Unsettled(cells)
      modifies this`cells
      ensures cells == FillActions(TheSetting(), old(cells))
    {
      hide PartFilled, RestFilled, SettledAction, FillActions, CannotServe;
      ghost var s := TheSetting();
      ghost var before := cells;
      var left := shapes.Keys;
      NothingFilled(s, before);
      ghost var done: set<ActionKey> := {};
      while left != {}
        invariant left <= shapes.Keys && TheSetting() == s
        invariant done == set shape, id | shape in shapes.Keys - left && id in catalog.ids :: ActionKey(shape, id)
        invariant PartFilled(s, before, cells, done)
      {
        var shape :| shape in left;
        ghost var row := done;
        left := left - {shape};
        for i := 0 to |catalog.ids|
          invariant TheSetting() == s
          invariant done == row + set id | id in catalog.ids[..i] :: ActionKey(shape, id)
          invariant PartFilled(s, before, cells, done)
        {
          var id := catalog.ids[i];
          assert catalog.ids[..i + 1] == catalog.ids[..i] + [id];
          var key := ActionKey(shape, id);
          FillOneMore(s, before, cells, done, key);
          SettleAt(key);
          done := done + {key};
        }
        assert catalog.ids[..|catalog.ids|] == catalog.ids;
      }
      assert done == Grid(s);
      FillOrphans(before);
    }

    /** One cell of the grid, made and settled. */
    method SettleAt(key: ActionKey)
      requires key in Grid(TheSetting())
      modifies this`cells
      ensures cells == old(cells)[key := SettledAction(TheSetting(), old(cells), key)]
    {
      hide CannotServe;
      var found := At(cells, key, NEW_CELL);
      var unservable := key.action in catalog.actions && CannotServe(shapes, key.shape, catalog.actions[key.action]);
      cells := cells[key := found.(state := Some(Settle(found, unservable)))];
    }

    /** The second loop of fillActionCells: cells a call created on a shape no session line named. */
    method FillOrphans(ghost before: map<ActionKey, Cell>)
      requires PartFilled(TheSetting(), before, cells, Grid(TheSetting())) && Unsettled(before)
      modifies this`cells
      ensures cells == FillActions(TheSetting(), before)
    {
      hide PartFilled, RestFilled, SettledAction, FillActions, Grid, Settle;
      ghost var s := TheSetting();
      AllFilledRest(s, before, cells);
      var left := cells.Keys;
      while left != {}
        invariant left <= cells.Keys && TheSetting() == s
        invariant RestFilled(s, before, cells, left)
      {
        var key :| key in left;
        RestOneLess(s, before, cells, left, key);
        left := left - {key};
        if cells[key].state == None {
          cells := cells[key := cells[key].(state := Some(Settle(cells[key], false)))];
        }
      }
      NoneLeft(s, before, cells);
    }

    /** settleCapability */
    method SettleCapability(key: CapabilityKey)
      modifies this`items
      ensures var c := At(old(items), key, NEW_CELL).(unlisted := false);
              items == old(items)[key := c.(state := Some(Settle(c, false)))]
    {
      var found := At(items, key, NEW_CELL);
      found := found.(unlisted := false);
      items := items[key := found.(state := Some(Settle(found, false)))];
    }

    /** The loops of fillCapabilityCells over what the sessions served. */
    method SettleServed(keys: set<CapabilityKey>)
      modifies this`items
      ensures PartListed(old(items), items, keys)
    {
      hide PartListed, Settle;
      var left := keys;
      ghost var before := items;
      NothingListed(before);
      assert keys - left == {};
      while left != {}
        invariant left <= keys
        invariant PartListed(before, items, keys - left)
      {
        var key :| key in left;
        ListOneMore(before, items, keys - left, key);
        assert keys - (left - {key}) == (keys - left) + {key};
        left := left - {key};
        SettleCapability(key);
      }
      assert keys - left == keys;
    }

    /** fillCapabilityCells, up to the elicitation flows. */
    method FillCapabilityItems()
      requires Unsettled(items)
      modifies this`items
      ensures items == FillItems(Listed(TheSetting()), old(items))
    {
      hide PartListed, RestListed, FillItems, Listed, Settle;
      ghost var before := items;
      var listed := Listed(TheSetting());
      SettleServed(listed);
      AllListedRest(before, items, listed);
      var left := items.Keys;
      while left != {}
        invariant left <= items.Keys
        invariant RestListed(before, items, listed, left)
      {
        var key :| key in left;
        ListRestOneLess(before, items, listed, left, key);
        left := left - {key};
        if items[key].state == None {
          items := items[key := items[key].(state := Some(Settle(items[key], false)))];
        }
      }
      NoneUnlisted(before, items, listed);
    }

    /** anyElicited */
    predicate AnyElicited(tests: set<string>)
      reads this
    {
      exists test | test in tests :: test in elicited
    }

    /** fillElicitationCells */
    method FillElicitationCells()
      modifies this`items
      ensures items == WithFlows(catalog, cells, elicited, old(items))
    {
      hide Interactive, FlowOf, PartFlows, FlowKey;
      ghost var before := items;
      var left := cells.Keys;
      NoFlows(catalog, cells, elicited, before);
      while left != {}
        invariant left <= cells.Keys
        invariant PartFlows(catalog, cells, elicited, before, items, cells.Keys - left)
      {
        var key :| key in left;
        assert cells.Keys - (left - {key}) == (cells.Keys - left) + {key};
        left := left - {key};
        FlowOneMore(catalog, cells, elicited, before, items, cells.Keys - left - {key}, key);
        assert cells.Keys - left == cells.Keys - left - {key} + {key};
        if !Interactive(catalog, key) {
          continue;
        }
        DeriveFlow(key);
      }
      assert cells.Keys - left == cells.Keys;
      AllFlows(catalog, cells, elicited, before, items);
    }

    /** One flow, copied from the action's cell. */
    method DeriveFlow(key: ActionKey)
      requires key in cells
      modifies this`items
      ensures items == old(items)[FlowKey(key) :=
                FlowOf(cells[key], elicited, At(old(items), FlowKey(key), NEW_CELL).unlisted)]
    {
      hide FlowKey;
      var found := cells[key];
      var flow := At(items, FlowKey(key), NEW_CELL);
      flow := flow.(best := found.best, state := found.state, tests := found.tests, counts := found.counts);
      if flow.state == Some(Asserted) && !AnyElicited(TestsOf(found, CreditAsserted)) {
        flow := flow.(state := Some(ErrorPathOnly));
      }
      items := items[FlowKey(key) := flow];
    }

    /** settleFacet */
    method SettleFacet(key: CapabilityKey, shown: set<string>, failed: set<string>)
      requires key !in items
      modifies this`items
      ensures items == old(items)[key := FacetCell(shown, failed)]
    {
      hide AllOf, Settle;
      var found := AddAll(CreditAsserted, shown);
      AllOfIs(CreditAsserted, shown);
      if found.best == NoCredit {
        found := AddAll(CreditFailed, failed);
        AllOfIs(CreditFailed, failed);
      }
      FacetSettles(shown, failed);
      items := items[key := found.(state := Some(Settle(found, false)))];
    }

    /** fillModeCells */
    method FillModeCells()
      requires items.Keys !! FacetKeys(shapes)
      modifies this`items
      ensures items == WithModes(shapes, modes, old(items))
    {
      hide FacetKeys, FacetAt, FacetCell;
      ghost var before := items;
      var keys := FacetKeys(shapes);
      var left := keys;
      while left != {}
        invariant left <= keys
        invariant items.Keys == before.Keys + (keys - left)
        invariant forall k | k in keys - left :: items[k] == FacetAt(modes, k)
        invariant forall k | k in before :: items[k] == before[k]
      {
        var key :| key in left;
        left := left - {key};
        FacetAtIs(modes, key);
        SettleFacet(key, Shown(modes, key.shape, key.item), EvidenceAt(modes, key.shape).failed);
      }
    }

    /** classify */
    method Run(sessions: seq<Session>, calls: seq<Call>)
      requires shapes == map[] && surfaces == map[] && TheRecord() == NO_RECORD
      modifies this
      ensures TheSetting() == SettingOf(server, catalog, sessions)
      ensures Classes(cells, items) == Classify(server, catalog, sessions, calls)
      ensures elicited == FoldCalls(TheSetting(), calls).elicited
    {
      hide FoldSessions, FoldCalls, FillActions, FillItems, WithFlows, WithModes, FacetKeys, Listed;
      FoldSessionLines(sessions);
      FoldCallLines(calls);
      ghost var folded := TheRecord();
      FoldedUnsettled(TheSetting(), calls);
      assert Unsettled(cells) && Unsettled(items);
      FillActionCells();
      FillCapabilityItems();
      FillElicitationCells();
      NoFacetsYet(TheSetting(), folded, cells, elicited);
      FillModeCells();
    }

    // -------------------------------------------------------------- the static pass

    /** The first loop of applyStatic. */
    method UnassertCells(st: Static)
      modifies this`cells
      ensures cells == Unassert(st, old(cells))
    {
      ghost var before := cells;
      var left := cells.Keys;
      while left != {}
        invariant left <= cells.Keys == before.Keys
        invariant forall key | key in cells :: cells[key] == if key in left then before[key] else UnassertedCell(st, key, before[key])
      {
        var key :| key in left;
        left := left - {key};
        if cells[key].state == Some(Asserted) && key.action in st.unasserted {
          cells := cells[key := cells[key].(state := Some(Unasserted))];
        }
      }
    }

    /** What one skipped test does to the cells: the inner loops of applyStatic's second one. */
    method SkipCells(st: Static, skip: Skip)
      modifies this`cells
      ensures cells == SkipOne(TheSetting(), st, skip, old(cells))
    {
      hide Add, NamedBy;
      ghost var before := cells;
      var named := NamedBy(st, skip);
      var left := set id, shape | id in named && shape in shapes :: ActionKey(shape, id);
      while left != {}
        invariant cells.Keys == before.Keys
        invariant forall key | key in left :: key.shape in shapes && key.action in named
        invariant forall key | key in cells ::
                    cells[key] == if key in left then before[key] else SkippedCell(TheSetting(), st, skip, key, before[key])
      {
        var key :| key in left;
        left := left - {key};
        if key in cells && cells[key].state == Some(Absent) {
          cells := cells[key := Add(cells[key].(state := Some(Skipped)), CreditSkipped, skip.test)];
        }
      }
    }

    /** applyStatic */
    method ApplyStaticPass(st: Static, skips: seq<Skip>)
      modifies this`cells, this`items
      ensures Classes(cells, items) == ApplyStatic(TheSetting(), st, skips, elicited, old(Classes(cells, items)))
    {
      hide Unassert, SkipOne, WithFlows;
      UnassertCells(st);
      ghost var unasserted := cells;
      for i := 0 to |skips|
        invariant cells == SkipAll(TheSetting(), st, skips[..i], unasserted) && items == old(items)
      {
        assert skips[..i + 1][..i] == skips[..i];
        SkipCells(st, skips[i]);
      }
      assert skips[..|skips|] == skips;
      FillElicitationCells();
    }
  }

  // ---------------------------------------------------------------- what the methods rest on

  lemma NothingFilled(s: Setting, before: map<ActionKey, Cell>)
    ensures PartFilled(s, before, before, {})
  {}

  lemma NothingListed(before: map<CapabilityKey, Cell>)
    ensures PartListed(before, before, {})
  {}

  lemma BestMatchFound(templates: seq<string>, uri: string, best: string, found: bool)
    requires found <==> exists t :: t in templates && TemplateMatch(t, uri).Some?
    requires found ==> exists k: nat :: MostSpecific(templates, uri, k) && templates[k] == best
    ensures BestMatch(templates, uri) == if found then Some(best) else None
  {
    hide TemplateMatch;
    if found {
      var k: nat :| MostSpecific(templates, uri, k) && templates[k] == best;
      BestMatchIs(templates, uri, k);
    } else {
      NoBestMatch(templates, uri);
    }
  }

  ghost predicate PartFlows(catalog: Catalog, cells: map<ActionKey, Cell>, elicited: set<string>,
                            before: map<CapabilityKey, Cell>, items: map<CapabilityKey, Cell>, done: set<ActionKey>) {
    && (forall k :: k in items <==> k in before || exists key | key in done :: Interactive(catalog, key) && k == FlowKey(key))
    && (forall key | key in done && key in cells && Interactive(catalog, key) ::
          FlowKey(key) in items
          && items[FlowKey(key)] == FlowOf(cells[key], elicited, At(before, FlowKey(key), NEW_CELL).unlisted))
    && forall k | k in before && !(exists key | key in done :: Interactive(catalog, key) && k == FlowKey(key)) ::
         k in items && items[k] == before[k]
  }

  lemma NoFlows(catalog: Catalog, cells: map<ActionKey, Cell>, elicited: set<string>, before: map<CapabilityKey, Cell>)
    ensures PartFlows(catalog, cells, elicited, before, before, cells.Keys - cells.Keys)
  {}

  lemma FlowOneMore(catalog: Catalog, cells: map<ActionKey, Cell>, elicited: set<string>,
                    before: map<CapabilityKey, Cell>, items: map<CapabilityKey, Cell>, done: set<ActionKey>, key: ActionKey)
    requires PartFlows(catalog, cells, elicited, before, items, done) && key in cells && key !in done
    ensures PartFlows(catalog, cells, elicited, before,
              if Interactive(catalog, key)
              then items[FlowKey(key) := FlowOf(cells[key], elicited, At(items, FlowKey(key), NEW_CELL).unlisted)]
              else items,
              done + {key})
  {
    hide Interactive, FlowOf;
  }

  lemma AllFlows(catalog: Catalog, cells: map<ActionKey, Cell>, elicited: set<string>,
                 before: map<CapabilityKey, Cell>, items: map<CapabilityKey, Cell>)
    requires PartFlows(catalog, cells, elicited, before, items, cells.Keys)
    ensures items == WithFlows(catalog, cells, elicited, before)
  {
    hide Interactive, FlowOf;
  }

  /** A cell that every one of some tests earned one credit. */
  function AllOf(credit: Credit, tests: set<string>): Cell {
    if tests == {} then NEW_CELL
    else Cell(credit, map[credit := tests], map[credit := |tests|], None, false)
  }

  /** The loop of settleFacet over the tests. */
  method AddAll(credit: Credit, tests: set<string>) returns (c: Cell)
    requires credit != NoCredit
    ensures c == AllOf(credit, tests)
  {
    c := NEW_CELL;
    var left := tests;
    while left != {}
      invariant left <= tests
      invariant c == AllOf(credit, tests - left)
    {
      var test :| test in left;
      ghost var done := tests - left;
      left := left - {test};
      assert tests - left == done + {test};
      AddOneMore(credit, done, test);
      c := Add(c, credit, test);
    }
    assert tests - left == tests;
  }

  lemma AddOneMore(credit: Credit, done: set<string>, test: string)
    requires credit != NoCredit && test !in done
    ensures Add(AllOf(credit, done), credit, test) == AllOf(credit, done + {test})
  {
    NoCreditIsLeast(credit);
    hide Rank;
  }

  lemma AllOfIs(credit: Credit, tests: set<string>)
    requires credit != NoCredit
    ensures AllOf(credit, tests).best == if tests == {} then NoCredit else credit
  {}

  lemma FacetSettles(shown: set<string>, failed: set<string>)
    ensures var found := if AllOf(CreditAsserted, shown).best == NoCredit then AllOf(CreditFailed, failed)
                         else AllOf(CreditAsserted, shown);
            found.(state := Some(Settle(found, false))) == FacetCell(shown, failed)
  {}

  lemma FacetAtIs(modes: map<ShapeKey, Evidence>, key: CapabilityKey)
    ensures FacetAt(modes, key) == FacetCell(Shown(modes, key.shape, key.item), EvidenceAt(modes, key.shape).failed)
  {}

  lemma NoFacetsYet(s: Setting, r: Record, cells: map<ActionKey, Cell>, elicited: set<string>)
    requires forall key | key in r.capabilities :: !key.kind.Modes?
    ensures WithFlows(s.catalog, cells, elicited, FillItems(Listed(s), r.capabilities)).Keys !! FacetKeys(s.served.shapes)
  {
    hide Interactive, FlowOf, FacetsOf, Items;
  }
}
