/**
  What the call lines of a run are evidence for, folded into action cells, capability cells and mode evidence.

  Each call has one effect and effects commute, so `OrderOfCalls` gives the same record for any order of the lines and
  `FineGrainedCallsAside` the same with the fine-grained lines deleted. `CellsCount` says what a cell holds in terms of
  the lines, and `ClassifiedLines` which lines those are.
*/
module CallFold {
  import opened CallRecords
  import opened Cells
  import opened Outcomes
  import opened Sessions
  import opened UriTemplates

  datatype Action = Action(domain: string, readOnly: bool, metaTool: string, individualTool: string)

  datatype Catalog = Catalog(actions: map<string, Action>, ids: seq<string>)

  datatype Setting = Setting(server: Server, catalog: Catalog, served: Served)

  /** What the calls on one protective shape showed of the mode. */
  datatype Evidence = Evidence(readThrough: set<string>, withheld: set<string>, previews: set<string>, failed: set<string>)

  const NO_EVIDENCE := Evidence({}, {}, {}, {})

  datatype Record = Record(
    cells: map<ActionKey, Cell>, capabilities: map<CapabilityKey, Cell>, delivered: set<CapabilityKey>,
    elicited: set<string>, modes: map<ShapeKey, Evidence>)

  const NO_RECORD := Record(map[], map[], {}, {}, map[])

  // ---------------------------------------------------------------- what one call is evidence for

  datatype Note = NoNote | NoteFailed | NotePreview | NoteWithheld | NoteRead

  datatype Effect =
    | NoEffect
    | Acted(key: ActionKey, earned: Credit, test: string, note: Note)
    | Reached(item: CapabilityKey, earned: Credit, test: string)
    | Elicits(test: string)
    | Delivers(item: CapabilityKey)

  /** noteMode, as what it says of one credit. */
  function NoteOf(action: Action, earned: Credit): Note {
    if earned == CreditFailed then NoteFailed
    else if earned == CreditPreview && !action.readOnly then NotePreview
    else if (earned == CreditRefused || earned == CreditErrorPath) && !action.readOnly then NoteWithheld
    else if (earned == CreditAsserted || earned == CreditUnobserved || earned == CreditSweep) && action.readOnly then NoteRead
    else NoNote
  }

  function ShapeOfCall(call: Call): ShapeKey {
    ShapeKey(call.surface, call.mode)
  }

  /** foldToolCall */
  function ToolEffect(s: Setting, call: Call): Effect {
    var (earned, target) := CreditOf(call);
    if target == "" || target !in s.catalog.actions then NoEffect
    else Acted(ActionKey(ShapeOfCall(call), target), earned, call.test, NoteOf(s.catalog.actions[target], earned))
  }

  /** matchTemplate's answer */
  ghost function BestMatch(templates: seq<string>, uri: string): Option<string> {
    if k: nat :| MostSpecific(templates, uri, k) then Some(templates[k]) else None
  }

  lemma BestMatchIs(templates: seq<string>, uri: string, k: nat)
    requires MostSpecific(templates, uri, k)
    ensures BestMatch(templates, uri) == Some(templates[k])
  {
    hide TemplateMatch;
  }

  lemma NoBestMatch(templates: seq<string>, uri: string)
    requires forall t | t in templates :: TemplateMatch(t, uri).None?
    ensures BestMatch(templates, uri) == None
  {
    hide TemplateMatch;
  }

  /** resourceTarget */
  ghost function ResourceTarget(s: Setting, capabilities: string, uri: string): string {
    var templates :=
      if capabilities in s.served.surfaces then s.served.surfaces[capabilities].templates else s.server.manifest;
    if capabilities in s.served.surfaces && uri in s.served.surfaces[capabilities].resources then uri
    else if BestMatch(templates, uri).Some? then BestMatch(templates, uri).value
    else uri
  }

  /** subscriptionKind */
  function SubscriptionKind(s: Setting, uri: string): string {
    var kind := s.server.classify(uri);
    if kind.Some? then kind.value else uri
  }

  /** foldCapability */
  function CapabilityEffect(kind: Kind, call: Call, item: string): Effect {
    if item == "" then NoEffect
    else Reached(KeyFor(kind, ShapeOfCall(call), EffectiveCapabilitySurface(call.capabilities), item),
                 CreditOfOutcome(call), call.test)
  }

  function ResourceKind(s: Setting, item: string): Kind {
    if item in s.server.manifest then ToolManifest else Resources
  }

  /** foldCall */
  ghost function EffectOf(s: Setting, call: Call): Effect {
    if call.method_ == METHOD_CALL_TOOL then ToolEffect(s, call)
    else if call.method_ == METHOD_READ_RESOURCE then
      var item := ResourceTarget(s, EffectiveCapabilitySurface(call.capabilities), call.target);
      CapabilityEffect(ResourceKind(s, item), call, item)
    else if call.method_ == METHOD_GET_PROMPT then CapabilityEffect(Prompts, call, call.target)
    else if call.method_ == METHOD_COMPLETE then CapabilityEffect(Completions, call, call.target)
    else if call.method_ == METHOD_SUBSCRIBE || call.method_ == METHOD_LISTEN then
      CapabilityEffect(Subscriptions, call, SubscriptionKind(s, call.target))
    else if call.method_ == METHOD_ELICIT then
      (if call.testStatus == STATUS_PASSED then Elicits(call.test) else NoEffect)
    else if call.method_ == METHOD_RESOURCE_UPDATED then
      (if call.testStatus == STATUS_PASSED then
         Delivers(KeyFor(Subscriptions, ShapeOfCall(call), EffectiveCapabilitySurface(call.capabilities),
                         SubscriptionKind(s, call.target)))
       else NoEffect)
    else NoEffect
  }

  // ---------------------------------------------------------------- folding effects

  function WithNote(e: Evidence, note: Note, test: string): Evidence {
    match note
    case NoNote => e
    case NoteFailed => e.(failed := e.failed + {test})
    case NotePreview => e.(previews := e.previews + {test})
    case NoteWithheld => e.(withheld := e.withheld + {test})
    case NoteRead => e.(readThrough := e.readThrough + {test})
  }

  function EvidenceAt(modes: map<ShapeKey, Evidence>, shape: ShapeKey): Evidence {
    if shape in modes then modes[shape] else NO_EVIDENCE
  }

  function Noted(modes: map<ShapeKey, Evidence>, shape: ShapeKey, note: Note, test: string): map<ShapeKey, Evidence> {
    if shape.mode == MODE_DEFAULT then modes else modes[shape := WithNote(EvidenceAt(modes, shape), note, test)]
  }

  /** A capability cell a call makes is unlisted until it is found among what a session served. */
  const CALLED_CELL := NEW_CELL.(unlisted := true)

  function Apply(r: Record, e: Effect): Record {
    match e
    case NoEffect => r
    case Acted(key, earned, test, note) =>
      r.(cells := Credited(r.cells, key, NEW_CELL, earned, test), modes := Noted(r.modes, key.shape, note, test))
    case Reached(item, earned, test) => r.(capabilities := Credited(r.capabilities, item, CALLED_CELL, earned, test))
    case Elicits(test) => r.(elicited := r.elicited + {test})
    case Delivers(item) => r.(delivered := r.delivered + {item})
  }

  lemma WithNoteCommutes(e: Evidence, note: Note, test: string, other: Note, by_: string)
    ensures WithNote(WithNote(e, note, test), other, by_) == WithNote(WithNote(e, other, by_), note, test)
  {
    assert e.readThrough + {test} + {by_} == e.readThrough + {by_} + {test};
    assert e.withheld + {test} + {by_} == e.withheld + {by_} + {test};
    assert e.previews + {test} + {by_} == e.previews + {by_} + {test};
    assert e.failed + {test} + {by_} == e.failed + {by_} + {test};
  }

  lemma NotedCommutes(modes: map<ShapeKey, Evidence>, a: ShapeKey, note: Note, test: string, b: ShapeKey, other: Note,
                      by_: string)
    ensures Noted(Noted(modes, a, note, test), b, other, by_) == Noted(Noted(modes, b, other, by_), a, note, test)
  {
    hide WithNote;
    if a == b {
      WithNoteCommutes(EvidenceAt(modes, a), note, test, other, by_);
    }
  }

  /** Two effects leave the same record in either order. */
  lemma ApplyCommutes(r: Record, a: Effect, b: Effect)
    ensures Apply(Apply(r, a), b) == Apply(Apply(r, b), a)
  {
    hide Credited, Noted;
    if a.Acted? && b.Acted? {
      CreditedCommutes(r.cells, NEW_CELL, a.key, a.earned, a.test, b.key, b.earned, b.test);
      NotedCommutes(r.modes, a.key.shape, a.note, a.test, b.key.shape, b.note, b.test);
    } else if a.Reached? && b.Reached? {
      CreditedCommutes(r.capabilities, CALLED_CELL, a.item, a.earned, a.test, b.item, b.earned, b.test);
    } else if a.Elicits? && b.Elicits? {
      assert r.elicited + {a.test} + {b.test} == r.elicited + {b.test} + {a.test};
    } else if a.Delivers? && b.Delivers? {
      assert r.delivered + {a.item} + {b.item} == r.delivered + {b.item} + {a.item};
    }
  }

  /** The fold of the call lines in classify: those of a fine-grained session aside. */
  ghost function FoldCalls(s: Setting, calls: seq<Call>): Record {
    if calls == [] then NO_RECORD
    else
      var before := FoldCalls(s, calls[..|calls| - 1]);
      var last := calls[|calls| - 1];
      if last.fineGrained then before else Apply(before, EffectOf(s, last))
  }

  ghost function Step(s: Setting, r: Record, call: Call): Record {
    if call.fineGrained then r else Apply(r, EffectOf(s, call))
  }

  lemma FoldCallsAppend(s: Setting, calls: seq<Call>, last: Call)
    ensures FoldCalls(s, calls + [last]) == Step(s, FoldCalls(s, calls), last)
  {
    assert (calls + [last])[..|calls|] == calls;
  }

  lemma StepCommutes(s: Setting, r: Record, a: Call, b: Call)
    ensures Step(s, Step(s, r, a), b) == Step(s, Step(s, r, b), a)
  {
    hide Apply, EffectOf;
    ApplyCommutes(r, EffectOf(s, a), EffectOf(s, b));
  }

  /** A call folded in the middle could have come last. */
  lemma {:induction false} FoldCallsPull(s: Setting, front: seq<Call>, call: Call, back: seq<Call>)
    ensures FoldCalls(s, front + [call] + back) == Step(s, FoldCalls(s, front + back), call)
    decreases |back|
  {
    hide Step, FoldCalls;
    if back == [] {
      assert front + [call] + back == front + [call] && front + back == front;
      FoldCallsAppend(s, front, call);
    } else {
      var rest, last := back[..|back| - 1], back[|back| - 1];
      assert front + [call] + back == front + [call] + rest + [last];
      assert front + back == front + rest + [last];
      FoldCallsPull(s, front, call, rest);
      FoldCallsAppend(s, front + [call] + rest, last);
      FoldCallsAppend(s, front + rest, last);
      StepCommutes(s, FoldCalls(s, front + rest), call, last);
    }
  }

  /** An element of a list, taken out of a list that holds the same. */
  lemma TakenOut<T>(front: seq<T>, last: T, others: seq<T>) returns (before: seq<T>, after: seq<T>)
    requires multiset(front + [last]) == multiset(others)
    ensures others == before + [last] + after
    ensures multiset(before + after) == multiset(front)
  {
    assert last in multiset(front + [last]);
    var i :| 0 <= i < |others| && others[i] == last;
    before, after := others[..i], others[i + 1..];
    assert others == before + [last] + after;
    assert multiset(others) == multiset(before) + multiset{last} + multiset(after);
    assert multiset(front + [last]) == multiset(front) + multiset{last};
    assert multiset(before + after) == multiset(before) + multiset(after);
    forall x ensures multiset(before + after)[x] == multiset(front)[x] {
      assert multiset(others)[x] == multiset(front + [last])[x];
    }
  }

  lemma SameLength<T>(xs: seq<T>, ys: seq<T>)
    requires multiset(xs) == multiset(ys)
    ensures |xs| == |ys|
  {
    assert |multiset(xs)| == |xs| && |multiset(ys)| == |ys|;
  }

  /** The record does not depend on the order of the call lines. */
  lemma {:induction false} OrderOfCalls(s: Setting, calls: seq<Call>, others: seq<Call>)
    requires multiset(calls) == multiset(others)
    ensures FoldCalls(s, calls) == FoldCalls(s, others)
    decreases |calls|
  {
    hide Step, FoldCalls;
    SameLength(calls, others);
    if calls == [] {
    } else {
      var front, last := calls[..|calls| - 1], calls[|calls| - 1];
      assert calls == front + [last];
      var before, after := TakenOut(front, last, others);
      OrderOfCalls(s, front, before + after);
      FoldCallsAppend(s, front, last);
      FoldCallsPull(s, before, last, after);
    }
  }

  function ClassicCalls(calls: seq<Call>): seq<Call> {
    if calls == [] then []
    else
      ClassicCalls(calls[..|calls| - 1]) + if calls[|calls| - 1].fineGrained then [] else [calls[|calls| - 1]]
  }

  /** Deleting the fine-grained call lines changes nothing in the record. */
  lemma {:induction false} FineGrainedCallsAside(s: Setting, calls: seq<Call>)
    ensures FoldCalls(s, ClassicCalls(calls)) == FoldCalls(s, calls)
  {
    hide Apply, EffectOf;
    if calls == [] {
    } else {
      var front, last := calls[..|calls| - 1], calls[|calls| - 1];
      FineGrainedCallsAside(s, front);
      if last.fineGrained {
        assert ClassicCalls(front) + [] == ClassicCalls(front);
      } else {
        FoldCallsAppend(s, ClassicCalls(front), last);
      }
    }
  }

  // ---------------------------------------------------------------- what the cells hold

  ghost predicate CreditsAction(s: Setting, call: Call, key: ActionKey) {
    !call.fineGrained && EffectOf(s, call).Acted? && EffectOf(s, call).key == key
  }

  /** How many of the lines earn an action a credit. */
  ghost function Earning(s: Setting, calls: seq<Call>, key: ActionKey, credit: Credit): nat {
    if calls == [] then 0
    else
      var last := calls[|calls| - 1];
      Earning(s, calls[..|calls| - 1], key, credit)
      + if CreditsAction(s, last, key) && EffectOf(s, last).earned == credit then 1 else 0
  }

  ghost predicate CellHolds(s: Setting, calls: seq<Call>, key: ActionKey, c: Cell) {
    && Consistent(c) && c.state == None && !c.unlisted
    && forall credit | credit != NoCredit :: CountOf(c, credit) == Earning(s, calls, key, credit)
  }

  /** An action has a cell exactly when a line names it, which counts each credit as often as a line earns it. */
  lemma {:induction false} CellsCount(s: Setting, calls: seq<Call>, key: ActionKey)
    ensures key in FoldCalls(s, calls).cells <==> exists call | call in calls :: CreditsAction(s, call, key)
    ensures CellHolds(s, calls, key, At(FoldCalls(s, calls).cells, key, NEW_CELL))
  {
    hide EffectOf, Noted;
    if calls == [] {
    } else {
      var front, last := calls[..|calls| - 1], calls[|calls| - 1];
      CellsCount(s, front, key);
      assert calls == front + [last] && last in calls;
      var c := At(FoldCalls(s, front).cells, key, NEW_CELL);
      if CreditsAction(s, last, key) {
        var e := EffectOf(s, last);
        OneMore(s, front, last, key, c);
      } else {
        SameAs(s, front, last, key);
        assert At(FoldCalls(s, calls).cells, key, NEW_CELL) == c;
      }
    }
  }

  lemma OneMore(s: Setting, front: seq<Call>, last: Call, key: ActionKey, c: Cell)
    requires CellHolds(s, front, key, c) && CreditsAction(s, last, key)
    ensures CellHolds(s, front + [last], key, Add(c, EffectOf(s, last).earned, EffectOf(s, last).test))
  {
    hide EffectOf, Consistent, Add;
    var e := EffectOf(s, last);
    AddConsistent(c, e.earned, e.test);
    AddKeepsRest(c, e.earned, e.test);
    assert (front + [last])[..|front|] == front;
  }

  lemma SameAs(s: Setting, front: seq<Call>, last: Call, key: ActionKey)
    requires !CreditsAction(s, last, key)
    ensures forall credit :: Earning(s, front + [last], key, credit) == Earning(s, front, key, credit)
  {
    hide EffectOf;
    assert (front + [last])[..|front|] == front;
  }

  /** A line more takes no cell and no credit away. */
  lemma MoreCallsKeepCredits(s: Setting, calls: seq<Call>, more: seq<Call>, key: ActionKey)
    requires key in FoldCalls(s, calls).cells
    ensures key in FoldCalls(s, calls + more).cells
    ensures forall credit | credit in FoldCalls(s, calls).cells[key].counts ::
              credit in FoldCalls(s, calls + more).cells[key].counts
    decreases |more|
  {
    hide EffectOf, Noted, Better, Behind;
    if more == [] {
      assert calls + more == calls;
    } else {
      var front, last := more[..|more| - 1], more[|more| - 1];
      assert calls + more == calls + front + [last];
      MoreCallsKeepCredits(s, calls, front, key);
      FoldCallsAppend(s, calls + front, last);
    }
  }

  // ---------------------------------------------------------------- what is left to settle

  ghost predicate Unsettled<K>(cells: map<K, Cell>) {
    forall key | key in cells :: cells[key].state == None
  }

  /** What folded lines leave: nothing settled, and capability cells unlisted and only of kinds a call can reach. */
  ghost predicate OnlyFolded(r: Record) {
    && Unsettled(r.cells) && Unsettled(r.capabilities)
    && forall key | key in r.capabilities ::
         !key.kind.Elicitation? && !key.kind.Modes? && r.capabilities[key].unlisted
  }

  ghost predicate CallKind(e: Effect) {
    e.Reached? ==> !e.item.kind.Elicitation? && !e.item.kind.Modes?
  }

  lemma ApplyKeepsFolded(r: Record, e: Effect)
    requires OnlyFolded(r) && CallKind(e)
    ensures OnlyFolded(Apply(r, e))
  {
    hide Noted, Better, Bumped, Behind;
  }

  lemma {:induction false} FoldedUnsettled(s: Setting, calls: seq<Call>)
    ensures OnlyFolded(FoldCalls(s, calls))
  {
    if calls != [] {
      var front, last := calls[..|calls| - 1], calls[|calls| - 1];
      hide EffectOf, Apply, OnlyFolded, CallKind;
      FoldedUnsettled(s, front);
      EffectKinds(s, last);
      ApplyKeepsFolded(FoldCalls(s, front), EffectOf(s, last));
    } else {
    }
  }

  lemma EffectKinds(s: Setting, call: Call)
    ensures CallKind(EffectOf(s, call))
  {
    forall kind: Kind, item | !kind.Elicitation? && !kind.Modes? ensures CallKind(CapabilityEffect(kind, call, item)) {
    }
    hide CapabilityEffect, ResourceTarget, SubscriptionKind, CreditOf, CreditOfOutcome, KeyFor, NoteOf;
  }
}
