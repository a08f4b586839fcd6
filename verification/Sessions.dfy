/**
  What the sessions of a run served, folded per surface and mode and again per capability surface.

  Both folds leave out the sessions on a fine-grained token. A set the program reads only through its sorted keys is
  kept as that list.
*/
module Sessions {
  import opened CallRecords
  import opened Cells
  import opened Outcomes
  import opened StringOrder
  import opened UriTemplates

  /** What is fixed in the server: the tool-manifest pair, how it names a subscription's kind, and what it accepts. */
  datatype Server = Server(
    manifest: seq<string>, classify: string -> Option<string>, subscriptionTemplates: seq<string>)

  datatype SessionShape = SessionShape(tools: set<string>, observed: bool, sessions: nat, idle: nat)

  datatype CapabilityShape = CapabilityShape(
    resources: seq<string>, templates: seq<string>, prompts: seq<string>, completions: seq<string>,
    kinds: seq<string>, shapes: map<ShapeKey, set<string>>, sessions: nat)

  datatype Served = Served(shapes: map<ShapeKey, SessionShape>, surfaces: map<string, CapabilityShape>)

  const NEW_SHAPE := SessionShape({}, true, 0, 0)
  const NEW_SURFACE := CapabilityShape([], [], [], [], [], map[], 0)

  function ShapeOf(session: Session): ShapeKey {
    ShapeKey(session.surface, session.mode)
  }

  function Names(list: seq<string>): set<string> {
    set name | name in list
  }

  /** One session line in its shape. */
  function WithSession(shape: SessionShape, session: Session): SessionShape {
    SessionShape(
      shape.tools + Names(session.tools),
      shape.observed && (session.dispatchObserved || session.idle),
      shape.sessions + 1,
      shape.idle + if !session.dispatchObserved && session.idle then 1 else 0)
  }

  function ManifestOf(server: Server, session: Session): set<string> {
    set uri | uri in session.resources + session.templates && uri in server.manifest
  }

  /** foldCapabilitySession */
  function WithCapabilities(server: Server, surface: CapabilityShape, session: Session): CapabilityShape {
    var shape := ShapeOf(session);
    CapabilityShape(
      MergeSorted(surface.resources, session.resources), MergeSorted(surface.templates, session.templates),
      MergeSorted(surface.prompts, session.prompts), MergeSorted(surface.completions, session.completions),
      MergeSorted(surface.kinds, session.kinds),
      surface.shapes[shape := (if shape in surface.shapes then surface.shapes[shape] else {}) + ManifestOf(server, session)],
      surface.sessions + 1)
  }

  /** The body of foldSessions' loop. */
  function FoldSession(server: Server, served: Served, session: Session): Served {
    if session.fineGrained then served
    else
      var key := ShapeOf(session);
      var capabilities := EffectiveCapabilitySurface(session.capabilities);
      var shape := if key in served.shapes then served.shapes[key] else NEW_SHAPE;
      var surface := if capabilities in served.surfaces then served.surfaces[capabilities] else NEW_SURFACE;
      Served(
        served.shapes[key := WithSession(shape, session)],
        served.surfaces[capabilities := WithCapabilities(server, surface, session)])
  }

  /** foldSessions */
  function FoldSessions(server: Server, sessions: seq<Session>): Served {
    if sessions == [] then Served(map[], map[])
    else FoldSession(server, FoldSessions(server, sessions[..|sessions| - 1]), sessions[|sessions| - 1])
  }

  // ---------------------------------------------------------------- what the folds say

  ghost predicate RanAs(sessions: seq<Session>, key: ShapeKey) {
    exists s | s in sessions :: !s.fineGrained && s.surface == key.surface && s.mode == key.mode
  }

  lemma {:induction false} ShapesAre(server: Server, sessions: seq<Session>, key: ShapeKey)
    ensures key in FoldSessions(server, sessions).shapes <==> RanAs(sessions, key)
  {
    hide WithSession, WithCapabilities;
    if sessions == [] {
    } else {
      var front, last := sessions[..|sessions| - 1], sessions[|sessions| - 1];
      ShapesAre(server, front, key);
      assert sessions == front + [last];
      assert last in sessions;
    }
  }

  lemma {:induction false} ToolsAre(server: Server, sessions: seq<Session>, key: ShapeKey, tool: string)
    requires RanAs(sessions, key)
    ensures key in FoldSessions(server, sessions).shapes
    ensures tool in FoldSessions(server, sessions).shapes[key].tools
       <==> exists s | s in sessions :: !s.fineGrained && s.surface == key.surface && s.mode == key.mode && tool in s.tools
  {
    hide WithCapabilities;
    var front, last := sessions[..|sessions| - 1], sessions[|sessions| - 1];
    assert sessions == front + [last] && last in sessions;
    ShapesAre(server, sessions, key);
    ShapesAre(server, front, key);
    if RanAs(front, key) {
      ToolsAre(server, front, key, tool);
    }
  }

  /** dispatchObserved */
  predicate DispatchObserved(shape: SessionShape) {
    shape.observed && shape.idle < shape.sessions
  }

  /** A shape reads observed exactly when some session's span arrived and none that made a traced call lacked one. */
  lemma {:induction false} ObservedExactly(server: Server, sessions: seq<Session>, key: ShapeKey)
    requires RanAs(sessions, key)
    ensures key in FoldSessions(server, sessions).shapes
    ensures var shape := FoldSessions(server, sessions).shapes[key];
            && shape.idle <= shape.sessions
            && (shape.observed <==> forall s | s in sessions && !s.fineGrained && s.surface == key.surface && s.mode == key.mode ::
                  s.dispatchObserved || s.idle)
            && (shape.idle < shape.sessions <==> exists s | s in sessions ::
                  !s.fineGrained && s.surface == key.surface && s.mode == key.mode && (s.dispatchObserved || !s.idle))
            && (DispatchObserved(shape) <==>
                  && (exists s | s in sessions :: !s.fineGrained && s.surface == key.surface && s.mode == key.mode && s.dispatchObserved)
                  && forall s | s in sessions && !s.fineGrained && s.surface == key.surface && s.mode == key.mode :: s.dispatchObserved || s.idle)
  {
    hide WithCapabilities;
    var front, last := sessions[..|sessions| - 1], sessions[|sessions| - 1];
    assert sessions == front + [last] && last in sessions;
    ShapesAre(server, sessions, key);
    ShapesAre(server, front, key);
    if RanAs(front, key) {
      ObservedExactly(server, front, key);
    }
  }

  ghost predicate ListOf(list: seq<string>) {
    Sorted(list) && NoRepeats(list)
  }

  /** The classic sessions that ran on a capability surface, in their order. */
  function RunsOn(sessions: seq<Session>, capabilities: string): seq<Session> {
    if sessions == [] then []
    else
      var last := sessions[|sessions| - 1];
      RunsOn(sessions[..|sessions| - 1], capabilities)
      + if !last.fineGrained && EffectiveCapabilitySurface(last.capabilities) == capabilities then [last] else []
  }

  lemma {:induction false} RunsOnAre(sessions: seq<Session>, capabilities: string, s: Session)
    ensures s in RunsOn(sessions, capabilities)
       <==> s in sessions && !s.fineGrained && capabilities == if s.capabilities == "minimal" then "minimal" else "full"
  {
    if sessions == [] {
    } else {
      var front, last := sessions[..|sessions| - 1], sessions[|sessions| - 1];
      RunsOnAre(front, capabilities, s);
      assert sessions == front + [last];
    }
  }

  datatype Listing = ResourceList | TemplateList | PromptList | CompletionList | KindList

  function ListedBy(s: Session, which: Listing): seq<string> {
    match which
    case ResourceList => s.resources
    case TemplateList => s.templates
    case PromptList => s.prompts
    case CompletionList => s.completions
    case KindList => s.kinds
  }

  function ServedList(surface: CapabilityShape, which: Listing): seq<string> {
    match which
    case ResourceList => surface.resources
    case TemplateList => surface.templates
    case PromptList => surface.prompts
    case CompletionList => surface.completions
    case KindList => surface.kinds
  }

  /** A list, sorted and without repeats, of what some sessions listed together. */
  ghost predicate Unites(list: seq<string>, sessions: seq<Session>, which: Listing) {
    ListOf(list) && forall x :: x in list <==> exists s | s in sessions :: x in ListedBy(s, which)
  }

  ghost predicate UnitesManifests(server: Server, shapes: map<ShapeKey, set<string>>, sessions: seq<Session>) {
    && (forall shape :: shape in shapes <==> exists s | s in sessions :: ShapeOf(s) == shape)
    && forall shape, uri | shape in shapes ::
         uri in shapes[shape] <==> exists s | s in sessions :: ShapeOf(s) == shape && uri in ManifestOf(server, s)
  }

  /** Per surface and mode, the manifest entries its sessions listed, as resources or as templates. */
  ghost predicate ServesManifests(server: Server, shapes: map<ShapeKey, set<string>>, sessions: seq<Session>) {
    && (forall shape :: shape in shapes <==> exists s | s in sessions :: s.surface == shape.surface && s.mode == shape.mode)
    && forall shape, uri | shape in shapes ::
         uri in shapes[shape] <==>
           exists s | s in sessions ::
             && s.surface == shape.surface && s.mode == shape.mode
             && uri in server.manifest && (uri in s.resources || uri in s.templates)
  }

  lemma ManifestsSpelled(server: Server, shapes: map<ShapeKey, set<string>>, sessions: seq<Session>)
    requires UnitesManifests(server, shapes, sessions)
    ensures ServesManifests(server, shapes, sessions)
  {
    forall s: Session, shape ensures ShapeOf(s) == shape <==> s.surface == shape.surface && s.mode == shape.mode {}
    forall s: Session, uri
      ensures uri in ManifestOf(server, s) <==> uri in server.manifest && (uri in s.resources || uri in s.templates)
    {}
    hide ShapeOf, ManifestOf;
  }

  /** What these sessions, all of one capability surface, served together. */
  ghost predicate SurfaceOf(server: Server, surface: CapabilityShape, sessions: seq<Session>) {
    && (forall which :: Unites(ServedList(surface, which), sessions, which))
    && UnitesManifests(server, surface.shapes, sessions)
    && surface.sessions == |sessions|
  }

  lemma UnitesOneMore(list: seq<string>, sessions: seq<Session>, which: Listing, last: Session)
    requires Unites(list, sessions, which)
    ensures Unites(MergeSorted(list, ListedBy(last, which)), sessions + [last], which)
  {
    MergeSortedUnion(list, ListedBy(last, which));
    hide MergeSorted, Sorted, NoRepeats, ListedBy;
    assert forall s :: s in sessions + [last] <==> s in sessions || s == last;
  }

  lemma ManifestsOneMore(server: Server, shapes: map<ShapeKey, set<string>>, sessions: seq<Session>, last: Session)
    requires UnitesManifests(server, shapes, sessions)
    ensures var shape := ShapeOf(last);
            UnitesManifests(server, shapes[shape := (if shape in shapes then shapes[shape] else {}) + ManifestOf(server, last)],
                            sessions + [last])
  {
    hide ShapeOf, ManifestOf;
    assert forall s :: s in sessions + [last] <==> s in sessions || s == last;
  }

  lemma SurfaceOneMore(server: Server, surface: CapabilityShape, sessions: seq<Session>, last: Session)
    requires SurfaceOf(server, surface, sessions)
    ensures SurfaceOf(server, WithCapabilities(server, surface, last), sessions + [last])
  {
    hide Unites, UnitesManifests, ShapeOf, ManifestOf, MergeSorted;
    forall which ensures Unites(ServedList(WithCapabilities(server, surface, last), which), sessions + [last], which) {
      UnitesOneMore(ServedList(surface, which), sessions, which, last);
    }
    ManifestsOneMore(server, surface.shapes, sessions, last);
  }

  lemma SurfaceSpelled(server: Server, surface: CapabilityShape, sessions: seq<Session>)
    requires SurfaceOf(server, surface, sessions)
    ensures ServesManifests(server, surface.shapes, sessions)
  {
    ManifestsSpelled(server, surface.shapes, sessions);
  }

  lemma NewSurfaceOfNone(server: Server)
    ensures SurfaceOf(server, NEW_SURFACE, [])
  {}

  /**
    The capability surfaces are those some classic session ran on, full or minimal, and each serves what its sessions
    listed together: list by list, and the manifest per shape.
  */
  lemma {:induction false} SurfacesAre(server: Server, sessions: seq<Session>, capabilities: string)
    ensures var surfaces := FoldSessions(server, sessions).surfaces;
            && (capabilities in surfaces <==> RunsOn(sessions, capabilities) != [])
            && (capabilities in surfaces ==>
                  && SurfaceOf(server, surfaces[capabilities], RunsOn(sessions, capabilities))
                  && ServesManifests(server, surfaces[capabilities].shapes, RunsOn(sessions, capabilities))
                  && (capabilities == CAPABILITIES_FULL || capabilities == CAPABILITIES_MINIMAL))
  {
    hide WithSession, WithCapabilities, SurfaceOf, ServesManifests;
    if sessions == [] {
    } else {
      var front, last := sessions[..|sessions| - 1], sessions[|sessions| - 1];
      SurfacesAre(server, front, capabilities);
      var surfaces, runs := FoldSessions(server, front).surfaces, RunsOn(front, capabilities);
      NewSurfaceOfNone(server);
      SurfaceOneMore(server, if capabilities in surfaces then surfaces[capabilities] else NEW_SURFACE, runs, last);
      assert runs + [] == runs;
      if capabilities in FoldSessions(server, sessions).surfaces {
        SurfaceSpelled(server, FoldSessions(server, sessions).surfaces[capabilities], RunsOn(sessions, capabilities));
      }
    }
  }

  function Classic(sessions: seq<Session>): seq<Session> {
    if sessions == [] then []
    else
      Classic(sessions[..|sessions| - 1])
      + if sessions[|sessions| - 1].fineGrained then [] else [sessions[|sessions| - 1]]
  }

  /** Deleting the fine-grained session lines changes nothing that was served. */
  lemma {:induction false} FineGrainedSessionsAside(server: Server, sessions: seq<Session>)
    ensures FoldSessions(server, Classic(sessions)) == FoldSessions(server, sessions)
  {
    hide WithSession, WithCapabilities;
    if sessions == [] {
    } else {
      var front, last := sessions[..|sessions| - 1], sessions[|sessions| - 1];
      FineGrainedSessionsAside(server, front);
      if last.fineGrained {
        assert Classic(front) + [] == Classic(front);
      } else {
        assert (Classic(front) + [last])[..|Classic(front)|] == Classic(front);
      }
    }
  }

  // ---------------------------------------------------------------- what a capability surface serves

  function Without(manifest: seq<string>, items: seq<string>): seq<string> {
    if items == [] then []
    else (if items[0] in manifest then [] else [items[0]]) + Without(manifest, items[1..])
  }

  /** templateKinds, before it is sorted. */
  function TemplateKinds(server: Server, templates: seq<string>): seq<string> {
    if templates == [] then []
    else
      var kind := server.classify(SampleFrom(templates[0]));
      (if kind.Some? then [kind.value] else []) + TemplateKinds(server, templates[1..])
  }

  /** subscribableKinds */
  function SubscribableKinds(server: Server, listed: seq<string>): seq<string> {
    if |listed| > 0 then listed else Sort(TemplateKinds(server, server.subscriptionTemplates))
  }

  /** served: what one capability surface serves of each kind counted at its grain. */
  function Items(server: Server, capabilities: string, surface: CapabilityShape, kind: Kind): seq<string> {
    match kind
    case Resources => Without(server.manifest, surface.resources) + Without(server.manifest, surface.templates)
    case Prompts => surface.prompts
    case Completions => surface.completions
    case Subscriptions => if capabilities == CAPABILITIES_FULL then SubscribableKinds(server, surface.kinds) else []
    case _ => []
  }
}
