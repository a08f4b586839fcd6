/**
  The rows of the capability surfaces, counted in the sessions they were folded from.

  `RowCounts` says what each figure of a row counts, down to the session lines, without the folded surface in between.
*/
module SurfaceFigures {
  import opened CallFold
  import opened CallRecords
  import opened CellFill
  import opened Cells
  import opened CoverageReport
  import opened Sessions
  import opened StringOrder
  import opened UriTemplates

  /** The names some session listed. */
  ghost function NamesIn(runs: seq<Session>, which: Listing): set<string> {
    set s, x | s in runs && x in ListedBy(s, which) :: x
  }

  /** The surfaces and modes some session ran on. */
  ghost function ShapesIn(runs: seq<Session>): set<ShapeKey> {
    set s | s in runs :: ShapeKey(s.surface, s.mode)
  }

  /** The subscription templates whose sample has a kind, as often as each is declared. */
  ghost function KindsCounted(server: Server, templates: seq<string>): nat {
    if templates == [] then 0
    else KindsCounted(server, templates[1..]) + if server.classify(SampleFrom(templates[0])).Some? then 1 else 0
  }

  lemma {:induction false} SizeOfList(list: seq<string>, names: set<string>)
    requires NoRepeats(list) && forall x :: x in list <==> x in names
    ensures |list| == |names|
    decreases |list|
  {
    if list == [] {
      assert names == {};
    } else {
      var front, last := list[..|list| - 1], list[|list| - 1];
      assert list == front + [last];
      NoRepeatsSnoc(front, last);
      hide NoRepeats;
      SizeOfList(front, names - {last});
    }
  }

  lemma {:induction false} WithoutIs(manifest: seq<string>, items: seq<string>)
    requires NoRepeats(items)
    ensures NoRepeats(Without(manifest, items))
    ensures forall x :: x in Without(manifest, items) <==> x in items && x !in manifest
  {
    if items == [] {
    } else {
      assert items == [items[0]] + items[1..];
      NoRepeatsTail(items);
      WithoutIs(manifest, items[1..]);
      NoRepeatsAhead(items[0], Without(manifest, items[1..]));
      hide NoRepeats;
    }
  }

  lemma NoRepeatsTail(items: seq<string>)
    requires NoRepeats(items) && items != []
    ensures NoRepeats(items[1..]) && items[0] !in items[1..]
  {}

  lemma NoRepeatsAhead(first: string, rest: seq<string>)
    requires NoRepeats(rest) && first !in rest
    ensures NoRepeats([first] + rest)
  {}

  lemma {:induction false} TemplateKindsCounted(server: Server, templates: seq<string>)
    ensures |TemplateKinds(server, templates)| == KindsCounted(server, templates)
  {
    hide SampleFrom;
    if templates != [] {
      TemplateKindsCounted(server, templates[1..]);
    }
  }

  lemma SortedSize(list: seq<string>)
    ensures |Sort(list)| == |list|
  {
    SortSorts(list);
    hide Sort;
    assert |multiset(Sort(list))| == |multiset(list)|;
  }

  lemma ListSize(surface: CapabilityShape, runs: seq<Session>, which: Listing)
    requires Unites(ServedList(surface, which), runs, which)
    ensures |ServedList(surface, which)| == |NamesIn(runs, which)|
  {
    hide ServedList, ListedBy, Sorted;
    SizeOfList(ServedList(surface, which), NamesIn(runs, which));
  }

  lemma UnlistedSize(manifest: seq<string>, surface: CapabilityShape, runs: seq<Session>, which: Listing)
    requires Unites(ServedList(surface, which), runs, which)
    ensures |Without(manifest, ServedList(surface, which))| == |NamesIn(runs, which) - set m | m in manifest|
  {
    hide ServedList, ListedBy, Sorted, Without, NoRepeats;
    WithoutIs(manifest, ServedList(surface, which));
    SizeOfList(Without(manifest, ServedList(surface, which)), NamesIn(runs, which) - set m | m in manifest);
  }

  lemma RowReads(s: Setting, capabilities: string)
    requires capabilities in s.served.surfaces
    ensures var row, surface, manifest := RowOf(s, capabilities), s.served.surfaces[capabilities], s.server.manifest;
            && row.capabilities == capabilities && row.sessions == surface.sessions && row.shapes == |surface.shapes|
            && row.resources == |Without(manifest, ServedList(surface, ResourceList))|
                                + |Without(manifest, ServedList(surface, TemplateList))|
            && row.prompts == |ServedList(surface, PromptList)| && row.completions == |ServedList(surface, CompletionList)|
            && row.kinds == (if capabilities != "full" then 0
                             else if |ServedList(surface, KindList)| > 0 then |ServedList(surface, KindList)|
                             else |Sort(TemplateKinds(s.server, s.server.subscriptionTemplates))|)
  {
    hide Without, Sort, TemplateKinds;
  }

  lemma ShapesCounted(server: Server, surface: CapabilityShape, runs: seq<Session>)
    requires SurfaceOf(server, surface, runs)
    ensures |surface.shapes| == |ShapesIn(runs)| && surface.sessions == |runs|
    ensures forall which :: Unites(ServedList(surface, which), runs, which)
  {
    hide Unites, ManifestOf;
    assert surface.shapes.Keys == ShapesIn(runs);
    assert |surface.shapes| == |surface.shapes.Keys|;
  }

  /**
    A row counts the classic sessions that ran on its capability surface and the shapes they ran in, and what they
    listed together, each name once: resources and templates outside the manifest, prompts, completions, and on the full
    surface the subscription kinds, which are those of the server's templates when no session listed any.
  */
  lemma RowCounts(server: Server, catalog: Catalog, sessions: seq<Session>, capabilities: string)
    requires capabilities in SettingOf(server, catalog, sessions).served.surfaces
    ensures var row, runs := RowOf(SettingOf(server, catalog, sessions), capabilities), RunsOn(sessions, capabilities);
            var manifest := set m | m in server.manifest;
            && row.capabilities == capabilities && row.sessions == |runs| && row.shapes == |ShapesIn(runs)|
            && row.resources == |NamesIn(runs, ResourceList) - manifest| + |NamesIn(runs, TemplateList) - manifest|
            && row.prompts == |NamesIn(runs, PromptList)| && row.completions == |NamesIn(runs, CompletionList)|
            && row.kinds == (if capabilities != "full" then 0
                             else if |NamesIn(runs, KindList)| > 0 then |NamesIn(runs, KindList)|
                             else KindsCounted(server, server.subscriptionTemplates))
  {
    var s, runs := SettingOf(server, catalog, sessions), RunsOn(sessions, capabilities);
    var surface := s.served.surfaces[capabilities];
    hide *;
    SettingHas(server, catalog, sessions);
    SurfacesAre(server, sessions, capabilities);
    ShapesCounted(server, surface, runs);
    RowReads(s, capabilities);
    ListSize(surface, runs, PromptList);
    ListSize(surface, runs, CompletionList);
    ListSize(surface, runs, KindList);
    UnlistedSize(server.manifest, surface, runs, ResourceList);
    UnlistedSize(server.manifest, surface, runs, TemplateList);
    TemplateKindsCounted(server, server.subscriptionTemplates);
    SortedSize(TemplateKinds(server, server.subscriptionTemplates));
  }

  lemma SettingHas(server: Server, catalog: Catalog, sessions: seq<Session>)
    ensures SettingOf(server, catalog, sessions).server == server
    ensures SettingOf(server, catalog, sessions).served == FoldSessions(server, sessions)
  {
    hide FoldSessions;
  }
}
