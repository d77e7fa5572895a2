/** The relationship check of the bundled roster and the decision check of the documentation:
    both search for cycles with two sets of nodes, one being visited and one done with. */
module RosterGraph {
  import opened Outcomes
  import opened Graphs

  datatype Entry = Entry(slug: string, conflicts: seq<string>, requirements: seq<string>, approved: bool)

  datatype Fault =
    | InvalidRelationship(slug: string, other: string)
    | Asymmetric(slug: string, other: string)
    | RequiresInactive(slug: string)
    | RequirementCycle(slug: string)

  predicate LastWith(entries: seq<Entry>, slug: string, e: Entry) {
    exists k :: 0 <= k < |entries| && entries[k] == e && e.slug == slug && forall j :: k < j < |entries| ==> entries[j].slug != slug
  }

  /** `{entry["slug"]: entry}`: the last entry with each slug. */
  function BySlug(entries: seq<Entry>): (m: map<string, Entry>)
    ensures forall s :: s in m <==> exists k :: 0 <= k < |entries| && entries[k].slug == s
    ensures forall s :: s in m ==> m[s].slug == s && m[s] in entries
  {
    if entries == [] then map[]
    else
      var n := |entries| - 1;
      BySlug(entries[..n])[entries[n].slug := entries[n]]
  }

  lemma BySlugIs(entries: seq<Entry>)
    requires entries != []
    ensures var n := |entries| - 1; BySlug(entries) == BySlug(entries[..n])[entries[n].slug := entries[n]]
  {
  }

  lemma {:induction false} BySlugKeepsLast(entries: seq<Entry>, slug: string)
    requires slug in BySlug(entries)
    ensures LastWith(entries, slug, BySlug(entries)[slug])
  {
    hide BySlug;
    var n := |entries| - 1;
    BySlugIs(entries);
    if entries[n].slug != slug {
      BySlugKeepsLast(entries[..n], slug);
      StillLast(entries, slug, BySlug(entries)[slug]);
    }
  }

  lemma StillLast(entries: seq<Entry>, slug: string, e: Entry)
    requires var n := |entries| - 1; n >= 0 && entries[n].slug != slug && LastWith(entries[..n], slug, e)
    ensures LastWith(entries, slug, e)
  {
    var n := |entries| - 1;
    var k :| 0 <= k < n && entries[..n][k] == e && e.slug == slug && forall j :: k < j < n ==> entries[..n][j].slug != slug;
    forall j | k < j < |entries| ensures entries[j].slug != slug {
      if j < n { assert entries[j] == entries[..n][j]; }
    }
    assert entries[k] == e;
  }

  // ---- what is to be checked ----

  /** The approved agents and what they require. */
  function ApprovedGraph(m: map<string, Entry>): Graph {
    map s | s in m && m[s].approved :: Targets(m, s)
  }

  function Targets(m: map<string, Entry>, s: string): set<string>
    requires s in m
  {
    set r | r in m[s].requirements && r in m && m[r].approved
  }

  /** References are known and name another agent. */
  predicate Known(m: map<string, Entry>, e: Entry) {
    forall r :: r in e.conflicts + e.requirements ==> r in m && r != e.slug
  }

  predicate Symmetric(m: map<string, Entry>, e: Entry) {
    forall c :: c in e.conflicts ==> c in m && e.slug in m[c].conflicts
  }

  predicate RequiresApproved(m: map<string, Entry>, e: Entry) {
    e.approved ==> forall r :: r in e.requirements ==> r in m && m[r].approved
  }

  predicate WellRelated(m: map<string, Entry>, e: Entry) {
    Known(m, e) && Symmetric(m, e) && RequiresApproved(m, e)
  }

  // ---- the checks on one agent ----

  method CheckEntry(m: map<string, Entry>, slug: string) returns (fault: Option<Fault>)
    requires slug in m && m[slug].slug == slug
    ensures fault.None? <==> WellRelated(m, m[slug])
    ensures fault.Some? ==> !fault.value.RequirementCycle?
  {
    var entry := m[slug];
    var all := entry.conflicts + entry.requirements;
    for k := 0 to |all|
      invariant forall i :: 0 <= i < k ==> all[i] in m && all[i] != slug
    {
      if all[k] == slug || all[k] !in m {
        assert all[k] in entry.conflicts + entry.requirements;
        return Some(InvalidRelationship(slug, all[k]));
      }
    }
    forall i | 0 <= i < |entry.conflicts| ensures entry.conflicts[i] in m && entry.conflicts[i] != slug {
      assert all[i] == entry.conflicts[i];
    }
    forall i | 0 <= i < |entry.requirements| ensures entry.requirements[i] in m && entry.requirements[i] != slug {
      assert all[|entry.conflicts| + i] == entry.requirements[i];
    }
    for k := 0 to |entry.conflicts|
      invariant forall i :: 0 <= i < k ==> slug in m[entry.conflicts[i]].conflicts
    {
      if slug !in m[entry.conflicts[k]].conflicts {
        return Some(Asymmetric(slug, entry.conflicts[k]));
      }
    }
    if entry.approved {
      for k := 0 to |entry.requirements|
        invariant forall i :: 0 <= i < k ==> m[entry.requirements[i]].approved
      {
        if !m[entry.requirements[k]].approved {
          return Some(RequiresInactive(slug));
        }
      }
    }
    return None;
  }

  /** `visit` and the two sets it closes over. */
  class RequirementSearch {
    const bySlug: map<string, Entry>
    var visiting: set<string>
    var visited: set<string>
    ghost var order: seq<string>

    ghost predicate Valid(path: seq<string>)
      reads this
    {
      var g := ApprovedGraph(bySlug);
      && (forall s :: s in bySlug ==> WellRelated(bySlug, bySlug[s]) && bySlug[s].slug == s)
      && Unrepeated(path) && Walk(g, path) && (forall s :: s in path <==> s in visiting) && visiting <= g.Keys
      && Topological(g, order) && (forall s :: s in order <==> s in visited) && visiting !! visited
    }

    constructor (m: map<string, Entry>)
      requires forall s :: s in m ==> WellRelated(m, m[s]) && m[s].slug == s
      ensures bySlug == m && Valid([]) && visited == {}
    {
      bySlug := m;
      visiting, visited, order := {}, {}, [];
    }

    method Visit(slug: string, ghost path: seq<string>) returns (fault: Option<Fault>)
      requires Valid(path) && slug in bySlug
      requires path != [] ==> Edge(ApprovedGraph(bySlug), path[|path| - 1], slug)
      modifies this
      decreases bySlug.Keys - visiting
      ensures fault.Some? ==> fault.value.RequirementCycle? && OnCycle(ApprovedGraph(bySlug), fault.value.slug)
      ensures fault.None? ==> Valid(path) && visiting == old(visiting) && old(visited) <= visited
      ensures fault.None? && bySlug[slug].approved ==> slug in visited
    {
      hide OnCycle, Topological, Unrepeated, Walk, ApprovedGraph, WellRelated, Edge;
      Approved(bySlug, slug);
      if slug in visited || !bySlug[slug].approved {
        return None;
      }
      if slug in visiting {
        BackEdgeCloses(ApprovedGraph(bySlug), path, slug);
        return Some(RequirementCycle(slug));
      }
      ghost var longer := path + [slug];
      WalkExtends(ApprovedGraph(bySlug), path, slug);
      visiting := visiting + {slug};
      var requirements := bySlug[slug].requirements;
      for k := 0 to |requirements|
        invariant Valid(longer) && visiting == old(visiting) + {slug} && old(visited) <= visited
        invariant forall i :: 0 <= i < k ==> requirements[i] in visited
      {
        assert requirements[k] in bySlug[slug].requirements;
        assert longer[|longer| - 1] == slug;
        RequiredEdge(bySlug, slug, requirements[k]);
        fault := Visit(requirements[k], longer);
        if fault.Some? { return; }
      }
      visiting := visiting - {slug};
      Targeted(bySlug, slug, visited);
      visited := visited + {slug};
      TopologicalExtends(ApprovedGraph(bySlug), order, slug);
      order := order + [slug];
      return None;
    }
  }

  lemma Approved(m: map<string, Entry>, slug: string)
    requires slug in m
    ensures slug in ApprovedGraph(m) <==> m[slug].approved
  {
  }

  lemma RequiredEdge(m: map<string, Entry>, slug: string, r: string)
    requires slug in m && m[slug].approved && WellRelated(m, m[slug]) && r in m[slug].requirements
    ensures r in m && m[r].approved && Edge(ApprovedGraph(m), slug, r)
  {
  }

  lemma Targeted(m: map<string, Entry>, slug: string, visited: set<string>)
    requires slug in m && m[slug].approved && forall i :: 0 <= i < |m[slug].requirements| ==> m[slug].requirements[i] in visited
    ensures slug in ApprovedGraph(m) && forall v :: Edge(ApprovedGraph(m), slug, v) ==> v in visited
  {
  }

  lemma WalkExtends(g: Graph, path: seq<string>, u: string)
    requires Walk(g, path) && Unrepeated(path) && u !in path && (path != [] ==> Edge(g, path[|path| - 1], u))
    ensures Walk(g, path + [u]) && Unrepeated(path + [u])
  {
    var p := path + [u];
    forall k | 0 <= k < |p| - 1 ensures Edge(g, p[k], p[k + 1]) {
      if k < |path| - 1 { assert Edge(g, path[k], path[k + 1]); }
    }
  }

  /** The slugs in the order of the dictionary. */
  function Slugs(entries: seq<Entry>): (r: seq<string>)
    ensures forall s :: s in r <==> s in BySlug(entries)
  {
    if entries == [] then []
    else
      var n := |entries| - 1;
      var before := Slugs(entries[..n]);
      if entries[n].slug in before then before else before + [entries[n].slug]
  }

  /** `_validate_relationships`: accepts exactly the rosters whose references are known and not to
      oneself, whose conflicts are symmetric, whose approved agents require only approved ones,
      and whose approved requirements have no cycle. */
  method ValidateRelationships(entries: seq<Entry>) returns (fault: Option<Fault>)
    ensures var m := BySlug(entries);
      fault.None? <==> (forall s :: s in m ==> WellRelated(m, m[s])) && !Cyclic(ApprovedGraph(m))
    ensures fault.Some? && fault.value.RequirementCycle? ==> OnCycle(ApprovedGraph(BySlug(entries)), fault.value.slug)
  {
    hide BySlug, Slugs, WellRelated, Cyclic, OnCycle, ApprovedGraph, Topological;
    var m := BySlug(entries);
    var slugs := Slugs(entries);
    for k := 0 to |slugs|
      invariant forall i :: 0 <= i < k ==> slugs[i] in m && WellRelated(m, m[slugs[i]])
    {
      assert slugs[k] in slugs;
      fault := CheckEntry(m, slugs[k]);
      if fault.Some? { return; }
    }
    assert forall s :: s in m ==> s in slugs;
    var search := new RequirementSearch(m);
    for k := 0 to |slugs|
      invariant search.Valid([]) && search.bySlug == m
      invariant forall i :: 0 <= i < k ==> slugs[i] in m && (m[slugs[i]].approved ==> slugs[i] in search.visited)
    {
      assert slugs[k] in slugs;
      fault := search.Visit(slugs[k], []);
      if fault.Some? {
        CycleFound(ApprovedGraph(m), fault.value.slug);
        return;
      }
    }
    AllVisited(m, search.order, slugs, search.visited);
    return None;
  }

  lemma CycleFound(g: Graph, u: string)
    requires OnCycle(g, u)
    ensures Cyclic(g)
  {
  }

  lemma AllVisited(m: map<string, Entry>, order: seq<string>, slugs: seq<string>, visited: set<string>)
    requires Topological(ApprovedGraph(m), order) && (forall s :: s in order <==> s in visited)
    requires forall s :: s in m ==> s in slugs
    requires forall i :: 0 <= i < |slugs| ==> slugs[i] in m && (m[slugs[i]].approved ==> slugs[i] in visited)
    ensures !Cyclic(ApprovedGraph(m))
  {
    hide Topological, Cyclic;
    TopologicalIsAcyclic(ApprovedGraph(m), order);
  }

  // ---- superseding decisions ----

  /** What holds between two calls: `path` leads to the node being visited, the finished nodes are
      in dependency order as long as no cycle was noted, and the noted nodes are on cycles. */
  ghost predicate SearchOk(g: Graph, path: seq<string>, visiting: set<string>, visited: set<string>, order: seq<string>, cycles: seq<string>) {
    && (forall u, v :: Edge(g, u, v) ==> v in g)
    && Unrepeated(path) && Walk(g, path) && (forall s :: s in path <==> s in visiting) && visiting <= g.Keys
    && Unrepeated(order) && (forall s :: s in order <==> s in visited) && visiting !! visited
    && (cycles == [] ==> Topological(g, order))
    && (forall k :: 0 <= k < |cycles| ==> OnCycle(g, cycles[k]))
  }

  /** `visit` of the decision check: a cycle is noted in the error list and the search goes on. */
  class SupersedesSearch {
    const graph: Graph
    var visiting: set<string>
    var visited: set<string>
    var cycles: seq<string>
    ghost var order: seq<string>

    ghost predicate Valid(path: seq<string>)
      reads this
    {
      SearchOk(graph, path, visiting, visited, order, cycles)
    }

    constructor (g: Graph)
      requires forall u, v :: Edge(g, u, v) ==> v in g
      ensures graph == g && Valid([]) && visited == {} && cycles == []
    {
      graph := g;
      visiting, visited, order, cycles := {}, {}, [], [];
    }

    method Visit(node: string, ghost path: seq<string>)
      requires Valid(path) && node in graph
      requires path != [] ==> Edge(graph, path[|path| - 1], node)
      modifies this
      decreases graph.Keys - visiting
      ensures Valid(path) && visiting == old(visiting) && old(visited) <= visited
      ensures old(cycles) <= cycles && (cycles == [] ==> node in visited)
    {
      hide SearchOk, Edge;
      if node in visiting {
        CycleNoted(graph, path, visiting, visited, order, cycles, node);
        cycles := cycles + [node];
        return;
      }
      if node in visited {
        return;
      }
      ghost var longer := path + [node];
      NodeEntered(graph, path, visiting, visited, order, cycles, node);
      visiting := visiting + {node};
      var targets := graph[node];
      while targets != {}
        invariant Valid(longer) && visiting == old(visiting) + {node} && old(visited) <= visited
        invariant old(cycles) <= cycles && targets <= graph[node]
        invariant cycles == [] ==> graph[node] - targets <= visited
        decreases |targets|
      {
        var target :| target in targets;
        assert longer[|longer| - 1] == node;
        TargetEdge(graph, node, target);
        KnownTarget(graph, longer, visiting, visited, order, cycles, node, target);
        Visit(target, longer);
        targets := targets - {target};
      }
      NodeLeft(graph, path, visiting, visited, order, cycles, node);
      assert visiting - {node} == old(visiting);
      visiting := visiting - {node};
      visited := visited + {node};
      order := order + [node];
    }
  }

  lemma CycleNoted(g: Graph, path: seq<string>, visiting: set<string>, visited: set<string>, order: seq<string>, cycles: seq<string>, u: string)
    requires SearchOk(g, path, visiting, visited, order, cycles) && u in visiting && (path != [] ==> Edge(g, path[|path| - 1], u))
    ensures SearchOk(g, path, visiting, visited, order, cycles + [u])
  {
    hide OnCycle, Topological, Unrepeated, Walk, Edge;
    assert u in path;
    BackEdgeCloses(g, path, u);
  }

  lemma NodeEntered(g: Graph, path: seq<string>, visiting: set<string>, visited: set<string>, order: seq<string>, cycles: seq<string>, u: string)
    requires SearchOk(g, path, visiting, visited, order, cycles) && u in g && u !in visiting && u !in visited
    requires path != [] ==> Edge(g, path[|path| - 1], u)
    ensures SearchOk(g, path + [u], visiting + {u}, visited, order, cycles)
  {
    hide OnCycle, Topological, Unrepeated, Walk, Edge;
    assert u !in path;
    WalkExtends(g, path, u);
  }

  lemma NodeLeft(g: Graph, path: seq<string>, visiting: set<string>, visited: set<string>, order: seq<string>, cycles: seq<string>, u: string)
    requires SearchOk(g, path + [u], visiting, visited, order, cycles) && u in g && (cycles == [] ==> g[u] <= visited)
    ensures SearchOk(g, path, visiting - {u}, visited + {u}, order + [u], cycles)
  {
    hide OnCycle, Topological, Edge;
    var longer := path + [u];
    assert longer[|longer| - 1] == u && u in longer;
    assert forall k :: 0 <= k < |path| ==> longer[k] == path[k];
    assert u !in path && forall s :: s in path <==> s in visiting - {u};
    NodeAdded(order, u);
    if cycles == [] {
      TargetsVisited(g, u, visited);
      TopologicalExtends(g, order, u);
    }
  }

  lemma KnownTarget(g: Graph, path: seq<string>, visiting: set<string>, visited: set<string>, order: seq<string>, cycles: seq<string>,
                    u: string, v: string)
    requires SearchOk(g, path, visiting, visited, order, cycles) && Edge(g, u, v)
    ensures v in g
  {
    hide OnCycle, Topological, Unrepeated, Walk, Edge;
  }

  lemma TargetEdge(g: Graph, u: string, v: string)
    requires u in g && v in g[u]
    ensures Edge(g, u, v)
  {
  }

  lemma TargetsVisited(g: Graph, u: string, visited: set<string>)
    requires u in g && g[u] <= visited
    ensures forall v :: Edge(g, u, v) ==> v in visited
  {
  }

  lemma NodeAdded(order: seq<string>, u: string)
    requires Unrepeated(order) && u !in order
    ensures Unrepeated(order + [u])
  {
  }

  /** The cycle search of `validate_decisions`: it reports an error exactly when superseding has a
      cycle, and names only decisions on one. */
  method SupersedingCycles(graph: Graph, nodes: seq<string>) returns (cycles: seq<string>)
    requires (forall u, v :: Edge(graph, u, v) ==> v in graph) && forall u :: u in graph <==> u in nodes
    ensures cycles != [] <==> Cyclic(graph)
    ensures forall k :: 0 <= k < |cycles| ==> OnCycle(graph, cycles[k])
  {
    hide OnCycle, Topological, Cyclic;
    var search := new SupersedesSearch(graph);
    for k := 0 to |nodes|
      invariant search.Valid([]) && search.graph == graph
      invariant search.cycles == [] ==> forall i :: 0 <= i < k ==> nodes[i] in search.visited
    {
      assert nodes[k] in nodes;
      search.Visit(nodes[k], []);
    }
    cycles := search.cycles;
    if cycles == [] {
      TopologicalIsAcyclic(graph, search.order);
    } else {
      CycleFound(graph, cycles[0]);
    }
  }
}
