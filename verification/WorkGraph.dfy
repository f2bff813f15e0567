/** crates/ostrom-core/src/work_graph.rs: every dependency-bearing surface is
    merged into one graph, cycles are found by a depth-first search whose visited set
    is shared by all branches, and dispatchability follows.

    The source returns sorted vectors taken from ordered maps and sets. Their
    order is a function of their contents, so they are sets and maps here. */
module WorkGraph {
  import opened Wrappers
  import opened Digraph

  datatype Source = Body | PullRequest | SubIssue

  datatype Input = Input(
    id: string,
    open: bool,
    bodyDependencies: seq<string>,
    parent: Option<string>,
    children: seq<string>,
    closes: seq<string>)

  type EdgeMap = map<(string, string), set<Source>>

  // The three maps filled while the inputs are read.
  datatype Surfaces = Surfaces(open: map<string, bool>, edges: EdgeMap, children: map<string, set<string>>)

  datatype Node = Node(
    id: string,
    open: bool,
    dependencies: set<string>,
    unsatisfied: set<string>,
    children: set<string>,
    dispatchable: bool,
    unblockingPower: nat)

  datatype Fault = Fault(name: string, nodes: set<string>)

  datatype WorkGraph = WorkGraph(nodes: map<string, Node>, edges: EdgeMap, faults: seq<Fault>)

  // ---- What the inputs say, without regard to their order ----

  predicate States(i: Input, dependency: string, item: string, source: Source) {
    match source
    case Body => item == i.id && dependency in i.bodyDependencies
    case SubIssue =>
      && dependency != item
      && ((i.parent == Some(item) && dependency == i.id) || (item == i.id && dependency in i.children))
    case PullRequest => dependency != item && dependency == i.id && item in i.closes
  }

  predicate IsChild(i: Input, parent: string, child: string) {
    (i.parent == Some(parent) && child == i.id) || (parent == i.id && child in i.children)
  }

  predicate HasSource(edges: EdgeMap, dependency: string, item: string, source: Source) {
    (dependency, item) in edges && source in edges[(dependency, item)]
  }

  predicate HasChild(children: map<string, set<string>>, parent: string, child: string) {
    parent in children && child in children[parent]
  }

  predicate NoEmptyEntry<K, V>(m: map<K, set<V>>) {
    forall k :: k in m ==> m[k] != {}
  }

  ghost predicate OpenMerged(inputs: set<Input>, open: map<string, bool>) {
    && (forall id :: id in open <==> exists i :: i in inputs && i.id == id)
    && (forall id :: id in open ==> (open[id] <==> exists i :: i in inputs && i.id == id && i.open))
  }

  ghost predicate Stated(inputs: set<Input>, dependency: string, item: string, source: Source) {
    exists i :: i in inputs && States(i, dependency, item, source)
  }

  ghost predicate ChildStated(inputs: set<Input>, parent: string, child: string) {
    exists i :: i in inputs && IsChild(i, parent, child)
  }

  ghost predicate EdgesMerged(inputs: set<Input>, edges: EdgeMap) {
    && NoEmptyEntry(edges)
    && forall d, t, s :: HasSource(edges, d, t, s) <==> Stated(inputs, d, t, s)
  }

  ghost predicate ChildrenMerged(inputs: set<Input>, children: map<string, set<string>>) {
    && NoEmptyEntry(children)
    && forall p, c :: HasChild(children, p, c) <==> ChildStated(inputs, p, c)
  }

  // The maps `s` hold exactly what the set of inputs states.
  ghost predicate Merged(inputs: set<Input>, s: Surfaces) {
    OpenMerged(inputs, s.open) && EdgesMerged(inputs, s.edges) && ChildrenMerged(inputs, s.children)
  }

  // ---- What the merged surfaces mean ----

  predicate IsOpen(s: Surfaces, id: string) {
    id in s.open && s.open[id]
  }

  // The repository part of `owner/name#number`: everything before the last `#`.
  function RepositoryOf(id: string): (r: Option<string>)
    ensures r.Some? <==> '#' in id
    ensures r.Some? ==> |r.value| < |id| && r.value + "#" <= id && '#' !in id[|r.value| + 1..]
  {
    if id == "" then None
    else if id[|id| - 1] == '#' then Some(id[..|id| - 1])
    else
      assert id == id[..|id| - 1] + [id[|id| - 1]];
      RepositoryOf(id[..|id| - 1])
  }

  /** A known dependency is unsatisfied while it is open. An unknown one is unsatisfied
      unless its repository is configured: the sweep lists those exhaustively. */
  predicate Unsatisfied(s: Surfaces, repositories: set<string>, dependency: string) {
    if dependency in s.open then s.open[dependency]
    else
      var repository := RepositoryOf(dependency);
      repository.None? || repository.value !in repositories
  }

  function DependenciesOf(s: Surfaces, id: string): set<string> {
    set e | e in s.edges.Keys && e.1 == id :: e.0
  }

  function UnsatisfiedOf(s: Surfaces, repositories: set<string>, id: string): set<string> {
    set d | d in DependenciesOf(s, id) && Unsatisfied(s, repositories, d)
  }

  function ChildrenOf(s: Surfaces, id: string): set<string> {
    if id in s.children then s.children[id] else {}
  }

  function SourcesOf(edges: EdgeMap, e: (string, string)): set<Source> {
    if e in edges then edges[e] else {}
  }

  // The edges between open nodes, from dependency to item.
  function OpenEdges(s: Surfaces): Graph {
    set e | e in s.edges.Keys && IsOpen(s, e.0) && IsOpen(s, e.1)
  }

  ghost function CycleNodes(s: Surfaces): set<string> {
    set id | id in s.open && IsOpen(s, id) && OnCycle(OpenEdges(s), id)
  }

  ghost predicate Dispatchable(s: Surfaces, repositories: set<string>, id: string) {
    && IsOpen(s, id)
    && UnsatisfiedOf(s, repositories, id) == {}
    && ChildrenOf(s, id) == {}
    && id !in CycleNodes(s)
  }

  // The nodes whose only unsatisfied dependency is `id`.
  function UnblockedBy(s: Surfaces, repositories: set<string>, id: string): set<string> {
    set item | item in s.open && UnsatisfiedOf(s, repositories, item) == {id}
  }

  ghost function NodeOf(s: Surfaces, repositories: set<string>, id: string): Node
    requires id in s.open
  {
    Node(id, s.open[id], DependenciesOf(s, id), UnsatisfiedOf(s, repositories, id), ChildrenOf(s, id),
         Dispatchable(s, repositories, id), |UnblockedBy(s, repositories, id)|)
  }

  ghost function GraphOf(s: Surfaces, repositories: set<string>): WorkGraph {
    WorkGraph(
      map id | id in s.open :: NodeOf(s, repositories, id),
      s.edges,
      if CycleNodes(s) == {} then [] else [Fault("dependency_cycle", CycleNodes(s))])
  }

  // Two readings of the same set of inputs are equal, so neither the order of
  // the inputs nor a repeated input can show in the result.
  lemma MergeIsUnique(inputs: set<Input>, s: Surfaces, t: Surfaces)
    requires Merged(inputs, s) && Merged(inputs, t)
    ensures s == t
  {
    assert s.open == t.open;
    forall e | e in s.edges.Keys + t.edges.Keys
      ensures e in s.edges && e in t.edges && s.edges[e] == t.edges[e]
    {
      forall x: Source
        ensures HasSource(s.edges, e.0, e.1, x) == HasSource(t.edges, e.0, e.1, x)
      {
      }
      assert SourcesOf(s.edges, e) == SourcesOf(t.edges, e) by {
        assert forall x :: x in SourcesOf(s.edges, e) <==> HasSource(s.edges, e.0, e.1, x);
        assert forall x :: x in SourcesOf(t.edges, e) <==> HasSource(t.edges, e.0, e.1, x);
      }
    }
    assert s.edges == t.edges;
    forall p | p in s.children.Keys + t.children.Keys
      ensures p in s.children && p in t.children && s.children[p] == t.children[p]
    {
      forall c
        ensures HasChild(s.children, p, c) == HasChild(t.children, p, c)
      {
      }
      assert ChildrenOf(s, p) == ChildrenOf(t, p) by {
        assert forall c :: c in ChildrenOf(s, p) <==> HasChild(s.children, p, c);
        assert forall c :: c in ChildrenOf(t, p) <==> HasChild(t.children, p, c);
      }
    }
    assert s.children == t.children;
  }

  // ---- Reading the inputs ----

  function AddEdge(edges: EdgeMap, dependency: string, item: string, source: Source): (r: EdgeMap)
    requires NoEmptyEntry(edges)
    ensures NoEmptyEntry(r)
    ensures forall d, t, x :: HasSource(r, d, t, x) <==>
      HasSource(edges, d, t, x) ||
      (d == dependency && t == item && x == source && (d != t || x == Body))
  {
    if dependency == item && source != Body then edges
    else edges[(dependency, item) := SourcesOf(edges, (dependency, item)) + {source}]
  }

  function AddChild(children: map<string, set<string>>, parent: string, child: string): (r: map<string, set<string>>)
    requires NoEmptyEntry(children)
    ensures NoEmptyEntry(r)
    ensures forall p, c :: HasChild(r, p, c) <==> HasChild(children, p, c) || (p == parent && c == child)
  {
    children[parent := (if parent in children then children[parent] else {}) + {child}]
  }

  // One input adds exactly the edges and children it states.
  method ReadInput(input: Input, edges0: EdgeMap, children0: map<string, set<string>>)
    returns (edges: EdgeMap, children: map<string, set<string>>)
    requires NoEmptyEntry(edges0) && NoEmptyEntry(children0)
    ensures NoEmptyEntry(edges) && NoEmptyEntry(children)
    ensures forall d, t, x :: HasSource(edges, d, t, x) <==> HasSource(edges0, d, t, x) || States(input, d, t, x)
    ensures forall p, c :: HasChild(children, p, c) <==> HasChild(children0, p, c) || IsChild(input, p, c)
  {
    edges, children := edges0, children0;
    for k := 0 to |input.bodyDependencies|
      invariant NoEmptyEntry(edges)
      invariant forall d, t, x :: HasSource(edges, d, t, x) <==>
        HasSource(edges0, d, t, x) || (x == Body && t == input.id && d in input.bodyDependencies[..k])
    {
      edges := AddEdge(edges, input.bodyDependencies[k], input.id, Body);
    }
    if input.parent.Some? {
      edges := AddEdge(edges, input.id, input.parent.value, SubIssue);
      children := AddChild(children, input.parent.value, input.id);
    }
    ghost var edges1, children1 := edges, children;
    for k := 0 to |input.children|
      invariant NoEmptyEntry(edges) && NoEmptyEntry(children)
      invariant forall d, t, x :: HasSource(edges, d, t, x) <==>
        HasSource(edges1, d, t, x) || (x == SubIssue && t == input.id && d != t && d in input.children[..k])
      invariant forall p, c :: HasChild(children, p, c) <==>
        HasChild(children1, p, c) || (p == input.id && c in input.children[..k])
    {
      edges := AddEdge(edges, input.children[k], input.id, SubIssue);
      children := AddChild(children, input.id, input.children[k]);
    }
    ghost var edges2 := edges;
    for k := 0 to |input.closes|
      invariant NoEmptyEntry(edges)
      invariant forall d, t, x :: HasSource(edges, d, t, x) <==>
        HasSource(edges2, d, t, x) || (x == PullRequest && d == input.id && d != t && t in input.closes[..k])
    {
      edges := AddEdge(edges, input.id, input.closes[k], PullRequest);
    }
  }

  method MergeOpen(inputs: seq<Input>) returns (open: map<string, bool>)
    ensures OpenMerged(Elements(inputs), open)
  {
    open := map[];
    for k := 0 to |inputs|
      invariant OpenMerged(Elements(inputs[..k]), open)
    {
      var input := inputs[k];
      assert Elements(inputs[..k + 1]) == Elements(inputs[..k]) + {input};
      open := open[input.id := (input.id in open && open[input.id]) || input.open];
    }
    assert inputs[..|inputs|] == inputs;
  }

  method MergeEdges(inputs: seq<Input>) returns (edges: EdgeMap, children: map<string, set<string>>)
    ensures EdgesMerged(Elements(inputs), edges) && ChildrenMerged(Elements(inputs), children)
  {
    edges, children := map[], map[];
    for k := 0 to |inputs|
      invariant EdgesMerged(Elements(inputs[..k]), edges)
      invariant ChildrenMerged(Elements(inputs[..k]), children)
    {
      assert Elements(inputs[..k + 1]) == Elements(inputs[..k]) + {inputs[k]};
      edges, children := ReadInput(inputs[k], edges, children);
    }
    assert inputs[..|inputs|] == inputs;
  }

  method MergeInputs(inputs: seq<Input>) returns (s: Surfaces)
    ensures Merged(Elements(inputs), s)
  {
    var open := MergeOpen(inputs);
    var edges, children := MergeEdges(inputs);
    s := Surfaces(open, edges, children);
  }

  // ---- The depth-first cycle search ----

  // The nodes marked during a search have all their successors marked too, and
  // none of those successors is the target.
  ghost predicate Explored(g: Graph, marked: set<string>, visited: set<string>, target: string) {
    forall a, b :: a in marked && Edge(g, a, b) ==> b in visited && b != target
  }

  /** Searches for `target` from `current`. The visited set is shared by every branch,
      so a branch may stop at a node that another branch has only begun. */
  method Reaches(current: string, target: string, edges: seq<(string, string)>, visited0: set<string>, moved: bool,
                 ghost universe: set<string>)
    returns (found: bool, visited: set<string>)
    requires current in universe && visited0 <= universe
    requires forall e :: e in edges ==> e.1 in universe
    ensures visited0 <= visited <= universe
    ensures found ==> (moved && current == target) || Leads(Elements(edges), current, target)
    ensures !found ==> current in visited && !(moved && current == target)
    ensures !found ==> Explored(Elements(edges), visited - visited0, visited, target)
    decreases universe - visited0, 1
  {
    if moved && current == target {
      return true, visited0;
    }
    if current in visited0 {
      return false, visited0;
    }
    ghost var g := Elements(edges);
    visited := visited0 + {current};
    for k := 0 to |edges|
      invariant visited0 + {current} <= visited <= universe
      invariant forall e :: e in edges[..k] && e.0 == current ==> e.1 in visited && e.1 != target
      invariant Explored(g, visited - visited0 - {current}, visited, target)
    {
      if edges[k].0 == current {
        var before := visited;
        found, visited := Reaches(edges[k].1, target, edges, visited, true, universe);
        assert edges[k] in edges;
        assert Edge(g, current, edges[k].1);
        if found {
          EdgeLeads(g, current, edges[k].1);
          if edges[k].1 != target {
            LeadsTransitive(g, current, edges[k].1, target);
          }
          return;
        }
      }
    }
    return false, visited;
  }

  // Started with nothing visited, the search is exact.
  method ReachesItself(start: string, edges: seq<(string, string)>) returns (found: bool)
    ensures found <==> OnCycle(Elements(edges), start)
  {
    ghost var g := Elements(edges);
    ghost var visited;
    found, visited := Reaches(start, start, edges, {}, false, {start} + set e | e in edges :: e.1);
    if !found && OnCycle(g, start) {
      assert Closed(g, visited) by {
        assert visited - {} == visited;
      }
      var last := LastEdge(g, start, start);
      if last != start {
        LeadsStaysInside(g, visited, start, last);
      }
    }
  }

  method ListEdges(edges: Graph) returns (list: seq<(string, string)>)
    ensures Elements(list) == edges
  {
    list := [];
    var left := edges;
    while left != {}
      invariant Elements(list) + left == edges
      decreases left
    {
      var e :| e in left;
      assert Elements(list + [e]) == Elements(list) + {e};
      list, left := list + [e], left - {e};
    }
  }

  method FindCycleNodes(s: Surfaces) returns (nodes: set<string>)
    ensures nodes == CycleNodes(s)
  {
    var openEdges := ListEdges(OpenEdges(s));
    nodes := {};
    var left := s.open.Keys;
    while left != {}
      invariant left <= s.open.Keys
      invariant nodes == CycleNodes(s) - left
      decreases left
    {
      var id :| id in left;
      left := left - {id};
      if s.open[id] {
        var found := ReachesItself(id, openEdges);
        if found {
          nodes := nodes + {id};
        }
      }
    }
  }

  // `graph` is what the set of inputs means.
  ghost predicate IsGraphOf(inputs: set<Input>, repositories: set<string>, graph: WorkGraph) {
    exists s :: Merged(inputs, s) && graph == GraphOf(s, repositories)
  }

  method BuildNodes(s: Surfaces, repositories: set<string>, cycle: set<string>) returns (nodes: map<string, Node>)
    requires cycle == CycleNodes(s)
    ensures nodes.Keys == s.open.Keys
    ensures forall id :: id in nodes ==> nodes[id] == NodeOf(s, repositories, id)
  {
    var unsatisfied := map id | id in s.open :: UnsatisfiedOf(s, repositories, id);
    nodes := map id | id in s.open ::
      Node(id, s.open[id], DependenciesOf(s, id), unsatisfied[id], ChildrenOf(s, id),
           s.open[id] && unsatisfied[id] == {} && ChildrenOf(s, id) == {} && id !in cycle,
           |set item | item in unsatisfied && unsatisfied[item] == {id}|);
    forall id | id in nodes
      ensures nodes[id] == NodeOf(s, repositories, id)
    {
      assert (set item | item in unsatisfied && unsatisfied[item] == {id}) == UnblockedBy(s, repositories, id);
    }
  }

  method BuildWorkGraph(inputs: seq<Input>, repositories: set<string>) returns (graph: WorkGraph)
    ensures IsGraphOf(Elements(inputs), repositories, graph)
    ensures forall id :: id in graph.nodes <==> Observed(Elements(inputs), id)
    ensures forall id :: id in graph.nodes ==> Shows(Elements(inputs), repositories, graph.nodes, id)
  {
    var s := MergeInputs(inputs);
    var cycle := FindCycleNodes(s);
    var nodes := BuildNodes(s, repositories, cycle);
    graph := WorkGraph(nodes, s.edges, if cycle == {} then [] else [Fault("dependency_cycle", cycle)]);
    AssembledGraph(s, repositories, graph);
    GraphShowsInputs(Elements(inputs), repositories, graph);
  }

  lemma AssembledGraph(s: Surfaces, repositories: set<string>, g: WorkGraph)
    requires g.nodes.Keys == s.open.Keys && forall id :: id in g.nodes ==> g.nodes[id] == NodeOf(s, repositories, id)
    requires g.edges == s.edges
    requires g.faults == if CycleNodes(s) == {} then [] else [Fault("dependency_cycle", CycleNodes(s))]
    ensures g == GraphOf(s, repositories)
  {
    assert g.nodes == GraphOf(s, repositories).nodes;
  }

  /** Whatever the order of the inputs and however often one is repeated, the graph
      is the same. */
  lemma InputOrderIsIrrelevant(a: seq<Input>, b: seq<Input>, repositories: set<string>, g: WorkGraph, h: WorkGraph)
    requires forall i :: i in a <==> i in b
    requires IsGraphOf(Elements(a), repositories, g) && IsGraphOf(Elements(b), repositories, h)
    ensures g == h
  {
    assert Elements(a) == Elements(b);
    var s :| Merged(Elements(a), s) && g == GraphOf(s, repositories);
    var t :| Merged(Elements(b), t) && h == GraphOf(t, repositories);
    MergeIsUnique(Elements(a), s, t);
  }

  // ---- Properties of the graph ----

  // The dependency_cycle fault names exactly the open nodes on a cycle of open
  // edges, and it is absent exactly when there is none.
  lemma FaultNamesTheCycles(inputs: set<Input>, repositories: set<string>, g: WorkGraph, s: Surfaces)
    requires Merged(inputs, s) && g == GraphOf(s, repositories)
    ensures g.faults == [] <==> Acyclic(OpenEdges(s))
    ensures g.faults != [] ==>
      |g.faults| == 1 && forall id :: id in g.faults[0].nodes <==> OnCycle(OpenEdges(s), id)
  {
    forall id | OnCycle(OpenEdges(s), id)
      ensures id in CycleNodes(s)
    {
      var next := FirstEdge(OpenEdges(s), id, id);
    }
  }

  /** The cycle test never decides: an open node on a cycle has an unsatisfied
      dependency, so an open node without one is off every cycle. */
  lemma CycleTestIsImplied(s: Surfaces, repositories: set<string>, id: string)
    ensures IsOpen(s, id) && OnCycle(OpenEdges(s), id) ==> UnsatisfiedOf(s, repositories, id) != {}
    ensures Dispatchable(s, repositories, id) <==>
      IsOpen(s, id) && UnsatisfiedOf(s, repositories, id) == {} && ChildrenOf(s, id) == {}
  {
    if OnCycle(OpenEdges(s), id) {
      var last := LastEdge(OpenEdges(s), id, id);
      assert (last, id) in s.edges;
      assert last in DependenciesOf(s, id);
      assert last in UnsatisfiedOf(s, repositories, id);
    }
  }

  // ---- What the graph says, in terms of the inputs alone ----

  ghost predicate Observed(inputs: set<Input>, id: string) {
    exists i :: i in inputs && i.id == id
  }

  // Some input shows the item open.
  ghost predicate ShownOpen(inputs: set<Input>, id: string) {
    exists i :: i in inputs && i.id == id && i.open
  }

  ghost predicate DependsOn(inputs: set<Input>, id: string, dependency: string) {
    exists source :: Stated(inputs, dependency, id, source)
  }

  ghost predicate InRepository(id: string, repository: string, number: string) {
    id == repository + "#" + number && '#' !in number
  }

  // The absent item would have been listed: it belongs to a configured repository.
  ghost predicate InConfiguredRepository(repositories: set<string>, id: string) {
    exists repository, number :: InRepository(id, repository, number) && repository in repositories
  }

  // Every input for a dependency that was observed shows it closed; one that was not observed holds the
  // item back unless its repository is configured.
  ghost predicate HoldsNothing(inputs: set<Input>, repositories: set<string>, dependency: string) {
    if Observed(inputs, dependency) then !ShownOpen(inputs, dependency)
    else InConfiguredRepository(repositories, dependency)
  }

  ghost predicate DispatchableFrom(inputs: set<Input>, repositories: set<string>, id: string) {
    && ShownOpen(inputs, id)
    && (forall d :: DependsOn(inputs, id, d) ==> HoldsNothing(inputs, repositories, d))
    && forall c :: !ChildStated(inputs, id, c)
  }

  // A node shows what the inputs state of its item.
  ghost predicate Shows(inputs: set<Input>, repositories: set<string>, nodes: map<string, Node>, id: string)
    requires id in nodes
  {
    var node := nodes[id];
    && node.id == id
    && (node.open <==> ShownOpen(inputs, id))
    && (forall d :: d in node.dependencies <==> DependsOn(inputs, id, d))
    && (forall d :: d in node.unsatisfied <==> DependsOn(inputs, id, d) && !HoldsNothing(inputs, repositories, d))
    && (forall c :: c in node.children <==> ChildStated(inputs, id, c))
    && (node.dispatchable <==> DispatchableFrom(inputs, repositories, id))
    && node.unblockingPower == |set item | item in nodes && nodes[item].unsatisfied == {id}|
  }

  lemma RepositoryIsPrefix(id: string, repository: string)
    ensures RepositoryOf(id) == Some(repository) <==> exists number :: InRepository(id, repository, number)
  {
    if RepositoryOf(id) == Some(repository) {
      var number := id[|repository| + 1..];
      assert id == (repository + "#") + number;
      assert InRepository(id, repository, number);
    }
    forall number | InRepository(id, repository, number)
      ensures RepositoryOf(id) == Some(repository)
    {
      LastHash(repository, number);
    }
  }

  lemma ShorterNumber(repository: string, number: string)
    requires number != ""
    ensures var id := repository + "#" + number; var last := |number| - 1;
            id[..|id| - 1] == repository + "#" + number[..last] && id[|id| - 1] == number[last]
  {
  }

  lemma {:induction false} LastHash(repository: string, number: string)
    requires '#' !in number
    ensures RepositoryOf(repository + "#" + number) == Some(repository)
    decreases |number|
  {
    if number == "" {
      assert (repository + "#")[..|repository|] == repository;
      assert repository + "#" + number == repository + "#";
    } else {
      ShorterNumber(repository, number);
      LastHash(repository, number[..|number| - 1]);
    }
  }

  lemma UnsatisfiedFromInputs(inputs: set<Input>, s: Surfaces, repositories: set<string>, d: string)
    requires Merged(inputs, s)
    ensures Unsatisfied(s, repositories, d) <==> !HoldsNothing(inputs, repositories, d)
  {
    assert Observed(inputs, d) <==> d in s.open;
    if d !in s.open {
      if RepositoryOf(d).Some? {
        RepositoryIsPrefix(d, RepositoryOf(d).value);
      }
      forall repository, number | InRepository(d, repository, number)
        ensures RepositoryOf(d) == Some(repository)
      {
        RepositoryIsPrefix(d, repository);
      }
    }
  }

  lemma DependenciesFromInputs(inputs: set<Input>, s: Surfaces, id: string, d: string)
    requires Merged(inputs, s)
    ensures d in DependenciesOf(s, id) <==> DependsOn(inputs, id, d)
  {
    if d in DependenciesOf(s, id) {
      assert s.edges[(d, id)] != {};
      var source :| source in s.edges[(d, id)];
      assert HasSource(s.edges, d, id, source);
    }
    if source :| Stated(inputs, d, id, source) {
      assert HasSource(s.edges, d, id, source);
      assert (d, id) in s.edges.Keys;
    }
  }

  /** What holds an item back: an open item its body names, an open pull request that closes it, and any child. An item
      depends on itself only when its own body says so. */
  lemma HeldBack(inputs: set<Input>, repositories: set<string>, id: string, i: Input)
    requires i in inputs
    ensures i.id == id && (exists d :: d in i.bodyDependencies && ShownOpen(inputs, d)) ==> !DispatchableFrom(inputs, repositories, id)
    ensures i.open && i.id != id && id in i.closes ==> !DispatchableFrom(inputs, repositories, id)
    ensures i.parent == Some(id) || (i.id == id && i.children != []) ==> !DispatchableFrom(inputs, repositories, id)
    ensures DependsOn(inputs, id, id) <==> exists j :: j in inputs && j.id == id && id in j.bodyDependencies
  {
    if i.id == id {
      if d :| d in i.bodyDependencies && ShownOpen(inputs, d) {
        assert States(i, d, id, Body);
        assert Stated(inputs, d, id, Body);
        assert DependsOn(inputs, id, d) && Observed(inputs, d);
      }
      if i.children != [] {
        assert IsChild(i, id, i.children[0]);
        assert ChildStated(inputs, id, i.children[0]);
      }
    }
    if i.open && i.id != id && id in i.closes {
      assert States(i, i.id, id, PullRequest);
      assert Stated(inputs, i.id, id, PullRequest);
      assert ShownOpen(inputs, i.id) && Observed(inputs, i.id) && DependsOn(inputs, id, i.id);
    }
    if i.parent == Some(id) {
      assert IsChild(i, id, i.id);
      assert ChildStated(inputs, id, i.id);
    }
    SelfPointers(inputs, id);
  }

  lemma SelfPointers(inputs: set<Input>, id: string)
    ensures DependsOn(inputs, id, id) <==> exists j :: j in inputs && j.id == id && id in j.bodyDependencies
  {
    if source :| Stated(inputs, id, id, source) {
      var j :| j in inputs && States(j, id, id, source);
    }
    if j :| j in inputs && j.id == id && id in j.bodyDependencies {
      assert States(j, id, id, Body);
      assert Stated(inputs, id, id, Body);
    }
  }

  // The edges between open nodes are the stated ones between items shown open.
  lemma OpenEdgesFromInputs(inputs: set<Input>, s: Surfaces)
    requires Merged(inputs, s)
    ensures forall a, b :: Edge(OpenEdges(s), a, b) <==> ShownOpen(inputs, a) && ShownOpen(inputs, b) && DependsOn(inputs, b, a)
  {
    forall a, b
      ensures Edge(OpenEdges(s), a, b) <==> ShownOpen(inputs, a) && ShownOpen(inputs, b) && DependsOn(inputs, b, a)
    {
      DependenciesFromInputs(inputs, s, b, a);
      assert (a, b) in s.edges <==> a in DependenciesOf(s, b);
    }
  }

  lemma ChildrenFromInputs(inputs: set<Input>, s: Surfaces, id: string)
    requires Merged(inputs, s)
    ensures forall c :: c in ChildrenOf(s, id) <==> ChildStated(inputs, id, c)
  {
    assert forall c :: c in ChildrenOf(s, id) <==> HasChild(s.children, id, c);
  }

  /** An item is dispatchable exactly when some input shows it open, none states a child, and each stated
      dependency is closed in every input for it or, if there is none, in a configured repository. */
  lemma DispatchableExactly(inputs: set<Input>, s: Surfaces, repositories: set<string>, id: string)
    requires Merged(inputs, s)
    ensures Dispatchable(s, repositories, id) <==> DispatchableFrom(inputs, repositories, id)
  {
    CycleTestIsImplied(s, repositories, id);
    ChildrenFromInputs(inputs, s, id);
    forall d
      ensures d in UnsatisfiedOf(s, repositories, id) <==> DependsOn(inputs, id, d) && !HoldsNothing(inputs, repositories, d)
    {
      DependenciesFromInputs(inputs, s, id, d);
      UnsatisfiedFromInputs(inputs, s, repositories, d);
    }
  }

  lemma NodesShowInputs(inputs: set<Input>, s: Surfaces, repositories: set<string>, id: string)
    requires Merged(inputs, s) && id in s.open
    ensures Shows(inputs, repositories, GraphOf(s, repositories).nodes, id)
  {
    var nodes := GraphOf(s, repositories).nodes;
    ChildrenFromInputs(inputs, s, id);
    DispatchableExactly(inputs, s, repositories, id);
    forall d
      ensures d in nodes[id].dependencies <==> DependsOn(inputs, id, d)
      ensures d in nodes[id].unsatisfied <==> DependsOn(inputs, id, d) && !HoldsNothing(inputs, repositories, d)
    {
      DependenciesFromInputs(inputs, s, id, d);
      UnsatisfiedFromInputs(inputs, s, repositories, d);
    }
    assert (set item | item in nodes && nodes[item].unsatisfied == {id}) == UnblockedBy(s, repositories, id);
  }

  /** The nodes of the graph are the observed items, each showing what the inputs state of it, and the edges
      with their sources are the stated ones. */
  lemma GraphShowsInputs(inputs: set<Input>, repositories: set<string>, g: WorkGraph)
    requires IsGraphOf(inputs, repositories, g)
    ensures forall id :: id in g.nodes <==> Observed(inputs, id)
    ensures forall id :: id in g.nodes ==> Shows(inputs, repositories, g.nodes, id)
    ensures forall d, t, x :: HasSource(g.edges, d, t, x) <==> Stated(inputs, d, t, x)
  {
    var s :| Merged(inputs, s) && g == GraphOf(s, repositories);
    forall id | id in g.nodes
      ensures Shows(inputs, repositories, g.nodes, id)
    {
      NodesShowInputs(inputs, s, repositories, id);
    }
    assert forall id :: id in s.open <==> Observed(inputs, id);
  }

  // Whatever holds the node back is an open node: its absent dependencies lie in
  // configured repositories, its structural children are open nodes other than itself.
  ghost predicate HeldByOpenNodes(s: Surfaces, repositories: set<string>, id: string) {
    && (forall d :: d in DependenciesOf(s, id) && d !in s.open ==>
          RepositoryOf(d).Some? && RepositoryOf(d).value in repositories)
    && (forall c :: c in ChildrenOf(s, id) ==> IsOpen(s, c) && c != id)
  }

  function Reversed(g: Graph): Graph {
    set e | e in g :: (e.1, e.0)
  }

  lemma {:induction false} ReversedWalk(g: Graph, n: nat, a: string, b: string)
    requires Walk(Reversed(g), n, a, b)
    ensures Walk(g, n, b, a)
  {
    if n > 0 {
      var c :| Edge(Reversed(g), a, c) && Walk(Reversed(g), n - 1, c, b);
      ReversedWalk(g, n - 1, c, b);
      assert Edge(g, c, a) && Walk(g, 0, a, a);
      assert Walk(g, 1, c, a);
      WalkConcat(g, n - 1, 1, b, c, a);
    }
  }

  lemma OpenPredecessor(inputs: set<Input>, s: Surfaces, repositories: set<string>, id: string) returns (before: string)
    requires Merged(inputs, s)
    requires IsOpen(s, id) && HeldByOpenNodes(s, repositories, id)
    requires UnsatisfiedOf(s, repositories, id) != {} || ChildrenOf(s, id) != {}
    ensures (before, id) in OpenEdges(s)
  {
    if UnsatisfiedOf(s, repositories, id) != {} {
      before :| before in UnsatisfiedOf(s, repositories, id);
    } else {
      before :| before in ChildrenOf(s, id);
      assert HasChild(s.children, id, before);
      var i :| i in inputs && IsChild(i, id, before);
      assert States(i, before, id, SubIssue);
      assert HasSource(s.edges, before, id, SubIssue);
    }
  }

  lemma StuckNodesFormACycle(inputs: set<Input>, s: Surfaces, repositories: set<string>, someOpen: string)
    requires Merged(inputs, s) && IsOpen(s, someOpen)
    requires forall id :: IsOpen(s, id) ==> HeldByOpenNodes(s, repositories, id)
    requires forall id :: id in s.open ==> !Dispatchable(s, repositories, id)
    ensures CycleNodes(s) != {}
  {
    var g := OpenEdges(s);
    var opens := set id | id in s.open && IsOpen(s, id);
    forall id {:trigger HasSuccessorIn(Reversed(g), opens, id)} | id in opens
      ensures HasSuccessorIn(Reversed(g), opens, id)
    {
      CycleTestIsImplied(s, repositories, id);
      var before := OpenPredecessor(inputs, s, repositories, id);
      assert Edge(Reversed(g), id, before) && before in opens;
    }
    var on := NoSinkGivesCycle(Reversed(g), opens, someOpen);
    var n: nat :| n > 0 && Walk(Reversed(g), n, on, on);
    ReversedWalk(g, n, on, on);
    assert on in CycleNodes(s);
  }

  /** Progress: with no fault and some node open, something can be dispatched, provided
      each open node is held back by open nodes only. */
  lemma SomethingIsDispatchable(inputs: set<Input>, s: Surfaces, repositories: set<string>, someOpen: string)
    requires Merged(inputs, s) && GraphOf(s, repositories).faults == []
    requires IsOpen(s, someOpen)
    requires forall id :: IsOpen(s, id) ==> HeldByOpenNodes(s, repositories, id)
    ensures exists id :: id in s.open && Dispatchable(s, repositories, id)
  {
    if forall id :: id in s.open ==> !Dispatchable(s, repositories, id) {
      StuckNodesFormACycle(inputs, s, repositories, someOpen);
    }
  }

  function ClosedInput(i: Input, id: string): Input {
    if i.id == id then i.(open := false) else i
  }

  function Close(inputs: set<Input>, id: string): set<Input> {
    set i | i in inputs :: ClosedInput(i, id)
  }

  lemma CloseKeepsStatements(inputs: set<Input>, id: string, d: string, t: string, x: Source)
    ensures Stated(inputs, d, t, x) <==> Stated(Close(inputs, id), d, t, x)
  {
    if i :| i in inputs && States(i, d, t, x) {
      assert ClosedInput(i, id) in Close(inputs, id) && States(ClosedInput(i, id), d, t, x);
    }
  }

  lemma CloseKeepsChildren(inputs: set<Input>, id: string, p: string, c: string)
    ensures ChildStated(inputs, p, c) <==> ChildStated(Close(inputs, id), p, c)
  {
    if i :| i in inputs && IsChild(i, p, c) {
      assert ClosedInput(i, id) in Close(inputs, id) && IsChild(ClosedInput(i, id), p, c);
    }
  }

  lemma CloseMergesOpen(inputs: set<Input>, id: string, open: map<string, bool>)
    requires OpenMerged(inputs, open) && id in open
    ensures OpenMerged(Close(inputs, id), open[id := false])
  {
    var after := open[id := false];
    forall x
      ensures x in after <==> exists i :: i in Close(inputs, id) && i.id == x
    {
      if x in after {
        var i :| i in inputs && i.id == x;
        assert ClosedInput(i, id) in Close(inputs, id) && ClosedInput(i, id).id == x;
      }
    }
    forall x | x in after
      ensures after[x] <==> exists i :: i in Close(inputs, id) && i.id == x && i.open
    {
      if after[x] {
        var i :| i in inputs && i.id == x && i.open;
        assert ClosedInput(i, id) in Close(inputs, id) && ClosedInput(i, id).open;
      }
    }
  }

  // Closing a node changes that node's state and nothing else that is merged.
  lemma CloseChangesOneNode(inputs: set<Input>, id: string, s: Surfaces)
    requires Merged(inputs, s) && id in s.open
    ensures Merged(Close(inputs, id), s.(open := s.open[id := false]))
  {
    CloseMergesOpen(inputs, id, s.open);
    forall d, t, x
      ensures HasSource(s.edges, d, t, x) <==> Stated(Close(inputs, id), d, t, x)
    {
      CloseKeepsStatements(inputs, id, d, t, x);
    }
    forall p, c
      ensures HasChild(s.children, p, c) <==> ChildStated(Close(inputs, id), p, c)
    {
      CloseKeepsChildren(inputs, id, p, c);
    }
  }

  /** Closing one node never takes dispatchability from another. */
  lemma ClosingKeepsOthersDispatchable(inputs: set<Input>, repositories: set<string>, closed: string,
                                       s: Surfaces, t: Surfaces, id: string)
    requires Merged(inputs, s) && Merged(Close(inputs, closed), t)
    requires closed in s.open && id != closed && Dispatchable(s, repositories, id)
    ensures Dispatchable(t, repositories, id)
  {
    CloseChangesOneNode(inputs, closed, s);
    MergeIsUnique(Close(inputs, closed), t, s.(open := s.open[closed := false]));
    assert DependenciesOf(t, id) == DependenciesOf(s, id);
    assert UnsatisfiedOf(t, repositories, id) <= UnsatisfiedOf(s, repositories, id);
    CycleTestIsImplied(t, repositories, id);
  }

  // ---- Unblocking power ----

  ghost function Pick(ids: set<string>): string
    requires ids != {}
  {
    var id :| id in ids;
    id
  }

  ghost function TotalPower(s: Surfaces, repositories: set<string>, ids: set<string>): nat
    requires ids <= s.open.Keys
  {
    if ids == {} then 0
    else
      var id := Pick(ids);
      NodeOf(s, repositories, id).unblockingPower + TotalPower(s, repositories, ids - {id})
  }

  // The nodes with a single unsatisfied dependency that is one of `ids`.
  function HeldByOneOf(s: Surfaces, repositories: set<string>, ids: set<string>): set<string> {
    set item | item in s.open && exists id :: id in ids && UnsatisfiedOf(s, repositories, item) == {id}
  }

  lemma HeldWithout(s: Surfaces, repositories: set<string>, ids: set<string>, id: string)
    requires id in ids
    ensures UnblockedBy(s, repositories, id) !! HeldByOneOf(s, repositories, ids - {id})
    ensures HeldByOneOf(s, repositories, ids) == UnblockedBy(s, repositories, id) + HeldByOneOf(s, repositories, ids - {id})
  {
    forall item | item in UnblockedBy(s, repositories, id)
      ensures item !in HeldByOneOf(s, repositories, ids - {id})
    {
      assert id in UnsatisfiedOf(s, repositories, item);
    }
  }

  lemma {:induction false} PowersCountHeldNodes(s: Surfaces, repositories: set<string>, ids: set<string>)
    requires ids <= s.open.Keys
    ensures TotalPower(s, repositories, ids) == |HeldByOneOf(s, repositories, ids)|
  {
    if ids == {} {
      assert HeldByOneOf(s, repositories, ids) == {};
    } else {
      var id := Pick(ids);
      PowersCountHeldNodes(s, repositories, ids - {id});
      HeldWithout(s, repositories, ids, id);
    }
  }

  /** Each node held back by exactly one dependency that is itself a node is counted
      by that dependency and by nothing else. */
  lemma PowersSumToHeldNodes(s: Surfaces, repositories: set<string>)
    ensures TotalPower(s, repositories, s.open.Keys) == |HeldByOneOf(s, repositories, s.open.Keys)|
  {
    PowersCountHeldNodes(s, repositories, s.open.Keys);
  }
}
