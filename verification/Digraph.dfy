/** Directed graphs over names, given by their edges. Three parts of the program
    search such a graph: the work graph, the evidence graph and the milestone
    order. They share one notion of walk and cycle. */
module Digraph {
  type Graph = set<(string, string)>

  ghost predicate Edge(g: Graph, a: string, b: string) {
    (a, b) in g
  }

  // A walk of exactly `n` edges leads from `a` to `b`.
  ghost predicate Walk(g: Graph, n: nat, a: string, b: string) {
    if n == 0 then a == b else exists c :: Edge(g, a, c) && Walk(g, n - 1, c, b)
  }

  // A walk of at least one edge leads from `a` to `b`.
  ghost predicate Leads(g: Graph, a: string, b: string) {
    exists n: nat :: n > 0 && Walk(g, n, a, b)
  }

  ghost predicate OnCycle(g: Graph, a: string) {
    Leads(g, a, a)
  }

  ghost predicate Acyclic(g: Graph) {
    forall a :: !OnCycle(g, a)
  }

  ghost predicate Closed(g: Graph, s: set<string>) {
    forall a, b :: a in s && Edge(g, a, b) ==> b in s
  }

  lemma {:induction false} WalkConcat(g: Graph, m: nat, n: nat, a: string, b: string, c: string)
    requires Walk(g, m, a, b) && Walk(g, n, b, c)
    ensures Walk(g, m + n, a, c)
    decreases m
  {
    if m > 0 {
      var d :| Edge(g, a, d) && Walk(g, m - 1, d, b);
      WalkConcat(g, m - 1, n, d, b, c);
    }
  }

  lemma EdgeLeads(g: Graph, a: string, b: string)
    requires Edge(g, a, b)
    ensures Leads(g, a, b)
  {
    assert Walk(g, 0, b, b);
    assert Walk(g, 1, a, b);
  }

  lemma LeadsTransitive(g: Graph, a: string, b: string, c: string)
    requires Leads(g, a, b) && Leads(g, b, c)
    ensures Leads(g, a, c)
  {
    var m: nat :| m > 0 && Walk(g, m, a, b);
    var n: nat :| n > 0 && Walk(g, n, b, c);
    WalkConcat(g, m, n, a, b, c);
  }

  // The first edge of a nonempty walk.
  lemma FirstEdge(g: Graph, a: string, b: string) returns (c: string)
    requires Leads(g, a, b)
    ensures Edge(g, a, c) && (c == b || Leads(g, c, b))
  {
    var n: nat :| n > 0 && Walk(g, n, a, b);
    c :| Edge(g, a, c) && Walk(g, n - 1, c, b);
  }

  // The last edge of a nonempty walk.
  lemma LastEdge(g: Graph, a: string, b: string) returns (c: string)
    requires Leads(g, a, b)
    ensures Edge(g, c, b) && (c == a || Leads(g, a, c))
  {
    var n: nat :| n > 0 && Walk(g, n, a, b);
    c := LastEdgeOfWalk(g, n, a, b);
  }

  lemma {:induction false} LastEdgeOfWalk(g: Graph, n: nat, a: string, b: string) returns (c: string)
    requires n > 0 && Walk(g, n, a, b)
    ensures Edge(g, c, b) && Walk(g, n - 1, a, c)
  {
    var d :| Edge(g, a, d) && Walk(g, n - 1, d, b);
    if n == 1 {
      c := a;
    } else {
      c := LastEdgeOfWalk(g, n - 1, d, b);
    }
  }

  // A walk never leaves a closed set.
  lemma {:induction false} WalkStaysInside(g: Graph, s: set<string>, n: nat, a: string, b: string)
    requires Closed(g, s) && a in s && Walk(g, n, a, b)
    ensures b in s
  {
    if n > 0 {
      var c :| Edge(g, a, c) && Walk(g, n - 1, c, b);
      WalkStaysInside(g, s, n - 1, c, b);
    }
  }

  lemma LeadsStaysInside(g: Graph, s: set<string>, a: string, b: string)
    requires Closed(g, s) && a in s && Leads(g, a, b)
    ensures b in s
  {
    var n: nat :| n > 0 && Walk(g, n, a, b);
    WalkStaysInside(g, s, n, a, b);
  }

  ghost predicate HasSuccessorIn(g: Graph, s: set<string>, a: string) {
    exists b :: b in s && Edge(g, a, b)
  }

  // The members of `s` that a nonempty walk from `start` reaches.
  ghost function ReachedIn(g: Graph, s: set<string>, start: string): set<string> {
    set x | x in s && Leads(g, start, x)
  }

  lemma ReachedKeepsSuccessors(g: Graph, s: set<string>, start: string, a: string)
    requires HasSuccessorIn(g, s, a)
    requires a == start || Leads(g, start, a)
    ensures HasSuccessorIn(g, ReachedIn(g, s, start), a)
  {
    var b :| b in s && Edge(g, a, b);
    EdgeLeads(g, a, b);
    if a != start {
      LeadsTransitive(g, start, a, b);
    }
    assert b in ReachedIn(g, s, start);
  }

  /** If every member of a finite nonempty set has a successor inside the set, the
      set holds a cycle that some given start reaches. The nodes reached from
      the start form a smaller set of the same kind unless the start reaches
      itself. */
  lemma {:induction false} NoSinkGivesCycle(g: Graph, s: set<string>, start: string) returns (on: string)
    requires start in s
    requires forall a {:trigger HasSuccessorIn(g, s, a)} :: a in s ==> HasSuccessorIn(g, s, a)
    ensures on in s && OnCycle(g, on) && (on == start || Leads(g, start, on))
    decreases |s|
  {
    if OnCycle(g, start) {
      on := start;
    } else {
      var reached := ReachedIn(g, s, start);
      forall a {:trigger HasSuccessorIn(g, reached, a)} | a in reached
        ensures HasSuccessorIn(g, reached, a)
      {
        ReachedKeepsSuccessors(g, s, start, a);
      }
      ReachedKeepsSuccessors(g, s, start, start);
      var next :| next in reached && Edge(g, start, next);
      assert start !in reached;
      SmallerSubset(reached, s);
      on := NoSinkGivesCycle(g, reached, next);
    }
  }

  lemma {:induction false} SmallerSubset<T>(a: set<T>, b: set<T>)
    requires a < b
    ensures |a| < |b|
  {
    assert b == a + (b - a);
    assert |b| == |a| + |b - a|;
  }
}
