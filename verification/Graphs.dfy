/** Directed graphs, cycles, and the two facts a depth-first search rests on. */
module Graphs {
  type Graph = map<string, set<string>>

  predicate Edge(g: Graph, u: string, v: string) {
    u in g && v in g[u]
  }

  predicate Walk(g: Graph, p: seq<string>) {
    forall k :: 0 <= k < |p| - 1 ==> Edge(g, p[k], p[k + 1])
  }

  /** A walk of at least one step from the node back to itself. */
  predicate Loop(g: Graph, u: string, p: seq<string>) {
    |p| >= 2 && p[0] == u && p[|p| - 1] == u && Walk(g, p)
  }

  ghost predicate OnCycle(g: Graph, u: string) {
    exists p :: Loop(g, u, p)
  }

  ghost predicate Cyclic(g: Graph) {
    exists u :: OnCycle(g, u)
  }

  predicate Unrepeated(s: seq<string>) {
    forall i, j :: 0 <= i < j < |s| ==> s[i] != s[j]
  }

  /** Every node comes after all the nodes it points to. */
  ghost predicate Topological(g: Graph, order: seq<string>) {
    Unrepeated(order) && forall k, v :: 0 <= k < |order| && Edge(g, order[k], v) ==> v in order[..k]
  }

  lemma TopologicalExtends(g: Graph, order: seq<string>, u: string)
    requires Topological(g, order) && u !in order && forall v :: Edge(g, u, v) ==> v in order
    ensures Topological(g, order + [u])
  {
    var longer := order + [u];
    forall k, v | 0 <= k < |longer| && Edge(g, longer[k], v) ensures v in longer[..k] {
      if k < |order| { assert longer[..k] == order[..k]; } else { assert longer[..k] == order; }
    }
  }

  lemma {:induction false} WalkGoesDown(g: Graph, order: seq<string>, p: seq<string>, k: nat, i: nat)
    requires Topological(g, order) && Walk(g, p) && k < |p| && i < |order| && order[i] == p[0]
    ensures k <= i && p[k] in order[..i + 1 - k]
  {
    if k > 0 {
      WalkGoesDown(g, order, p, k - 1, i);
      var m := i + 2 - k;
      var j :| 0 <= j < m && order[..m][j] == p[k - 1];
      assert Edge(g, p[k - 1], p[k]);
      assert p[k] in order[..j] && order[..j] <= order[..m - 1];
    }
  }

  /** A graph whose nodes can be put in such an order has no cycle. */
  lemma TopologicalIsAcyclic(g: Graph, order: seq<string>)
    requires Topological(g, order) && forall u :: u in g ==> u in order
    ensures !Cyclic(g)
  {
    forall u, p ensures !Loop(g, u, p) {
      if Loop(g, u, p) {
        assert Edge(g, p[0], p[1]);
        var i :| 0 <= i < |order| && order[i] == p[0];
        WalkGoesDown(g, order, p, |p| - 1, i);
        assert false;
      }
    }
  }

  /** Reaching a node that is still on the search path closes a cycle. */
  lemma BackEdgeCloses(g: Graph, path: seq<string>, u: string)
    requires Walk(g, path) && u in path && path != [] && Edge(g, path[|path| - 1], u)
    ensures OnCycle(g, u) && Cyclic(g)
  {
    var i :| 0 <= i < |path| && path[i] == u;
    var p := path[i..] + [u];
    forall k | 0 <= k < |p| - 1 ensures Edge(g, p[k], p[k + 1]) {
      if k < |p| - 2 { assert p[k] == path[i + k] && p[k + 1] == path[i + k + 1]; assert Edge(g, path[i + k], path[i + k + 1]); }
    }
    assert Loop(g, u, p);
  }
}
