/** Directed graphs as adjacency maps, paths, cycles, and the one fact every depth-first search here rests on. */
module Graphs {

  type Node = string
  type Graph = map<Node, seq<Node>>

  /** `adjacency.get(node, [])`. */
  function Succ(g: Graph, n: Node): seq<Node> {
    if n in g then g[n] else []
  }

  ghost predicate Edge(g: Graph, a: Node, b: Node) {
    b in Succ(g, a)
  }

  ghost predicate IsPath(g: Graph, p: seq<Node>) {
    |p| > 0 && forall i, j :: 0 <= i < |p| && j == i + 1 && j < |p| ==> Edge(g, p[i], p[j])
  }

  ghost predicate PathBetween(g: Graph, a: Node, b: Node, p: seq<Node>) {
    IsPath(g, p) && p[0] == a && p[|p| - 1] == b
  }

  ghost predicate Reaches(g: Graph, a: Node, b: Node) {
    exists p :: PathBetween(g, a, b, p)
  }

  ghost predicate IsCycle(g: Graph, p: seq<Node>) {
    IsPath(g, p) && |p| >= 2 && p[0] == p[|p| - 1]
  }

  ghost predicate Acyclic(g: Graph) {
    forall p :: !IsCycle(g, p)
  }

  /** Every node the graph mentions. */
  ghost function Nodes(g: Graph): set<Node> {
    g.Keys + set n, m | n in g && m in g[n] :: m
  }

  lemma PathExtend(g: Graph, p: seq<Node>, n: Node)
    requires IsPath(g, p) && Edge(g, p[|p| - 1], n)
    ensures IsPath(g, p + [n])
  {
  }

  lemma PathJoin(g: Graph, p: seq<Node>, q: seq<Node>)
    requires IsPath(g, p) && IsPath(g, q) && p[|p| - 1] == q[0]
    ensures IsPath(g, p + q[1..]) && (p + q[1..])[|p + q[1..]| - 1] == q[|q| - 1]
  {
  }

  lemma PathSuffix(g: Graph, p: seq<Node>, k: nat)
    requires IsPath(g, p) && k < |p|
    ensures IsPath(g, p[k..])
  {
  }

  lemma ReachesStep(g: Graph, a: Node, b: Node, c: Node)
    requires Reaches(g, a, b) && Edge(g, b, c)
    ensures Reaches(g, a, c)
  {
    var p :| PathBetween(g, a, b, p);
    PathExtend(g, p, c);
    assert PathBetween(g, a, c, p + [c]);
  }

  lemma ReachesSelf(g: Graph, a: Node)
    ensures Reaches(g, a, a)
  {
    assert PathBetween(g, a, a, [a]);
  }

  /** A finishing order: every successor of a listed node is listed before it. */
  ghost predicate Topological(g: Graph, order: seq<Node>) {
    forall i, m :: 0 <= i < |order| && Edge(g, order[i], m) ==> m in order[..i]
  }

  lemma TopologicalAppend(g: Graph, order: seq<Node>, n: Node)
    requires Topological(g, order)
    requires forall m :: Edge(g, n, m) ==> m in order
    ensures Topological(g, order + [n])
  {
    var longer := order + [n];
    forall i, m | 0 <= i < |longer| && Edge(g, longer[i], m)
      ensures m in longer[..i]
    {
      if i < |order| {
        assert longer[..i] == order[..i];
      } else {
        assert longer[..i] == order;
      }
    }
  }

  /** Along a path, positions in a finishing order strictly fall. */
  lemma {:induction false} PathDescends(g: Graph, order: seq<Node>, p: seq<Node>, i: nat) returns (j: nat)
    requires Topological(g, order) && IsPath(g, p)
    requires i < |order| && order[i] == p[0]
    ensures j + |p| - 1 <= i && order[j] == p[|p| - 1]
    decreases |p|
  {
    if |p| == 1 {
      j := i;
    } else {
      assert Edge(g, p[0], p[1]);
      var k :| 0 <= k < i && order[k] == p[1];
      PathSuffix(g, p, 1);
      j := PathDescends(g, order, p[1..], k);
    }
  }

  /** A finishing order is closed under reachability. */
  lemma TopologicalClosed(g: Graph, order: seq<Node>, a: Node, b: Node)
    requires Topological(g, order) && a in order && Reaches(g, a, b)
    ensures b in order
  {
    var p :| PathBetween(g, a, b, p);
    var i :| 0 <= i < |order| && order[i] == a;
    var j := PathDescends(g, order, p, i);
  }

  /** No cycle passes through a node of a finishing order. */
  lemma {:induction false} TopologicalNoCycle(g: Graph, order: seq<Node>, c: seq<Node>, i: nat)
    requires Topological(g, order) && IsPath(g, c) && i < |order| && order[i] == c[0]
    ensures !IsCycle(g, c)
    decreases i
  {
    if IsCycle(g, c) {
      var j := PathDescends(g, order, c, i);
      TopologicalNoCycle(g, order, c, j);
    }
  }

  lemma TopologicalAcyclic(g: Graph, order: seq<Node>)
    requires Topological(g, order)
    requires forall n :: n in g ==> n in order
    ensures Acyclic(g)
  {
    forall c ensures !IsCycle(g, c) {
      if IsCycle(g, c) {
        assert Edge(g, c[0], c[1]);
        var i :| 0 <= i < |order| && order[i] == c[0];
        TopologicalNoCycle(g, order, c, i);
      }
    }
  }
}
