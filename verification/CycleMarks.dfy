/** Marking of import cycles in the collected dependency graph (`_detect_cycles`). */
module CycleMarks {
  import opened Graphs
  import opened Sequences

  // ---- cycles ----

  ghost predicate OnCycle(g: Graph, n: Node) {
    exists c :: IsCycle(g, c) && n in c
  }

  /** What the source's own description promises. */
  ghost predicate AllMarked(g: Graph, marked: set<Node>) {
    forall n :: OnCycle(g, n) ==> n in marked
  }

  ghost predicate Hit(c: seq<Node>, marked: set<Node>) {
    exists n :: n in c && n in marked
  }

  ghost predicate EveryCycleHit(g: Graph, marked: set<Node>) {
    forall c {:trigger Hit(c, marked)} :: IsCycle(g, c) ==> Hit(c, marked)
  }

  ghost predicate Avoids(p: seq<Node>, gone: set<Node>) {
    forall x :: x in p ==> x !in gone
  }

  /** The node lies on a cycle that avoids the given nodes. */
  ghost predicate CycleAround(g: Graph, gone: set<Node>, n: Node) {
    exists c :: IsCycle(g, c) && n in c && Avoids(c, gone)
  }

  ghost predicate ReachesWithout(g: Graph, gone: set<Node>, a: Node, b: Node) {
    exists p :: PathBetween(g, a, b, p) && Avoids(p, gone)
  }

  /** Two different successors of r lead to b without passing r again, and b leads back to r. */
  ghost predicate MergesAt(g: Graph, r: Node, s: Node, t: Node, b: Node) {
    && s != t && Edge(g, r, s) && Edge(g, r, t)
    && ReachesWithout(g, {r}, s, b) && ReachesWithout(g, {r}, t, b) && Reaches(g, b, r)
  }

  ghost predicate Merges(g: Graph) {
    exists r, s, t, b :: MergesAt(g, r, s, t, b)
  }

  /** No node has two different successors that both lead back to it. */
  ghost predicate OneWayBack(g: Graph) {
    forall r, s, t :: Edge(g, r, s) && Edge(g, r, t) && Reaches(g, s, r) && Reaches(g, t, r) ==> s == t
  }

  lemma WithoutThenBack(g: Graph, r: Node, s: Node, b: Node)
    requires ReachesWithout(g, {r}, s, b) && Reaches(g, b, r)
    ensures Reaches(g, s, r)
  {
    var p :| PathBetween(g, s, b, p) && Avoids(p, {r});
    var q :| PathBetween(g, b, r, q);
    PathJoin(g, p, q);
    assert PathBetween(g, s, r, p + q[1..]);
  }

  lemma OneWayBackNeverMerges(g: Graph)
    requires OneWayBack(g)
    ensures !Merges(g)
  {
    if Merges(g) {
      var r, s, t, b :| MergesAt(g, r, s, t, b);
      WithoutThenBack(g, r, s, b);
      WithoutThenBack(g, r, t, b);
      assert false;
    }
  }

  lemma OnlyStep(g: Graph, r: Node, p: seq<Node>)
    requires IsPath(g, p) && Succ(g, p[0]) == [r]
    ensures |p| > 1 ==> r in p
  {
    if |p| > 1 {
      assert Edge(g, p[0], p[1]);
    }
  }

  lemma LeafStays(g: Graph, r: Node, s: Node, b: Node)
    requires Succ(g, s) == [r] && ReachesWithout(g, {r}, s, b)
    ensures b == s
  {
    var p :| PathBetween(g, s, b, p) && Avoids(p, {r});
    OnlyStep(g, r, p);
  }

  /** Never merging is the wider condition: two cycles that share one node. */
  lemma FigureEight(g: Graph, r: Node, x: Node, y: Node)
    requires r != x && r != y && x != y && g == map[r := [x, y], x := [r], y := [r]]
    ensures !OneWayBack(g) && !Merges(g)
  {
    assert Edge(g, r, x) && Edge(g, r, y) && PathBetween(g, x, r, [x, r]) && PathBetween(g, y, r, [y, r]);
    forall p, s, t, b ensures !MergesAt(g, p, s, t, b) {
      if MergesAt(g, p, s, t, b) {
        assert p == r;
        LeafStays(g, r, s, b);
        LeafStays(g, r, t, b);
        assert false;
      }
    }
  }

  lemma RotateMembers(c: seq<Node>, k: nat)
    requires 0 < k < |c| && c[0] == c[|c| - 1]
    ensures forall x :: x in c[k..] + c[1..k + 1] <==> x in c
  {
    assert c == [c[0]] + c[1..k + 1] + c[k + 1..];
    assert c[k..] == [c[k]] + c[k + 1..];
    assert c[|c| - 1] in c[k..];
    assert c[k] in c;
  }

  /** A cycle may be entered anywhere. */
  lemma Rotate(g: Graph, c: seq<Node>, k: nat) returns (r: seq<Node>)
    requires IsCycle(g, c) && k < |c|
    ensures IsCycle(g, r) && r[0] == c[k] && forall x :: x in r <==> x in c
  {
    r := c[k..] + c[1..k + 1];
    PathSuffix(g, c, k);
    if k == 0 {
      assert r == c;
    } else {
      assert IsPath(g, c[..k + 1]);
      PathJoin(g, c[k..], c[..k + 1]);
      assert c[..k + 1][1..] == c[1..k + 1];
      RotateMembers(c, k);
    }
  }

  lemma CycleNodesAreKeys(g: Graph, c: seq<Node>, n: Node)
    requires IsCycle(g, c) && n in c
    ensures n in g
  {
    var k :| 0 <= k < |c| && c[k] == n;
    var j := if k < |c| - 1 then k else 0;
    assert Edge(g, c[j], c[j + 1]);
  }

  // ---- what the search computes, as a function ----

  /** `before` maps each visited node to the nodes that were already finished when it was entered. Neither `visited`
      nor `before` depends on the marks. */
  datatype Tour = Tour(visited: set<Node>, before: map<Node, set<Node>>, inCycle: set<Node>)

  const START := Tour({}, map[], {})

  /** The finished nodes: visited and no longer on the path. */
  function Done(path: seq<Node>, t: Tour): set<Node> {
    t.visited - set x | x in path
  }

  function Entered(t: Tour, path: seq<Node>, node: Node): Tour {
    Tour(t.visited + {node}, t.before[node := Done(path, t)], t.inCycle)
  }

  /** The path from the first occurrence of the node on. */
  function From(path: seq<Node>, n: Node): seq<Node> {
    if path == [] || path[0] == n then path else From(path[1..], n)
  }

  lemma {:induction false} FromIndex(path: seq<Node>, n: Node, idx: nat)
    requires idx < |path| && path[idx] == n && n !in path[..idx]
    ensures From(path, n) == path[idx..]
  {
    if idx == 0 {
    } else {
      assert path[0] == path[..idx][0] && path[1..][..idx - 1] == path[..idx][1..];
      FromIndex(path[1..], n, idx - 1);
    }
  }

  lemma FewerLeft(adj: Graph, visited: set<Node>, more: set<Node>)
    requires visited <= more
    ensures |adj.Keys - more| <= |adj.Keys - visited|
    ensures (exists n :: n in more && n in adj && n !in visited) ==> |adj.Keys - more| < |adj.Keys - visited|
  {
    var a, b := adj.Keys - more, adj.Keys - visited;
    assert b == a + (b - a);
    assert forall n :: n in more && n in adj && n !in visited ==> n in b - a;
  }

  /** One neighbour of the last node of the path. */
  ghost function LookAt(adj: Graph, path: seq<Node>, t: Tour, n: Node): (r: Tour)
    ensures t.visited <= r.visited
    decreases |adj.Keys - t.visited|, 1, 0
  {
    if n !in adj then t
    else if n in path then t.(inCycle := t.inCycle + Elements(From(path, n)))
    else if n !in t.visited then Visit(adj, n, path, t)
    else t
  }

  /** The neighbours of `node` from position i on; `path` ends with `node`. */
  ghost function Scan(adj: Graph, node: Node, path: seq<Node>, t: Tour, i: nat): (r: Tour)
    requires node in adj && i <= |adj[node]|
    ensures t.visited <= r.visited
    decreases |adj.Keys - t.visited|, 2, |adj[node]| - i
  {
    if i == |adj[node]| then t
    else
      var t' := LookAt(adj, path, t, adj[node][i]);
      FewerLeft(adj, t.visited, t'.visited);
      Scan(adj, node, path, t', i + 1)
  }

  ghost function Visit(adj: Graph, node: Node, path: seq<Node>, t: Tour): (r: Tour)
    requires node in adj && node !in t.visited
    ensures t.visited + {node} <= r.visited
    decreases |adj.Keys - t.visited|, 0, 0
  {
    FewerLeft(adj, t.visited, t.visited + {node});
    Scan(adj, node, path + [node], Entered(t, path, node), 0)
  }

  ghost function MarkFrom(adj: Graph, order: seq<Node>, k: nat, t: Tour): Tour
    requires k <= |order| && forall n :: n in order ==> n in adj
    decreases |order| - k
  {
    if k == |order| then t
    else MarkFrom(adj, order, k + 1, if order[k] in t.visited then t else Visit(adj, order[k], [], t))
  }

  ghost predicate Diamond(adj: Graph, a: Node, b: Node, c: Node, d: Node) {
    && a != b && a != c && a != d && b != c && b != d && c != d
    && adj == map[a := [b, c], b := [d], c := [d], d := [a]]
  }

  lemma EnteredIs(t: Tour, path: seq<Node>, node: Node, done: set<Node>, r: Tour)
    requires Done(path, t) == done && r == Tour(t.visited + {node}, t.before[node := done], t.inCycle)
    ensures Entered(t, path, node) == r
  {
  }

  /** The first branch: b and then d are visited, and the edge from d back to a marks the path. */
  lemma FirstBranch(adj: Graph, a: Node, b: Node, c: Node, d: Node)
    requires Diamond(adj, a, b, c, d)
    ensures Visit(adj, b, [a], Tour({a}, map[a := {}], {})) ==
            Tour({a, b, d}, map[a := {}, b := {}, d := {}], {a, b, d})
  {
    var atA, atB := Tour({a}, map[a := {}], {}), Tour({a, b}, map[a := {}, b := {}], {});
    var atD := Tour({a, b, d}, map[a := {}, b := {}, d := {}], {});
    var abd := [a, b, d];
    var marked := atD.(inCycle := {a, b, d});
    assert From(abd, a) == abd && {} + Elements(abd) == {a, b, d};
    assert LookAt(adj, abd, atD, a) == marked;
    assert Scan(adj, d, abd, atD, 0) == Scan(adj, d, abd, marked, 1) == marked;
    assert [a, b] + [d] == abd;
    EnteredIs(atB, [a, b], d, {}, atD);
    assert Visit(adj, d, [a, b], atB) == marked;
    assert LookAt(adj, [a, b], atB, d) == marked;
    assert Scan(adj, b, [a, b], atB, 0) == Scan(adj, b, [a, b], marked, 1) == marked;
    assert [a] + [b] == [a, b];
    EnteredIs(atA, [a], b, {}, atB);
  }

  /** Not every node of a cycle is marked: with a -> b, c; b -> d; c -> d; d -> a and a visited first, c is missed. */
  lemma MissesNode(adj: Graph, a: Node, b: Node, c: Node, d: Node)
    requires Diamond(adj, a, b, c, d)
    ensures IsCycle(adj, [a, c, d, a])
    ensures MarkFrom(adj, [a, b, c, d], 0, START).inCycle == {a, b, d}
  {
    assert Edge(adj, a, c) && Edge(adj, c, d) && Edge(adj, d, a);
    var atA := Tour({a}, map[a := {}], {});
    var marked := Tour({a, b, d}, map[a := {}, b := {}, d := {}], {a, b, d});
    var all := Tour({a, b, c, d}, map[a := {}, b := {}, d := {}, c := {b, d}], {a, b, d});
    FirstBranch(adj, a, b, c, d);
    assert LookAt(adj, [a, c], all, d) == all;
    assert Scan(adj, c, [a, c], all, 0) == Scan(adj, c, [a, c], all, 1) == all;
    assert [a] + [c] == [a, c];
    EnteredIs(marked, [a], c, {b, d}, all);
    assert LookAt(adj, [a], atA, b) == marked && LookAt(adj, [a], marked, c) == all;
    assert Scan(adj, a, [a], atA, 0) == Scan(adj, a, [a], marked, 1) == Scan(adj, a, [a], all, 2) == all;
    assert [] + [a] == [a];
    EnteredIs(START, [], a, {}, atA);
    assert Visit(adj, a, [], START) == all;
    var order := [a, b, c, d];
    assert MarkFrom(adj, order, 1, all) == MarkFrom(adj, order, 2, all) == MarkFrom(adj, order, 3, all) == all;
  }

  // ---- what every step keeps ----

  ghost predicate Nested(t: Tour, n: Node)
    requires n in t.before
  {
    n !in t.before[n] && forall m :: m in t.before[n] ==> m in t.before && t.before[m] <= t.before[n]
  }

  ghost predicate Ordered(path: seq<Node>, t: Tour) {
    t.before.Keys == t.visited && forall n :: n in t.before ==> t.before[n] <= Done(path, t) && Nested(t, n)
  }

  ghost predicate IsTrail(adj: Graph, path: seq<Node>, t: Tour) {
    && Distinct(path) && (path != [] ==> IsPath(adj, path)) && t.visited <= adj.Keys
    && (forall n :: n in path ==> n in t.visited)
  }

  /** A finished node leads to visited nodes only. */
  ghost predicate Explored(adj: Graph, path: seq<Node>, t: Tour) {
    forall u, v :: u in Done(path, t) && Edge(adj, u, v) && v in adj ==> v in t.visited
  }

  /** What was finished when a node of the path was entered leads to such nodes or to the path before that node. */
  ghost predicate Layered(adj: Graph, path: seq<Node>, t: Tour)
    requires Ordered(path, t) && IsTrail(adj, path, t)
  {
    forall j, u, v :: 0 <= j < |path| && u in t.before[path[j]] && Edge(adj, u, v) && v in adj ==>
      v in t.before[path[j]] || v in path[..j]
  }

  /** u was finished after position i of the path was entered. */
  ghost predicate Below(path: seq<Node>, t: Tour, i: nat, u: Node)
    requires i < |path| && path[i] in t.before
  {
    u in Done(path, t) && u !in t.before[path[i]]
  }

  /** A back edge from below a node of the path to that node or above has marked it. */
  ghost predicate BackMarked(adj: Graph, path: seq<Node>, t: Tour)
    requires Ordered(path, t) && IsTrail(adj, path, t)
  {
    forall i, u, v :: 0 <= i < |path| && Below(path, t, i, u) && Edge(adj, u, v) && v in path[..i + 1] ==>
      path[i] in t.inCycle
  }

  ghost predicate HangsAt(adj: Graph, path: seq<Node>, t: Tour, i: nat, u: Node)
    requires i < |path|
  {
    exists s :: Edge(adj, path[i], s) && s in Done(path, t) && ReachesWithout(adj, Elements(path[..i + 1]), s, u)
  }

  /** What was finished between two neighbours of the path hangs below a finished successor of the first. */
  ghost predicate Hanging(adj: Graph, path: seq<Node>, t: Tour)
    requires Ordered(path, t) && IsTrail(adj, path, t)
  {
    forall i, u :: 0 <= i < |path| && Below(path, t, i, u) && (i + 1 < |path| ==> u in t.before[path[i + 1]]) ==>
      HangsAt(adj, path, t, i, u)
  }

  ghost predicate MarksSound(adj: Graph, t: Tour) {
    forall n :: n in t.inCycle ==> n in t.before && CycleAround(adj, t.before[n], n)
  }

  /** A finished node is settled: marked if a cycle around what came before it allows, and if it is missed although it
      lies on a cycle then the graph merges. */
  ghost predicate Settled(adj: Graph, t: Tour, n: Node)
    requires n in t.before
  {
    && (CycleAround(adj, t.before[n], n) ==> n in t.inCycle)
    && (OnCycle(adj, n) ==> n in t.inCycle || Merges(adj))
  }

  ghost predicate AllSettled(adj: Graph, path: seq<Node>, t: Tour)
    requires Ordered(path, t)
  {
    forall n :: n in Done(path, t) ==> Settled(adj, t, n)
  }

  ghost predicate Inv(adj: Graph, path: seq<Node>, t: Tour) {
    && Ordered(path, t) && IsTrail(adj, path, t) && Explored(adj, path, t) && Layered(adj, path, t)
    && BackMarked(adj, path, t) && Hanging(adj, path, t) && MarksSound(adj, t) && AllSettled(adj, path, t)
  }

  // ---- entering a node ----

  lemma EnterDone(adj: Graph, path: seq<Node>, t: Tour, node: Node)
    requires IsTrail(adj, path, t) && node !in t.visited
    ensures Done(path + [node], Entered(t, path, node)) == Done(path, t)
  {
  }

  ghost predicate Entering(adj: Graph, path: seq<Node>, t: Tour, node: Node) {
    && Inv(adj, path, t) && node !in t.visited
    && Ordered(path + [node], Entered(t, path, node)) && IsTrail(adj, path + [node], Entered(t, path, node))
  }

  lemma EnterLayered(adj: Graph, path: seq<Node>, t: Tour, node: Node)
    requires Entering(adj, path, t, node)
    ensures Layered(adj, path + [node], Entered(t, path, node))
  {
    var path', t' := path + [node], Entered(t, path, node);
    forall j, u, v | 0 <= j < |path'| && u in t'.before[path'[j]] && Edge(adj, u, v) && v in adj
      ensures v in t'.before[path'[j]] || v in path'[..j]
    {
      assert path'[..j] == path[..j];
      if j < |path| {
        assert path'[j] == path[j];
      } else {
        assert path[..j] == path && u in Done(path, t);
      }
    }
  }

  lemma EnterBackMarked(adj: Graph, path: seq<Node>, t: Tour, node: Node)
    requires Entering(adj, path, t, node)
    ensures BackMarked(adj, path + [node], Entered(t, path, node))
  {
    var path', t' := path + [node], Entered(t, path, node);
    EnterDone(adj, path, t, node);
    forall i, u, v | 0 <= i < |path'| && Below(path', t', i, u) && Edge(adj, u, v) && v in path'[..i + 1]
      ensures path'[i] in t'.inCycle
    {
      assert i < |path|;
      assert path'[..i + 1] == path[..i + 1] && Below(path, t, i, u);
    }
  }

  lemma EnterHanging(adj: Graph, path: seq<Node>, t: Tour, node: Node)
    requires Entering(adj, path, t, node)
    ensures Hanging(adj, path + [node], Entered(t, path, node))
  {
    var path', t' := path + [node], Entered(t, path, node);
    EnterDone(adj, path, t, node);
    forall i, u | 0 <= i < |path'| && Below(path', t', i, u) && (i + 1 < |path'| ==> u in t'.before[path'[i + 1]])
      ensures HangsAt(adj, path', t', i, u)
    {
      assert i < |path|;
      assert path'[..i + 1] == path[..i + 1] && Below(path, t, i, u);
      assert HangsAt(adj, path, t, i, u);
    }
  }

  lemma EnterInv(adj: Graph, path: seq<Node>, t: Tour, node: Node)
    requires Inv(adj, path, t) && node in adj && node !in t.visited
    requires path != [] ==> Edge(adj, path[|path| - 1], node)
    ensures Inv(adj, path + [node], Entered(t, path, node))
  {
    var path', t' := path + [node], Entered(t, path, node);
    EnterDone(adj, path, t, node);
    assert node !in path;
    assert Ordered(path', t');
    if path != [] {
      PathExtend(adj, path, node);
    }
    assert IsTrail(adj, path', t');
    EnterLayered(adj, path, t, node);
    EnterBackMarked(adj, path, t, node);
    EnterHanging(adj, path, t, node);
    forall n | n in Done(path', t') ensures Settled(adj, t', n) {
      assert Settled(adj, t, n);
    }
  }

  // ---- marking along a back edge ----

  /** A neighbour of the last node of the path has been dealt with: if it is on the path, the path from it on is
      marked. */
  ghost predicate Handled(path: seq<Node>, t: Tour, v: Node) {
    v in t.visited && forall i :: 0 <= i < |path| && v in path[..i + 1] ==> path[i] in t.inCycle
  }

  /** Marks that are justified may be added. */
  lemma MoreMarks(adj: Graph, path: seq<Node>, t: Tour, more: set<Node>)
    requires Inv(adj, path, t) && forall n :: n in more ==> n in t.before && CycleAround(adj, t.before[n], n)
    ensures Inv(adj, path, t.(inCycle := t.inCycle + more))
  {
    var t' := t.(inCycle := t.inCycle + more);
    assert Done(path, t') == Done(path, t);
    forall i, u, v | 0 <= i < |path| && Below(path, t', i, u) && Edge(adj, u, v) && v in path[..i + 1]
      ensures path[i] in t'.inCycle
    {
      assert Below(path, t, i, u);
    }
    forall i, u | 0 <= i < |path| && Below(path, t', i, u) && (i + 1 < |path| ==> u in t'.before[path[i + 1]])
      ensures HangsAt(adj, path, t', i, u)
    {
      assert Below(path, t, i, u) && HangsAt(adj, path, t, i, u);
    }
    forall n | n in Done(path, t') ensures Settled(adj, t', n) {
      assert Settled(adj, t, n);
    }
  }

  /** The nodes of the path from position idx on lie on the cycle that an edge back to it closes. */
  lemma BackEdgeCycle(adj: Graph, path: seq<Node>, t: Tour, idx: nat)
    requires Ordered(path, t) && IsTrail(adj, path, t) && idx < |path| && Edge(adj, path[|path| - 1], path[idx])
    ensures forall n :: n in path[idx..] ==> n in t.before && CycleAround(adj, t.before[n], n)
  {
    var cycle := path[idx..] + [path[idx]];
    PathSuffix(adj, path, idx);
    PathExtend(adj, path[idx..], path[idx]);
    assert IsCycle(adj, cycle);
    forall n | n in path[idx..] ensures n in t.before && CycleAround(adj, t.before[n], n) {
      assert forall x :: x in cycle ==> x in path;
      assert n in cycle && Avoids(cycle, t.before[n]);
    }
  }

  lemma MarkInv(adj: Graph, path: seq<Node>, t: Tour, idx: nat)
    requires Inv(adj, path, t) && idx < |path| && Edge(adj, path[|path| - 1], path[idx])
    ensures Inv(adj, path, t.(inCycle := t.inCycle + Elements(path[idx..])))
  {
    BackEdgeCycle(adj, path, t, idx);
    MoreMarks(adj, path, t, Elements(path[idx..]));
  }

  lemma MarkedIsHandled(path: seq<Node>, t: Tour, idx: nat)
    requires idx < |path| && path[idx] !in path[..idx] && path[idx] in t.visited
    requires forall n :: n in path[idx..] ==> n in t.inCycle
    ensures Handled(path, t, path[idx])
  {
    forall i | 0 <= i < |path| && path[idx] in path[..i + 1] ensures path[i] in t.inCycle {
      assert i >= idx;
      assert path[idx..][i - idx] == path[i];
    }
  }

  lemma MarkStep(adj: Graph, path: seq<Node>, t: Tour, idx: nat)
    requires Inv(adj, path, t) && idx < |path| && path[idx] !in path[..idx] && Edge(adj, path[|path| - 1], path[idx])
    ensures var t' := t.(inCycle := t.inCycle + Elements(path[idx..]));
            Inv(adj, path, t') && Handled(path, t', path[idx]) && From(path, path[idx]) == path[idx..]
  {
    FromIndex(path, path[idx], idx);
    MarkInv(adj, path, t, idx);
    MarkedIsHandled(path, t.(inCycle := t.inCycle + Elements(path[idx..])), idx);
  }

  // ---- leaving a node ----

  ghost predicate Leaving(adj: Graph, path: seq<Node>, t: Tour) {
    && Inv(adj, path, t) && path != []
    && (forall v :: Edge(adj, path[|path| - 1], v) && v in adj ==> Handled(path, t, v))
  }

  /** While the last node is unmarked, a walk from it around what came before it stays below it. */
  lemma {:induction false} WalkBelow(adj: Graph, path: seq<Node>, t: Tour, p: seq<Node>, k: nat)
    requires Leaving(adj, path, t) && path[|path| - 1] !in t.inCycle
    requires IsPath(adj, p) && p[0] == path[|path| - 1] && 0 < k < |p|
    requires (forall x :: x in p ==> x in adj) && forall i :: 0 <= i <= k ==> p[i] !in t.before[p[0]]
    ensures Below(path, t, |path| - 1, p[k])
  {
    var last := |path| - 1;
    var v := p[k];
    assert Edge(adj, p[k - 1], p[k]) && v in adj;
    if k == 1 {
      assert Handled(path, t, v);
    } else {
      WalkBelow(adj, path, t, p, k - 1);
    }
    assert path[..last + 1] == path;
    assert v !in path;
  }

  /** A cycle through a node can be walked from that node. */
  lemma CycleFrom(g: Graph, n: Node, c: seq<Node>) returns (r: seq<Node>)
    requires IsCycle(g, c) && n in c
    ensures IsCycle(g, r) && r[0] == n && (forall x :: x in r ==> x in g) && forall x :: x in r <==> x in c
  {
    var k :| 0 <= k < |c| && c[k] == n;
    r := Rotate(g, c, k);
    forall x | x in r ensures x in g {
      CycleNodesAreKeys(g, r, x);
    }
  }

  lemma CycleMarksNode(adj: Graph, path: seq<Node>, t: Tour, c: seq<Node>)
    requires Leaving(adj, path, t) && IsCycle(adj, c) && c[0] == path[|path| - 1]
    requires (forall x :: x in c ==> x in adj) && forall i :: 0 <= i < |c| ==> c[i] !in t.before[c[0]]
    ensures c[0] in t.inCycle
  {
    if c[0] !in t.inCycle {
      WalkBelow(adj, path, t, c, |c| - 1);
      assert false;
    }
  }

  lemma LeaveMarked(adj: Graph, path: seq<Node>, t: Tour)
    requires Leaving(adj, path, t)
    ensures var node := path[|path| - 1]; CycleAround(adj, t.before[node], node) ==> node in t.inCycle
  {
    var node := path[|path| - 1];
    if CycleAround(adj, t.before[node], node) {
      var c :| IsCycle(adj, c) && node in c && Avoids(c, t.before[node]);
      var r := CycleFrom(adj, node, c);
      CycleMarksNode(adj, path, t, r);
    }
  }

  /** Following a path out of a set whose edges lead to the set or to `exits`, one meets an exit. */
  lemma {:induction false} MeetsExit(adj: Graph, s: set<Node>, exits: seq<Node>, p: seq<Node>) returns (k: nat)
    requires IsPath(adj, p) && p[0] in s && p[|p| - 1] !in s && forall x :: x in p ==> x in adj
    requires forall u, v :: u in s && Edge(adj, u, v) && v in adj ==> v in s || v in exits
    ensures k < |p| && p[k] in exits
    decreases |p|
  {
    assert |p| > 1 && Edge(adj, p[0], p[1]);
    if p[1] in exits {
      k := 1;
    } else {
      PathSuffix(adj, p, 1);
      k := MeetsExit(adj, s, exits, p[1..]);
      k := k + 1;
    }
  }

  /** The first position of the path before which b was finished. */
  lemma {:induction false} FirstLayer(path: seq<Node>, t: Tour, b: Node, j: nat) returns (i: nat)
    requires Ordered(path, t) && (forall n :: n in path ==> n in t.visited) && j < |path| && b in t.before[path[j]]
    ensures i <= j && b in t.before[path[i]] && (i > 0 ==> b !in t.before[path[i - 1]])
  {
    if j == 0 || b !in t.before[path[j - 1]] {
      i := j;
    } else {
      i := FirstLayer(path, t, b, j - 1);
    }
  }

  /** The way over to c[m] meets no node of the path but the last. */
  lemma OverBelow(adj: Graph, path: seq<Node>, t: Tour, c: seq<Node>, m: nat, k: nat)
    requires Leaving(adj, path, t) && path[|path| - 1] !in t.inCycle
    requires IsCycle(adj, c) && c[0] == path[|path| - 1] && 0 < k <= m < |c| && forall x :: x in c ==> x in adj
    requires c[m] in t.before[c[0]] && forall i :: 0 <= i < m ==> c[i] !in t.before[c[0]]
    ensures c[k] !in path
  {
    if k < m {
      WalkBelow(adj, path, t, c, k);
    }
    assert c[k] in Done(path, t);
  }

  lemma DownToMerge(adj: Graph, path: seq<Node>, c: seq<Node>, m: nat, i: nat)
    requires IsPath(adj, path) && Distinct(path) && 0 < i < |path|
    requires IsPath(adj, c) && c[0] == path[|path| - 1] && 0 < m < |c|
    requires forall k :: 0 < k <= m ==> c[k] !in path
    ensures ReachesWithout(adj, {path[i - 1]}, path[i], c[m])
  {
    var down, over := path[i..], c[..m + 1];
    PathSuffix(adj, path, i);
    assert IsPath(adj, over);
    PathJoin(adj, down, over);
    var p := down + over[1..];
    forall k | 0 <= k < |p| ensures p[k] != path[i - 1] {
      if k < |down| {
        assert p[k] == path[i + k];
      } else {
        assert p[k] == c[k - |down| + 1];
      }
    }
    assert PathBetween(adj, path[i], c[m], p) && Avoids(p, {path[i - 1]});
  }

  lemma BackToBranch(adj: Graph, path: seq<Node>, home: seq<Node>, k: nat, h: nat, r: nat)
    requires IsPath(adj, path) && IsPath(adj, home) && k < |home| && h <= r < |path| && path[h] == home[k]
    ensures Reaches(adj, home[0], path[r])
  {
    var first, rest := home[..k + 1], path[h..r + 1];
    assert IsPath(adj, first) && IsPath(adj, rest);
    PathJoin(adj, first, rest);
    assert PathBetween(adj, home[0], path[r], first + rest[1..]);
  }

  /** From b, finished before position i was entered, the way home leads through the path before i. */
  lemma HomeThroughBranch(adj: Graph, path: seq<Node>, t: Tour, home: seq<Node>, i: nat)
    requires Ordered(path, t) && IsTrail(adj, path, t) && Layered(adj, path, t) && i < |path|
    requires IsPath(adj, home) && home[0] in t.before[path[i]] && home[|home| - 1] in path
    requires forall x :: x in home ==> x in adj
    ensures i > 0 && Reaches(adj, home[0], path[i - 1])
  {
    var k := MeetsExit(adj, t.before[path[i]], path[..i], home);
    var h :| 0 <= h < i && path[h] == home[k];
    BackToBranch(adj, path, home, k, h, i - 1);
  }

  lemma BranchToMerge(adj: Graph, path: seq<Node>, t: Tour, i: nat, b: Node) returns (s: Node)
    requires 0 < i < |path| && HangsAt(adj, path, t, i - 1, b)
    ensures Edge(adj, path[i - 1], s) && s != path[i] && ReachesWithout(adj, {path[i - 1]}, s, b)
  {
    s :| Edge(adj, path[i - 1], s) && s in Done(path, t) && ReachesWithout(adj, Elements(path[..i]), s, b);
    assert path[i] in path;
    var p :| PathBetween(adj, s, b, p) && Avoids(p, Elements(path[..i]));
    assert path[i - 1] in path[..i];
    assert Avoids(p, {path[i - 1]});
  }

  /** A cycle through the unmarked last node that first meets what came before it at position m. */
  ghost predicate FirstMeets(adj: Graph, path: seq<Node>, t: Tour, c: seq<Node>, m: nat) {
    && Leaving(adj, path, t) && path[|path| - 1] !in t.inCycle
    && IsCycle(adj, c) && c[0] == path[|path| - 1] && 0 < m < |c| && (forall x :: x in c ==> x in adj)
    && c[m] in t.before[c[0]] && (forall i :: 0 <= i < m ==> c[i] !in t.before[c[0]])
  }

  lemma LeaveOver(adj: Graph, path: seq<Node>, t: Tour, c: seq<Node>, m: nat, i: nat)
    requires FirstMeets(adj, path, t, c, m) && 0 < i < |path|
    ensures ReachesWithout(adj, {path[i - 1]}, path[i], c[m])
  {
    forall k | 0 < k <= m ensures c[k] !in path {
      OverBelow(adj, path, t, c, m, k);
    }
    DownToMerge(adj, path, c, m, i);
  }

  lemma LeaveHome(adj: Graph, path: seq<Node>, t: Tour, c: seq<Node>, m: nat, i: nat)
    requires FirstMeets(adj, path, t, c, m) && i < |path| && c[m] in t.before[path[i]]
    ensures i > 0 && Reaches(adj, c[m], path[i - 1])
  {
    PathSuffix(adj, c, m);
    var home := c[m..];
    assert home[|home| - 1] == c[0] && forall x :: x in home ==> x in c;
    HomeThroughBranch(adj, path, t, home, i);
  }

  lemma LeaveBranch(adj: Graph, path: seq<Node>, t: Tour, b: Node, i: nat) returns (s: Node)
    requires Inv(adj, path, t) && 0 < i < |path| && b in t.before[path[i]] && b !in t.before[path[i - 1]]
    ensures Edge(adj, path[i - 1], s) && s != path[i] && ReachesWithout(adj, {path[i - 1]}, s, b)
    ensures Edge(adj, path[i - 1], path[i])
  {
    assert Below(path, t, i - 1, b) && HangsAt(adj, path, t, i - 1, b);
    s := BranchToMerge(adj, path, t, i, b);
  }

  /** The graph merges where such a cycle meets what came before. */
  lemma LeaveMerges(adj: Graph, path: seq<Node>, t: Tour, c: seq<Node>, m: nat)
    requires FirstMeets(adj, path, t, c, m)
    ensures Merges(adj)
  {
    var i := FirstLayer(path, t, c[m], |path| - 1);
    LeaveHome(adj, path, t, c, m, i);
    var s := LeaveBranch(adj, path, t, c[m], i);
    LeaveOver(adj, path, t, c, m, i);
    assert MergesAt(adj, path[i - 1], s, path[i], c[m]);
  }

  lemma FirstIn(c: seq<Node>, s: set<Node>, k: nat) returns (m: nat)
    requires k < |c| && c[k] in s
    ensures m <= k && c[m] in s && forall i :: 0 <= i < m ==> c[i] !in s
  {
    m := 0;
    while c[m] !in s
      invariant m <= k && forall i :: 0 <= i < m ==> c[i] !in s
      decreases k - m
    {
      m := m + 1;
    }
  }

  lemma LeaveMissed(adj: Graph, path: seq<Node>, t: Tour, c: seq<Node>)
    requires Leaving(adj, path, t) && path[|path| - 1] !in t.inCycle && IsCycle(adj, c) && path[|path| - 1] in c
    ensures Merges(adj)
  {
    var node := path[|path| - 1];
    var r := CycleFrom(adj, node, c);
    LeaveMarked(adj, path, t);
    assert r[0] in r && !Avoids(r, t.before[node]);
    var j :| 0 <= j < |r| && r[j] in t.before[node];
    var m := FirstIn(r, t.before[node], j);
    LeaveMerges(adj, path, t, r, m);
  }

  lemma LeaveSettled(adj: Graph, path: seq<Node>, t: Tour)
    requires Leaving(adj, path, t)
    ensures Settled(adj, t, path[|path| - 1])
  {
    var node := path[|path| - 1];
    LeaveMarked(adj, path, t);
    if OnCycle(adj, node) && node !in t.inCycle {
      var c :| IsCycle(adj, c) && node in c;
      LeaveMissed(adj, path, t, c);
    }
  }

  ghost predicate Left(adj: Graph, path: seq<Node>, t: Tour) {
    && Leaving(adj, path, t) && Ordered(path[..|path| - 1], t) && IsTrail(adj, path[..|path| - 1], t)
    && Done(path[..|path| - 1], t) == Done(path, t) + {path[|path| - 1]}
  }

  lemma LeaveLayered(adj: Graph, path: seq<Node>, t: Tour)
    requires Left(adj, path, t)
    ensures Layered(adj, path[..|path| - 1], t)
  {
    var path' := path[..|path| - 1];
    forall j, u, v | 0 <= j < |path'| && u in t.before[path'[j]] && Edge(adj, u, v) && v in adj
      ensures v in t.before[path'[j]] || v in path'[..j]
    {
      assert path'[..j] == path[..j];
    }
  }

  lemma PathIsVisited(adj: Graph, path: seq<Node>, t: Tour, v: Node)
    requires IsTrail(adj, path, t) && v in path
    ensures v in adj && v in t.visited
  {
  }

  lemma LeaveBackMarked(adj: Graph, path: seq<Node>, t: Tour)
    requires Left(adj, path, t)
    ensures BackMarked(adj, path[..|path| - 1], t)
  {
    var m := |path| - 1;
    var path' := path[..m];
    forall i, u, v | 0 <= i < |path'| && Below(path', t, i, u) && Edge(adj, u, v) && v in path'[..i + 1]
      ensures path'[i] in t.inCycle
    {
      assert path'[..i + 1] == path[..i + 1] && path'[i] == path[i];
      if u == path[m] {
        PathIsVisited(adj, path, t, v);
        assert Handled(path, t, v);
      } else {
        assert Below(path, t, i, u);
      }
    }
  }

  lemma ThroughNode(adj: Graph, path: seq<Node>, t: Tour, u: Node) returns (p: seq<Node>)
    requires IsTrail(adj, path, t) && |path| > 1 && HangsAt(adj, path, t, |path| - 1, u)
    ensures PathBetween(adj, path[|path| - 1], u, p) && Avoids(p, Elements(path[..|path| - 1]))
  {
    var m := |path| - 1;
    var node := path[m];
    assert path[..m + 1] == path;
    var s :| Edge(adj, node, s) && s in Done(path, t) && ReachesWithout(adj, Elements(path), s, u);
    var q :| PathBetween(adj, s, u, q) && Avoids(q, Elements(path));
    PathJoin(adj, [node, s], q);
    p := [node, s] + q[1..];
    assert q == [s] + q[1..];
    assert forall x :: x in p ==> x == node || x in q;
    assert node !in path[..m];
  }

  /** What hangs below the node left now hangs below its parent, through the node itself. */
  lemma LeaveHangsBelow(adj: Graph, path: seq<Node>, t: Tour, u: Node)
    requires IsTrail(adj, path, t) && |path| > 1
    requires u == path[|path| - 1] || HangsAt(adj, path, t, |path| - 1, u)
    ensures HangsAt(adj, path[..|path| - 1], t, |path| - 2, u)
  {
    var m := |path| - 1;
    var node, path' := path[m], path[..m];
    assert Edge(adj, path[m - 1], node) && node !in path';
    assert path'[..m] == path' && node in Done(path', t);
    var p := [node];
    if u != node {
      p := ThroughNode(adj, path, t, u);
    }
    assert PathBetween(adj, node, u, p) && Avoids(p, Elements(path'));
  }

  lemma LeaveHanging(adj: Graph, path: seq<Node>, t: Tour)
    requires Left(adj, path, t)
    ensures Hanging(adj, path[..|path| - 1], t)
  {
    var m := |path| - 1;
    var path' := path[..m];
    forall i, u | 0 <= i < |path'| && Below(path', t, i, u) && (i + 1 < |path'| ==> u in t.before[path'[i + 1]])
      ensures HangsAt(adj, path', t, i, u)
    {
      assert path'[..i + 1] == path[..i + 1];
      if u != path[m] && (i + 1 < m || u in t.before[path[m]]) {
        assert Below(path, t, i, u) && HangsAt(adj, path, t, i, u);
      } else {
        assert u == path[m] || Below(path, t, m, u);
        LeaveHangsBelow(adj, path, t, u);
      }
    }
  }

  lemma LeaveInv(adj: Graph, path: seq<Node>, t: Tour)
    requires Leaving(adj, path, t)
    ensures Inv(adj, path[..|path| - 1], t)
  {
    var m := |path| - 1;
    var path' := path[..m];
    assert path == path' + [path[m]];
    assert Done(path', t) == Done(path, t) + {path[m]};
    LeaveSettled(adj, path, t);
    assert Ordered(path', t);
    assert IsTrail(adj, path', t);
    assert Explored(adj, path', t);
    LeaveLayered(adj, path, t);
    LeaveBackMarked(adj, path, t);
    LeaveHanging(adj, path, t);
    assert AllSettled(adj, path', t);
  }

  // ---- the search itself ----

  lemma LastElement(path: seq<Node>)
    requires Distinct(path) && path != []
    ensures Elements(path[..|path| - 1]) == Elements(path) - {path[|path| - 1]}
  {
    assert path == path[..|path| - 1] + [path[|path| - 1]];
  }

  lemma HandledLater(path: seq<Node>, t: Tour, t': Tour)
    requires t.visited <= t'.visited && t.inCycle <= t'.inCycle
    ensures forall v :: Handled(path, t, v) ==> Handled(path, t', v)
  {
  }

  method AddAll(marked: set<Node>, nodes: seq<Node>) returns (marked': set<Node>)
    ensures marked' == marked + Elements(nodes)
  {
    marked' := marked;
    for k := 0 to |nodes|
      invariant marked' == marked + Elements(nodes[..k])
    {
      assert nodes[..k + 1] == nodes[..k] + [nodes[k]];
      marked' := marked' + {nodes[k]};
    }
    assert nodes[..|nodes|] == nodes;
  }

  /** Exactly the nodes with a cycle around what was finished when they were entered. */
  ghost predicate ExactMarks(adj: Graph, before: map<Node, set<Node>>, inCycle: set<Node>) {
    before.Keys == adj.Keys && forall n :: n in inCycle <==> n in adj && CycleAround(adj, before[n], n)
  }

  /** Every node of a cycle has such a cycle. */
  ghost predicate NoneCutOff(adj: Graph, before: map<Node, set<Node>>)
    requires before.Keys == adj.Keys
  {
    forall n :: n in adj && OnCycle(adj, n) ==> CycleAround(adj, before[n], n)
  }

  /** What the marks of a finished search mean. */
  ghost predicate Concluded(adj: Graph, t: Tour) {
    && ExactMarks(adj, t.before, t.inCycle) && (AllMarked(adj, t.inCycle) <==> NoneCutOff(adj, t.before))
    && (!Merges(adj) ==> AllMarked(adj, t.inCycle))
    && (forall n :: n in t.inCycle ==> OnCycle(adj, n))
    && EveryCycleHit(adj, t.inCycle)
    && (t.inCycle == {} <==> Acyclic(adj))
  }

  lemma MarksExact(adj: Graph, t: Tour, n: Node)
    requires Inv(adj, [], t) && t.visited == adj.Keys
    ensures n in t.inCycle <==> n in adj && CycleAround(adj, t.before[n], n)
    ensures n in t.inCycle ==> OnCycle(adj, n)
    ensures OnCycle(adj, n) ==> n in adj && (n in t.inCycle || Merges(adj))
  {
    if OnCycle(adj, n) {
      var c :| IsCycle(adj, c) && n in c;
      CycleNodesAreKeys(adj, c, n);
    }
    if n in adj {
      assert n in Done([], t) && Settled(adj, t, n);
    }
  }

  /** Descending through what was finished before, an unmarked cycle would never end. */
  lemma {:induction false} CycleHasMark(adj: Graph, t: Tour, c: seq<Node>, n: Node)
    requires Inv(adj, [], t) && t.visited == adj.Keys && IsCycle(adj, c) && n in c
    ensures Hit(c, t.inCycle)
    decreases if n in t.before then t.before[n] else {}
  {
    CycleNodesAreKeys(adj, c, n);
    assert n in Done([], t) && Settled(adj, t, n);
    if n !in t.inCycle {
      assert !Avoids(c, t.before[n]);
      var m :| m in c && m in t.before[n];
      assert Nested(t, n) && Nested(t, m);
      CycleHasMark(adj, t, c, m);
    }
  }

  lemma MarksHitCycles(adj: Graph, t: Tour)
    requires Inv(adj, [], t) && t.visited == adj.Keys
    ensures EveryCycleHit(adj, t.inCycle)
    ensures t.inCycle == {} ==> Acyclic(adj)
  {
    forall c | IsCycle(adj, c) ensures Hit(c, t.inCycle) {
      CycleHasMark(adj, t, c, c[0]);
    }
  }

  lemma Conclude(adj: Graph, t: Tour)
    requires Inv(adj, [], t) && t.visited == adj.Keys
    ensures Concluded(adj, t)
  {
    forall n
      ensures n in t.inCycle <==> n in adj && CycleAround(adj, t.before[n], n)
      ensures n in t.inCycle ==> OnCycle(adj, n)
      ensures OnCycle(adj, n) ==> n in adj && (n in t.inCycle || Merges(adj))
    {
      MarksExact(adj, t, n);
    }
    MarksHitCycles(adj, t);
  }

  class Marker {
    const adj: Graph
    var inCycle: set<Node>
    var visited: set<Node>
    var gray: set<Node>
    var path: seq<Node>
    ghost var before: map<Node, set<Node>>

    constructor (adj: Graph)
      ensures Valid() && this.adj == adj && path == [] && Now() == START && fresh(this)
    {
      this.adj := adj;
      inCycle, visited, gray, path, before := {}, {}, {}, [], map[];
    }

    ghost function Now(): Tour
      reads this
    {
      Tour(visited, before, inCycle)
    }

    ghost predicate Valid()
      reads this
    {
      gray == Elements(path) && Inv(adj, path, Now())
    }

    /** Everything on the current path from the neighbour on lies on the cycle the edge closes. */
    method MarkBackEdge(neighbor: Node)
      requires Valid() && neighbor in gray && Edge(adj, path[|path| - 1], neighbor)
      modifies this`inCycle
      ensures Valid() && Now() == old(Now()).(inCycle := old(inCycle) + Elements(From(path, neighbor)))
      ensures Handled(path, Now(), neighbor)
    {
      var idx := IndexOf(path, neighbor);
      var marks := AddAll(inCycle, path[idx..]);
      MarkStep(adj, path, Now(), idx);
      inCycle := marks;
    }

    method Enter(node: Node)
      requires Valid() && node in adj && node !in visited
      requires path != [] ==> Edge(adj, path[|path| - 1], node)
      modifies this`visited, this`gray, this`path, this`before
      ensures Valid() && path == old(path) + [node] && Now() == Entered(old(Now()), old(path), node)
    {
      EnterInv(adj, path, Now(), node);
      before := before[node := Done(path, Now())];
      visited := visited + {node};
      gray := gray + {node};
      path := path + [node];
    }

    /** All neighbours are dealt with: the node is done. */
    method Leave()
      requires Valid() && Leaving(adj, path, Now())
      modifies this`gray, this`path
      ensures Valid() && path == old(path)[..|old(path)| - 1] && Now() == old(Now())
    {
      ghost var trail, t := path, Now();
      LeaveInv(adj, trail, t);
      LastElement(trail);
      var node := path[|path| - 1];
      path := path[..|path| - 1];
      gray := gray - {node};
      assert Now() == t;
    }

    method Look(neighbor: Node)
      requires Valid() && path != [] && Edge(adj, path[|path| - 1], neighbor)
      modifies this
      ensures Valid() && path == old(path) && visited >= old(visited) && inCycle >= old(inCycle)
      ensures neighbor in adj ==> Handled(path, Now(), neighbor)
      ensures Now() == LookAt(adj, path, old(Now()), neighbor)
      decreases adj.Keys - visited, 1
    {
      if neighbor !in adj {
        return;
      }
      if neighbor in gray {
        MarkBackEdge(neighbor);
      } else if neighbor !in visited {
        Dfs(neighbor);
      }
    }

    method Dfs(node: Node)
      requires Valid() && node in adj && node !in visited
      requires path != [] ==> Edge(adj, path[|path| - 1], node)
      modifies this
      ensures Valid() && path == old(path)
      ensures node in visited && visited >= old(visited) && inCycle >= old(inCycle)
      ensures Now() == Visit(adj, node, old(path), old(Now()))
      decreases adj.Keys - visited, 0
    {
      ghost var result := Visit(adj, node, path, Now());
      Enter(node);
      ghost var trail := path;
      var neighbors := adj[node];
      for i := 0 to |neighbors|
        invariant Valid() && path == trail
        invariant visited >= old(visited) + {node} && inCycle >= old(inCycle)
        invariant Scan(adj, node, path, Now(), i) == result
        invariant forall k :: 0 <= k < i && neighbors[k] in adj ==> Handled(path, Now(), neighbors[k])
      {
        ghost var was := Now();
        Look(neighbors[i]);
        HandledLater(path, was, Now());
      }
      Leave();
      assert trail[..|trail| - 1] == old(path);
    }

    /** No node is being visited. */
    ghost predicate Idle()
      reads this
    {
      Valid() && path == []
    }

    /** One trip through the outer loop. */
    method Start(node: Node)
      requires Idle() && node in adj
      modifies this
      ensures Idle() && node in visited && visited >= old(visited)
      ensures Now() == if node in old(visited) then old(Now()) else Visit(adj, node, [], old(Now()))
    {
      if node !in visited {
        Dfs(node);
      }
    }

    lemma Finish()
      requires Idle() && adj.Keys <= visited
      ensures Concluded(adj, Now())
    {
      assert visited == adj.Keys;
      Conclude(adj, Now());
    }
  }

  lemma AllVisited(adj: Graph, order: seq<Node>, visited: set<Node>)
    requires Elements(order) == adj.Keys && forall i :: 0 <= i < |order| ==> order[i] in visited
    ensures adj.Keys <= visited
  {
    forall n | n in adj ensures n in visited {
      assert n in Elements(order);
    }
  }

  /** The outer loop, over the keys in some order. */
  method MarkAll(adj: Graph, order: seq<Node>) returns (marker: Marker)
    requires Elements(order) == adj.Keys
    ensures marker.Now() == MarkFrom(adj, order, 0, START) && Concluded(adj, marker.Now())
  {
    marker := new Marker(adj);
    ghost var result := MarkFrom(adj, order, 0, START);
    for k := 0 to |order|
      invariant fresh(marker) && marker.Idle() && marker.adj == adj
      invariant MarkFrom(adj, order, k, marker.Now()) == result
      invariant forall i :: 0 <= i < k ==> order[i] in marker.visited
    {
      assert order[k] in Elements(order);
      marker.Start(order[k]);
    }
    AllVisited(adj, order, marker.visited);
    marker.Finish();
  }

  /** What the search marks, for every graph and every order of keys and neighbours: exactly the nodes that lie on a
      cycle none of whose nodes was finished when they were entered. So every node of a cycle is marked if and only if
      each has such a cycle, which is certain when the graph does not merge. Every cycle has a marked node. */
  method Detect(adj: Graph, order: seq<Node>) returns (inCycle: set<Node>)
    requires Elements(order) == adj.Keys
    ensures inCycle == MarkFrom(adj, order, 0, START).inCycle
    ensures var before := MarkFrom(adj, order, 0, START).before;
            ExactMarks(adj, before, inCycle) && (AllMarked(adj, inCycle) <==> NoneCutOff(adj, before))
    ensures !Merges(adj) ==> AllMarked(adj, inCycle)
    ensures forall n :: n in inCycle ==> OnCycle(adj, n)
    ensures EveryCycleHit(adj, inCycle)
    ensures inCycle == {} <==> Acyclic(adj)
  {
    var marker := MarkAll(adj, order);
    inCycle := marker.inCycle;
  }
}
