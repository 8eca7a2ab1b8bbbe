/** The order a depth-first search finishes in when it takes everything in the order it is mentioned. */
module FirstMention {
  import opened Graphs
  import opened Sequences

  type Starts = map<Node, nat>

  /** After `order[..s]`, node d brings in `order[s..e]`: nothing if it is there already, else a stretch that ends with
      d itself. `start` tells where the stretch of each node begins. */
  ghost predicate Block(order: seq<Node>, start: Starts, s: nat, d: Node, e: nat) {
    && s <= e <= |order|
    && (if d in order[..s] then e == s else s < e && order[e - 1] == d && d in start && start[d] == s)
  }

  ghost predicate SectionAt(order: seq<Node>, start: Starts, ds: seq<Node>, cuts: seq<nat>, j: nat)
    requires |cuts| == |ds| + 1 && j < |ds|
  {
    Block(order, start, cuts[j], ds[j], cuts[j + 1])
  }

  /** The nodes ds bring in one stretch after the other. */
  ghost predicate Sections(order: seq<Node>, start: Starts, ds: seq<Node>, cuts: seq<nat>) {
    |cuts| == |ds| + 1 && forall j :: 0 <= j < |ds| ==> SectionAt(order, start, ds, cuts, j)
  }

  ghost predicate LaidOut(order: seq<Node>, start: Starts, s: nat, ds: seq<Node>, e: nat) {
    exists cuts :: Sections(order, start, ds, cuts) && cuts[0] == s && cuts[|ds|] == e
  }

  /** The stretch of the node at position i is made of the stretches of its successors, in their order. */
  ghost predicate LaidAt(g: Graph, order: seq<Node>, start: Starts, i: nat)
    requires i < |order|
  {
    order[i] in start && start[order[i]] <= i && LaidOut(order, start, start[order[i]], Succ(g, order[i]), i)
  }

  ghost predicate AllLaid(g: Graph, order: seq<Node>, start: Starts) {
    forall i :: 0 <= i < |order| ==> LaidAt(g, order, start, i)
  }

  /** Roots by first mention, below each node its successors by first mention, and every node right after them. */
  ghost predicate IsFirstMention(g: Graph, roots: seq<Node>, order: seq<Node>) {
    exists start :: AllLaid(g, order, start) && LaidOut(order, start, 0, roots, |order|)
  }

  // ---- the order is determined ----

  lemma {:induction false} CutsGrow(order: seq<Node>, start: Starts, ds: seq<Node>, cuts: seq<nat>, i: nat, j: nat)
    requires Sections(order, start, ds, cuts) && i <= j <= |ds|
    ensures cuts[i] <= cuts[j]
    decreases j
  {
    if i == j {
    } else {
      CutsGrow(order, start, ds, cuts, i, j - 1);
      assert SectionAt(order, start, ds, cuts, j - 1);
    }
  }

  lemma {:induction false} BlocksAgree(g: Graph, a: seq<Node>, sa: Starts, b: seq<Node>, sb: Starts, s: nat, d: Node,
                                       ea: nat, eb: nat)
    requires AllLaid(g, a, sa) && AllLaid(g, b, sb) && s <= |a| && s <= |b| && a[..s] == b[..s]
    requires Block(a, sa, s, d, ea) && Block(b, sb, s, d, eb)
    ensures ea == eb && a[..ea] == b[..eb]
    decreases ea - s, 0, 0
  {
    if d in a[..s] {
    } else {
      assert LaidAt(g, a, sa, ea - 1) && LaidAt(g, b, sb, eb - 1);
      var ds := Succ(g, d);
      var ca :| Sections(a, sa, ds, ca) && ca[0] == s && ca[|ds|] == ea - 1;
      var cb :| Sections(b, sb, ds, cb) && cb[0] == s && cb[|ds|] == eb - 1;
      SectionsAgree(g, a, sa, b, sb, ds, ca, cb, |ds|);
      TakeSnoc(a, ea - 1);
      TakeSnoc(b, eb - 1);
    }
  }

  lemma {:induction false} SectionsAgree(g: Graph, a: seq<Node>, sa: Starts, b: seq<Node>, sb: Starts, ds: seq<Node>,
                                         ca: seq<nat>, cb: seq<nat>, j: nat)
    requires AllLaid(g, a, sa) && AllLaid(g, b, sb) && j <= |ds|
    requires Sections(a, sa, ds, ca) && Sections(b, sb, ds, cb) && ca[0] == cb[0]
    requires ca[0] <= |a| && cb[0] <= |b| && a[..ca[0]] == b[..cb[0]]
    ensures ca[j] == cb[j] && ca[j] <= |a| && cb[j] <= |b| && a[..ca[j]] == b[..cb[j]]
    decreases if ca[0] <= ca[|ds|] then ca[|ds|] - ca[0] else 0, 1, j
  {
    CutsGrow(a, sa, ds, ca, 0, |ds|);
    if j == 0 {
    } else {
      SectionsAgree(g, a, sa, b, sb, ds, ca, cb, j - 1);
      assert SectionAt(a, sa, ds, ca, j - 1) && SectionAt(b, sb, ds, cb, j - 1);
      CutsGrow(a, sa, ds, ca, 0, j - 1);
      CutsGrow(a, sa, ds, ca, j, |ds|);
      BlocksAgree(g, a, sa, b, sb, ca[j - 1], ds[j - 1], ca[j], cb[j]);
    }
  }

  /** Graph and roots leave no choice. */
  lemma FirstMentionIsUnique(g: Graph, roots: seq<Node>, a: seq<Node>, b: seq<Node>)
    requires IsFirstMention(g, roots, a) && IsFirstMention(g, roots, b)
    ensures a == b
  {
    var sa :| AllLaid(g, a, sa) && LaidOut(a, sa, 0, roots, |a|);
    var sb :| AllLaid(g, b, sb) && LaidOut(b, sb, 0, roots, |b|);
    var ca :| Sections(a, sa, roots, ca) && ca[0] == 0 && ca[|roots|] == |a|;
    var cb :| Sections(b, sb, roots, cb) && cb[0] == 0 && cb[|roots|] == |b|;
    SectionsAgree(g, a, sa, b, sb, roots, ca, cb, |roots|);
    assert a[..|a|] == a && b[..|b|] == b;
  }

  // ---- what the first roots reach comes first ----

  /** The section a position lies in. */
  lemma {:induction false} SectionOf(order: seq<Node>, start: Starts, ds: seq<Node>, cuts: seq<nat>, i: nat, k: nat)
    returns (j: nat)
    requires Sections(order, start, ds, cuts) && k <= |ds| && cuts[0] <= i < cuts[k]
    ensures j < k && cuts[j] <= i < cuts[j + 1] && Block(order, start, cuts[j], ds[j], cuts[j + 1])
  {
    if cuts[k - 1] <= i {
      j := k - 1;
      assert SectionAt(order, start, ds, cuts, j);
    } else {
      j := SectionOf(order, start, ds, cuts, i, k - 1);
    }
  }

  lemma {:induction false} BlockIsReached(g: Graph, order: seq<Node>, start: Starts, s: nat, d: Node, e: nat, i: nat)
    requires AllLaid(g, order, start) && Block(order, start, s, d, e) && s <= i < e
    ensures Reaches(g, d, order[i])
    decreases e - s, 0, 0
  {
    if i == e - 1 {
      ReachesSelf(g, d);
    } else {
      assert LaidAt(g, order, start, e - 1);
      var ds := Succ(g, d);
      var cuts :| Sections(order, start, ds, cuts) && cuts[0] == s && cuts[|ds|] == e - 1;
      var j := SectionOf(order, start, ds, cuts, i, |ds|);
      CutsGrow(order, start, ds, cuts, 0, j);
      CutsGrow(order, start, ds, cuts, j + 1, |ds|);
      BlockIsReached(g, order, start, cuts[j], ds[j], cuts[j + 1], i);
      var p :| PathBetween(g, ds[j], order[i], p);
      assert Edge(g, d, ds[j]);
      PathJoin(g, [d, ds[j]], p);
      assert PathBetween(g, d, order[i], [d, ds[j]] + p[1..]);
    }
  }

  lemma PrefixIsTopological(g: Graph, order: seq<Node>, n: nat)
    requires Topological(g, order) && n <= |order|
    ensures Topological(g, order[..n])
  {
    forall i, m | 0 <= i < n && Edge(g, order[..n][i], m) ensures m in order[..n][..i] {
      assert order[..n][..i] == order[..i] && order[..n][i] == order[i];
    }
  }

  ghost predicate ReachedFrom(g: Graph, roots: seq<Node>, t: Node) {
    exists i :: 0 <= i < |roots| && Reaches(g, roots[i], t)
  }

  lemma RootIsIn(order: seq<Node>, start: Starts, ds: seq<Node>, cuts: seq<nat>, j: nat, k: nat)
    requires Sections(order, start, ds, cuts) && j < k <= |ds| && cuts[k] <= |order|
    ensures ds[j] in order[..cuts[k]]
  {
    CutsGrow(order, start, ds, cuts, j + 1, k);
    assert SectionAt(order, start, ds, cuts, j);
    var s, e := cuts[j], cuts[j + 1];
    if ds[j] in order[..s] {
      var i :| 0 <= i < s && order[i] == ds[j];
      assert order[..cuts[k]][i] == ds[j];
    } else {
      assert order[..cuts[k]][e - 1] == ds[j];
    }
  }

  /** For every k, what the first k roots reach is exactly some first stretch of the order. */
  lemma RootsBringPrefixes(g: Graph, roots: seq<Node>, order: seq<Node>, k: nat) returns (p: nat)
    requires IsFirstMention(g, roots, order) && Topological(g, order) && k <= |roots|
    ensures p <= |order| && forall t :: t in order[..p] <==> ReachedFrom(g, roots[..k], t)
  {
    var start :| AllLaid(g, order, start) && LaidOut(order, start, 0, roots, |order|);
    var cuts :| Sections(order, start, roots, cuts) && cuts[0] == 0 && cuts[|roots|] == |order|;
    CutsGrow(order, start, roots, cuts, k, |roots|);
    p := cuts[k];
    PrefixIsTopological(g, order, p);
    forall t | t in order[..p] ensures ReachedFrom(g, roots[..k], t) {
      var i :| 0 <= i < p && order[i] == t;
      var j := SectionOf(order, start, roots, cuts, i, k);
      BlockIsReached(g, order, start, cuts[j], roots[j], cuts[j + 1], i);
      assert roots[..k][j] == roots[j];
    }
    forall t | ReachedFrom(g, roots[..k], t) ensures t in order[..p] {
      var j :| 0 <= j < k && Reaches(g, roots[..k][j], t);
      RootIsIn(order, start, roots, cuts, j, k);
      TopologicalClosed(g, order[..p], roots[j], t);
    }
  }

  // ---- a search that keeps it ----

  ghost predicate Extends(start: Starts, start': Starts) {
    forall n :: n in start ==> n in start' && start'[n] == start[n]
  }

  lemma BlockLater(order: seq<Node>, start: Starts, order': seq<Node>, start': Starts, s: nat, d: Node, e: nat)
    requires Block(order, start, s, d, e) && order <= order' && Extends(start, start')
    ensures Block(order', start', s, d, e)
  {
    assert order'[..s] == order[..s];
  }

  lemma SectionsLater(order: seq<Node>, start: Starts, order': seq<Node>, start': Starts, ds: seq<Node>, cuts: seq<nat>)
    requires Sections(order, start, ds, cuts) && order <= order' && Extends(start, start')
    ensures Sections(order', start', ds, cuts)
  {
    forall j | 0 <= j < |ds| ensures SectionAt(order', start', ds, cuts, j) {
      assert SectionAt(order, start, ds, cuts, j);
      BlockLater(order, start, order', start', cuts[j], ds[j], cuts[j + 1]);
    }
  }

  lemma LaidLater(g: Graph, order: seq<Node>, start: Starts, order': seq<Node>, start': Starts, i: nat)
    requires i < |order| && LaidAt(g, order, start, i) && order <= order' && Extends(start, start')
    ensures LaidAt(g, order', start', i)
  {
    var ds := Succ(g, order[i]);
    var cuts :| Sections(order, start, ds, cuts) && cuts[0] == start[order[i]] && cuts[|ds|] == i;
    SectionsLater(order, start, order', start', ds, cuts);
    assert order'[i] == order[i];
  }

  /** One more node is taken. */
  lemma SectionsStep(order: seq<Node>, start: Starts, order': seq<Node>, start': Starts, ds: seq<Node>, i: nat,
                     cuts: seq<nat>)
    requires i < |ds| && Sections(order, start, ds[..i], cuts) && cuts[i] == |order|
    requires order <= order' && Extends(start, start') && Block(order', start', |order|, ds[i], |order'|)
    ensures Sections(order', start', ds[..i + 1], cuts + [|order'|])
  {
    SectionsLater(order, start, order', start', ds[..i], cuts);
    var cuts', taken := cuts + [|order'|], ds[..i + 1];
    forall j | 0 <= j < |taken| ensures SectionAt(order', start', taken, cuts', j) {
      if j < i {
        assert SectionAt(order', start', ds[..i], cuts, j);
      }
    }
  }

  /** All successors are taken and the node itself follows. */
  lemma Finish(g: Graph, order: seq<Node>, start: Starts, s: nat, d: Node, cuts: seq<nat>)
    requires AllLaid(g, order, start) && d !in order && d !in start && s <= |order| && d !in order[..s]
    requires Sections(order, start, Succ(g, d), cuts) && cuts[0] == s && cuts[|Succ(g, d)|] == |order|
    ensures AllLaid(g, order + [d], start[d := s]) && Block(order + [d], start[d := s], s, d, |order| + 1)
    ensures Extends(start, start[d := s])
  {
    var order', start' := order + [d], start[d := s];
    forall i | 0 <= i < |order'| ensures LaidAt(g, order', start', i) {
      if i < |order| {
        LaidLater(g, order, start, order', start', i);
      } else {
        SectionsLater(order, start, order', start', Succ(g, d), cuts);
      }
    }
    assert order'[..s] == order[..s];
  }

  /** From one state of a search to a later one, in which it has taken ds. */
  ghost predicate Took(order: seq<Node>, start: Starts, order': seq<Node>, start': Starts, ds: seq<Node>,
                       cuts: seq<nat>)
  {
    && order <= order' && Extends(start, start') && Sections(order', start', ds, cuts)
    && cuts[0] == |order| && cuts[|ds|] == |order'|
  }

  lemma TookNothing(order: seq<Node>, start: Starts)
    ensures Took(order, start, order, start, [], [|order|])
  {
  }

  lemma TookOneMore(order: seq<Node>, start: Starts, mid: seq<Node>, startMid: Starts, order': seq<Node>,
                    start': Starts, ds: seq<Node>, i: nat, cuts: seq<nat>)
    requires i < |ds| && Took(order, start, mid, startMid, ds[..i], cuts)
    requires mid <= order' && Extends(startMid, start') && Block(order', start', |mid|, ds[i], |order'|)
    ensures Took(order, start, order', start', ds[..i + 1], cuts + [|order'|])
  {
    SectionsStep(mid, startMid, order', start', ds, i, cuts);
  }

  lemma TookAll(g: Graph, roots: seq<Node>, order: seq<Node>, start: Starts, cuts: seq<nat>)
    requires AllLaid(g, order, start) && Took([], map[], order, start, roots, cuts)
    ensures IsFirstMention(g, roots, order)
  {
    assert LaidOut(order, start, 0, roots, |order|);
  }

  lemma DiamondStep(order: seq<Node>, start: Starts, n: Node, s: nat, e: nat)
    requires Block(order, start, s, n, e)
    ensures Sections(order, start, [n], [s, e])
  {
  }

  /** Where a requires b and c, and both require d: whatever the names, a search from a gives d, b, c, a. */
  lemma DiamondOrder(g: Graph, a: Node, b: Node, c: Node, d: Node, order: seq<Node>)
    requires a != b && a != c && a != d && b != c && b != d && c != d
    requires g == map[a := [b, c], b := [d], c := [d], d := []] && IsFirstMention(g, [a], order)
    ensures order == [d, b, c, a]
  {
    var known: seq<Node>, start: Starts := [d, b, c, a], map[a := 0, b := 0, c := 2, d := 0];
    assert known[..0] == [] && known[..1] == [d] && known[..2] == [d, b] && known[..3] == [d, b, c];
    assert Sections(known, start, [], [0]) && LaidAt(g, known, start, 0);
    DiamondStep(known, start, d, 0, 1);
    assert Sections(known, start, [d], [0, 1]) && LaidAt(g, known, start, 1);
    DiamondStep(known, start, d, 2, 2);
    assert Sections(known, start, [d], [2, 2]) && LaidAt(g, known, start, 2);
    assert SectionAt(known, start, [b, c], [0, 2, 3], 0) && SectionAt(known, start, [b, c], [0, 2, 3], 1);
    assert Sections(known, start, [b, c], [0, 2, 3]) && LaidAt(g, known, start, 3);
    DiamondStep(known, start, a, 0, 4);
    assert Sections(known, start, [a], [0, 4]) && LaidOut(known, start, 0, [a], 4);
    assert AllLaid(g, known, start);
    FirstMentionIsUnique(g, [a], order, known);
  }
}
