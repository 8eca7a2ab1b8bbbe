/** Group expansion and the graph part of manifest validation (`govctl_manifest.py`). */
module Manifest {
  import opened Graphs
  import opened Sequences
  import R = Resolver
  import opened Wrappers
  import opened FirstMention
  import RequiresCheck

  /** Targets with their `requires` references, groups with their member references. A name may be both. */
  datatype Source = Source(targets: map<Node, seq<Node>>, groups: map<Node, seq<Node>>)

  datatype Error =
    | GroupCycle(path: seq<Node>)
    | UnknownGroup(group: Node)
    | UnknownMember(group: Node, ref: Node)
    | UnknownRequires(ref: Node)
    | SelfReference(target: Node)
    | RequiresCycle(report: seq<Node>)

  datatype Result<T> = Ok(value: T) | Err(error: Error)

  predicate Known(m: Source, ref: Node) {
    ref in m.targets || ref in m.groups
  }

  /** A reference leads into a group only when no target has that name. */
  function Nested(m: Source, refs: seq<Node>): seq<Node> {
    if refs == [] then []
    else
      var rest := Nested(m, refs[..|refs| - 1]);
      var ref := refs[|refs| - 1];
      if ref !in m.targets && ref in m.groups then rest + [ref] else rest
  }

  function GroupGraph(m: Source): Graph {
    map g | g in m.groups :: Nested(m, m.groups[g])
  }

  lemma {:induction false} NestedMembers(m: Source, refs: seq<Node>)
    ensures forall r :: r in Nested(m, refs) <==> r in refs && r !in m.targets && r in m.groups
  {
    if refs == [] {
    } else {
      NestedMembers(m, refs[..|refs| - 1]);
      assert refs == refs[..|refs| - 1] + [refs[|refs| - 1]];
    }
  }

  lemma GroupEdge(m: Source, g: Node, h: Node)
    ensures Edge(GroupGraph(m), g, h) <==> g in m.groups && h in m.groups[g] && h !in m.targets && h in m.groups
  {
    if g in m.groups {
      NestedMembers(m, m.groups[g]);
    }
  }

  /** No unknown name and no group cycle can be reached from the group. */
  ghost predicate Expandable(m: Source, group: Node) {
    forall g :: Reaches(GroupGraph(m), group, g) ==>
      && g in m.groups
      && (forall ref :: ref in m.groups[g] ==> Known(m, ref))
      && !R.CycleThrough(GroupGraph(m), g)
  }

  /** The reference tree below a group, unfolded to depth `d` and read left to right, repeats included. */
  function GroupLeaves(m: Source, group: Node, d: nat): seq<Node>
    decreases d, 1, 0
  {
    if d == 0 || group !in m.groups then [] else RefsLeaves(m, m.groups[group], d - 1)
  }

  function RefsLeaves(m: Source, refs: seq<Node>, d: nat): seq<Node>
    decreases d, 2, |refs|
  {
    if refs == [] then []
    else
      var ref := refs[|refs| - 1];
      RefsLeaves(m, refs[..|refs| - 1], d) + (if ref in m.targets then [ref] else GroupLeaves(m, ref, d))
  }

  function RefLeaves(m: Source, ref: Node, d: nat): seq<Node> {
    if ref in m.targets then [ref] else GroupLeaves(m, ref, d)
  }

  lemma RefsLeavesStep(m: Source, refs: seq<Node>, d: nat, i: nat)
    requires i < |refs|
    ensures RefsLeaves(m, refs[..i + 1], d) == RefsLeaves(m, refs[..i], d) + RefLeaves(m, refs[i], d)
  {
    assert refs[..i + 1][..i] == refs[..i];
  }

  /** The reference tree below the group closes within `d` levels. */
  ghost predicate Closes(m: Source, group: Node, d: nat)
    decreases d
  {
    && d > 0 && group in m.groups
    && forall ref :: ref in m.groups[group] ==> ref in m.targets || Closes(m, ref, d - 1)
  }

  ghost predicate AllClose(m: Source, refs: seq<Node>, d: nat) {
    forall ref :: ref in refs ==> ref in m.targets || Closes(m, ref, d)
  }

  lemma AllCloseStep(m: Source, refs: seq<Node>, d: nat, i: nat)
    requires i < |refs| && AllClose(m, refs[..i], d) && (refs[i] in m.targets || Closes(m, refs[i], d))
    ensures AllClose(m, refs[..i + 1], d)
  {
    assert refs[..i + 1] == refs[..i] + [refs[i]];
  }

  lemma {:induction false} ClosesAlong(m: Source, p: seq<Node>, d: nat)
    requires IsPath(GroupGraph(m), p) && Closes(m, p[0], d)
    ensures |p| <= d && Closes(m, p[|p| - 1], d - |p| + 1)
    decreases |p|
  {
    if |p| <= 1 {
    } else {
      assert Edge(GroupGraph(m), p[0], p[1]);
      GroupEdge(m, p[0], p[1]);
      PathSuffix(GroupGraph(m), p, 1);
      ClosesAlong(m, p[1..], d - 1);
    }
  }

  lemma {:induction false} ClosesNoCycle(m: Source, c: seq<Node>, d: nat)
    requires IsPath(GroupGraph(m), c) && Closes(m, c[0], d)
    ensures !IsCycle(GroupGraph(m), c)
    decreases d
  {
    if IsCycle(GroupGraph(m), c) {
      ClosesAlong(m, c, d);
      ClosesNoCycle(m, c, d - |c| + 1);
    }
  }

  lemma ClosesIsExpandable(m: Source, group: Node, d: nat)
    requires Closes(m, group, d)
    ensures Expandable(m, group)
  {
    var gg := GroupGraph(m);
    forall g | Reaches(gg, group, g)
      ensures g in m.groups && (forall ref :: ref in m.groups[g] ==> Known(m, ref)) && !R.CycleThrough(gg, g)
    {
      var p :| PathBetween(gg, group, g, p);
      ClosesAlong(m, p, d);
      var e: nat := d - |p| + 1;
      assert Closes(m, g, e);
      forall c | IsPath(gg, c) && c[0] == g ensures !IsCycle(gg, c) {
        ClosesNoCycle(m, c, e);
      }
    }
  }

  /** Unfolding deeper than the tree closes adds nothing. */
  lemma {:induction false} LeavesStable(m: Source, group: Node, d: nat, e: nat)
    requires Closes(m, group, d) && d <= e
    ensures GroupLeaves(m, group, d) == GroupLeaves(m, group, e)
    decreases d, 1, 0
  {
    RefsLeavesStable(m, m.groups[group], d - 1, e - 1);
  }

  lemma {:induction false} RefsLeavesStable(m: Source, refs: seq<Node>, d: nat, e: nat)
    requires d <= e && AllClose(m, refs, d)
    ensures RefsLeaves(m, refs, d) == RefsLeaves(m, refs, e)
    decreases d, 2, |refs|
  {
    if refs == [] {
    } else {
      RefsLeavesStable(m, refs[..|refs| - 1], d, e);
      var ref := refs[|refs| - 1];
      if ref !in m.targets {
        LeavesStable(m, ref, d, e);
      }
    }
  }

  lemma {:induction false} RefInLeaves(m: Source, refs: seq<Node>, d: nat, ref: Node, t: Node)
    requires ref in refs && t in RefLeaves(m, ref, d)
    ensures t in RefsLeaves(m, refs, d)
  {
    if ref == refs[|refs| - 1] {
    } else {
      RefInLeaves(m, refs[..|refs| - 1], d, ref, t);
    }
  }

  lemma {:induction false} LeafComesFromGroup(m: Source, group: Node, refs: seq<Node>, d: nat, t: Node)
    requires group in m.groups && forall ref :: ref in refs ==> ref in m.groups[group]
    requires AllClose(m, refs, d)
    requires t in RefsLeaves(m, refs, d)
    ensures t in m.targets && exists g :: Reaches(GroupGraph(m), group, g) && g in m.groups && t in m.groups[g]
    decreases d, |refs|
  {
    var gg := GroupGraph(m);
    var ref := refs[|refs| - 1];
    if t in RefsLeaves(m, refs[..|refs| - 1], d) {
      LeafComesFromGroup(m, group, refs[..|refs| - 1], d, t);
    } else if ref in m.targets {
      ReachesSelf(gg, group);
    } else {
      LeafComesFromGroup(m, ref, m.groups[ref], d - 1, t);
      var g :| Reaches(gg, ref, g) && g in m.groups && t in m.groups[g];
      var p :| PathBetween(gg, ref, g, p);
      GroupEdge(m, group, ref);
      PathJoin(gg, [group, ref], p);
      assert PathBetween(gg, group, g, [group, ref] + p[1..]);
    }
  }

  /** The leaves are exactly the targets some reachable group names. */
  lemma {:induction false} LeavesAreReachableTargets(m: Source, group: Node, d: nat, t: Node)
    requires Closes(m, group, d)
    ensures t in GroupLeaves(m, group, d) <==>
            t in m.targets && exists g :: Reaches(GroupGraph(m), group, g) && g in m.groups && t in m.groups[g]
    decreases d
  {
    var gg := GroupGraph(m);
    if t in GroupLeaves(m, group, d) {
      LeafComesFromGroup(m, group, m.groups[group], d - 1, t);
    }
    forall g | Reaches(gg, group, g) && g in m.groups && t in m.groups[g] && t in m.targets
      ensures t in GroupLeaves(m, group, d)
    {
      var p :| PathBetween(gg, group, g, p);
      if |p| == 1 {
        RefInLeaves(m, m.groups[group], d - 1, t, t);
      } else {
        assert Edge(gg, p[0], p[1]);
        GroupEdge(m, p[0], p[1]);
        PathSuffix(gg, p, 1);
        assert PathBetween(gg, p[1], g, p[1..]);
        LeavesAreReachableTargets(m, p[1], d - 1, t);
        RefInLeaves(m, m.groups[group], d - 1, p[1], t);
      }
    }
  }

  /** The exact meaning of each expansion error for a search that began at `root`. */
  ghost predicate Broken(m: Source, root: Node, e: Error) {
    match e
    case GroupCycle(p) =>
      IsPath(GroupGraph(m), p) && p[0] == root && p[|p| - 1] in p[..|p| - 1]
    case UnknownGroup(g) => Reaches(GroupGraph(m), root, g) && g !in m.groups
    case UnknownMember(g, ref) =>
      Reaches(GroupGraph(m), root, g) && g in m.groups && ref in m.groups[g] && !Known(m, ref)
    case _ => false
  }

  lemma BrokenIsNotExpandable(m: Source, root: Node, e: Error)
    requires Broken(m, root, e)
    ensures !Expandable(m, root)
  {
    if e.GroupCycle? {
      var p := e.path;
      var k :| 0 <= k < |p| - 1 && p[k] == p[|p| - 1];
      PathSuffix(GroupGraph(m), p, k);
      assert IsCycle(GroupGraph(m), p[k..]) && p[k..][0] == p[k];
      assert R.CycleThrough(GroupGraph(m), p[k]);
      assert PathBetween(GroupGraph(m), root, p[k], p[..k + 1]);
      assert Reaches(GroupGraph(m), root, p[k]);
    }
  }

  ghost function Remaining(m: Source, stack: seq<Node>): nat {
    |m.groups.Keys - Elements(stack)|
  }

  lemma ClosesStep(m: Source, group: Node, d: nat)
    requires group in m.groups && AllClose(m, m.groups[group], d)
    ensures Closes(m, group, d + 1) && GroupLeaves(m, group, d + 1) == RefsLeaves(m, m.groups[group], d)
  {
  }

  lemma OneFewer(m: Source, stack: seq<Node>, group: Node)
    requires group in m.groups && group !in stack
    ensures Remaining(m, stack) == Remaining(m, stack + [group]) + 1
    ensures m.groups.Keys - Elements(stack + [group]) < m.groups.Keys - Elements(stack)
  {
    assert m.groups.Keys - Elements(stack) == (m.groups.Keys - Elements(stack + [group])) + {group};
  }

  /** The recursion of `_expand_group_targets`; the stack holds distinct group names, so it ends. */
  method ExpandFrom(m: Source, group: Node, stack: seq<Node>) returns (r: Result<seq<Node>>)
    requires IsPath(GroupGraph(m), stack + [group])
    ensures r.Ok? ==> Closes(m, group, Remaining(m, stack))
    ensures r.Ok? ==> r.value == Dedup(GroupLeaves(m, group, Remaining(m, stack)))
    ensures r.Err? ==> Broken(m, (stack + [group])[0], r.error)
    decreases m.groups.Keys - Elements(stack), 0
  {
    ghost var here := stack + [group];
    if group in stack {
      return Err(GroupCycle(stack + [group]));
    }
    if group !in m.groups {
      assert PathBetween(GroupGraph(m), here[0], group, here);
      return Err(UnknownGroup(group));
    }
    ghost var d: nat := Remaining(m, here);
    OneFewer(m, stack, group);
    var refs := m.groups[group];
    var expanded, seen: set<Node> := [], {};
    ghost var fed: seq<Node> := [];
    for i := 0 to |refs|
      invariant fed == RefsLeaves(m, refs[..i], d)
      invariant expanded == Dedup(fed) && seen == Elements(expanded)
      invariant AllClose(m, refs[..i], d)
    {
      var more := ExpandMember(m, group, refs[i], stack + [group]);
      if more.Err? {
        return more;
      }
      AllCloseStep(m, refs, d, i);
      RefsLeavesStep(m, refs, d, i);
      FeedNested(fed, RefLeaves(m, refs[i], d));
      expanded, seen := AppendNew(expanded, seen, more.value);
      fed := fed + RefLeaves(m, refs[i], d);
    }
    assert refs[..|refs|] == refs;
    ClosesStep(m, group, d);
    return Ok(expanded);
  }

  /** One reference in a group's list; `stack` now ends with that group. */
  method ExpandMember(m: Source, group: Node, ref: Node, stack: seq<Node>) returns (r: Result<seq<Node>>)
    requires IsPath(GroupGraph(m), stack) && stack[|stack| - 1] == group && group in m.groups && ref in m.groups[group]
    ensures r.Ok? ==> ref in m.targets || Closes(m, ref, Remaining(m, stack))
    ensures r.Ok? ==> r.value == Dedup(RefLeaves(m, ref, Remaining(m, stack)))
    ensures r.Err? ==> Broken(m, stack[0], r.error)
    decreases m.groups.Keys - Elements(stack), 1
  {
    if ref in m.targets {
      DedupSingle(ref);
      return Ok([ref]);
    }
    if ref in m.groups {
      GroupEdge(m, group, ref);
      PathExtend(GroupGraph(m), stack, ref);
      r := ExpandFrom(m, ref, stack);
      return;
    }
    assert PathBetween(GroupGraph(m), stack[0], group, stack);
    return Err(UnknownMember(group, ref));
  }

  /** Expansion succeeds exactly on expandable groups and lists the unfolded targets, first occurrence first. */
  method ExpandGroup(m: Source, group: Node) returns (r: Result<seq<Node>>)
    ensures r.Ok? <==> Expandable(m, group)
    ensures r.Ok? ==> Closes(m, group, |m.groups|) && r.value == Dedup(GroupLeaves(m, group, |m.groups|))
    ensures r.Err? ==> Broken(m, group, r.error)
  {
    assert m.groups.Keys - Elements([]) == m.groups.Keys;
    r := ExpandFrom(m, group, []);
    if r.Ok? {
      ClosesIsExpandable(m, group, |m.groups|);
    } else {
      BrokenIsNotExpandable(m, group, r.error);
    }
  }

  /** The reference can be expanded. */
  ghost predicate Usable(m: Source, ref: Node) {
    ref in m.targets || (ref in m.groups && Expandable(m, ref))
  }

  /** `_expand_requires_ref`. */
  method ExpandRequires(m: Source, ref: Node) returns (r: Result<seq<Node>>)
    ensures r.Ok? <==> Usable(m, ref)
    ensures r.Ok? ==> r.value == Dedup(RefLeaves(m, ref, |m.groups|))
    ensures r.Err? ==> !r.error.RequiresCycle?
  {
    if ref in m.targets {
      DedupSingle(ref);
      return Ok([ref]);
    }
    if ref in m.groups {
      r := ExpandGroup(m, ref);
      return;
    }
    return Err(UnknownRequires(ref));
  }

  /** The target graph that the `requires` references stand for. */
  function RequiresGraph(m: Source): Graph {
    map t | t in m.targets :: Dedup(RefsLeaves(m, m.targets[t], |m.groups|))
  }

  ghost predicate AllExpandable(m: Source) {
    forall g :: g in m.groups ==> Expandable(m, g)
  }

  /** `groups_expanded`. */
  ghost function GroupTable(m: Source): map<Node, seq<Node>> {
    map g | g in m.groups :: Dedup(GroupLeaves(m, g, |m.groups|))
  }

  /** What validation is meant to accept. */
  ghost predicate WellFormed(m: Source) {
    && AllExpandable(m)
    && (forall t, ref :: t in m.targets && ref in m.targets[t] ==> Known(m, ref))
    && Acyclic(RequiresGraph(m))
  }

  ghost predicate AllUsable(m: Source, refs: seq<Node>) {
    forall ref :: ref in refs ==> Usable(m, ref)
  }

  /** Why one target's `requires` list is refused. */
  ghost predicate BadRequires(m: Source, t: Node, ref: Node)
    requires t in m.targets
  {
    ref in m.targets[t] && (!Usable(m, ref) || t in RefLeaves(m, ref, |m.groups|))
  }

  /** One target's `requires_expanded`. */
  method ExpandTarget(m: Source, t: Node) returns (r: Result<seq<Node>>)
    requires t in m.targets
    ensures r.Ok? ==> r.value == Dedup(RefsLeaves(m, m.targets[t], |m.groups|))
    ensures r.Ok? ==> AllUsable(m, m.targets[t]) && t !in r.value
    ensures r.Err? ==> !r.error.RequiresCycle? && exists ref :: BadRequires(m, t, ref)
  {
    var refs := m.targets[t];
    var expanded, seen: set<Node> := [], {};
    ghost var fed: seq<Node> := [];
    for i := 0 to |refs|
      invariant fed == RefsLeaves(m, refs[..i], |m.groups|)
      invariant expanded == Dedup(fed) && seen == Elements(expanded)
      invariant AllUsable(m, refs[..i]) && t !in fed
    {
      var deps := ExpandRequires(m, refs[i]);
      if deps.Err? {
        assert BadRequires(m, t, refs[i]);
        return deps;
      }
      ghost var leaves := RefLeaves(m, refs[i], |m.groups|);
      DedupElements(leaves);
      if t in deps.value {
        assert BadRequires(m, t, refs[i]);
        return Err(SelfReference(t));
      }
      assert AllUsable(m, refs[..i + 1]) by { assert refs[..i + 1] == refs[..i] + [refs[i]]; }
      FeedNested(fed, leaves);
      RefsLeavesStep(m, refs, |m.groups|, i);
      expanded, seen := AppendNew(expanded, seen, deps.value);
      fed := fed + leaves;
    }
    assert refs[..|refs|] == refs;
    DedupElements(fed);
    return Ok(expanded);
  }

  lemma BadRequiresIsIllFormed(m: Source, t: Node, ref: Node)
    requires t in m.targets && BadRequires(m, t, ref)
    ensures !WellFormed(m)
  {
    if WellFormed(m) {
      assert Known(m, ref) && Usable(m, ref);
      RefInLeaves(m, m.targets[t], |m.groups|, ref, t);
      DedupElements(RefsLeaves(m, m.targets[t], |m.groups|));
      assert IsCycle(RequiresGraph(m), [t, t]);
    }
  }

  lemma {:induction false} RefsLeavesAreTargets(m: Source, refs: seq<Node>, d: nat)
    ensures forall t :: t in RefsLeaves(m, refs, d) ==> t in m.targets
    decreases d, |refs|
  {
    if refs == [] {
    } else {
      RefsLeavesAreTargets(m, refs[..|refs| - 1], d);
      var ref := refs[|refs| - 1];
      if ref !in m.targets && d > 0 && ref in m.groups {
        RefsLeavesAreTargets(m, m.groups[ref], d - 1);
      }
    }
  }

  lemma NormalizedIsValidated(m: Source, n: R.Manifest)
    requires WellFormed(m) && n.targets == map t | t in m.targets :: Some(RequiresGraph(m)[t])
    requires n.groupsExpanded == GroupTable(m)
    ensures R.Validated(n) && R.Dependencies(n) == RequiresGraph(m)
  {
    assert R.Dependencies(n) == RequiresGraph(m);
    forall t, d | Edge(R.Dependencies(n), t, d) ensures d in n.targets {
      RefsLeavesAreTargets(m, m.targets[t], |m.groups|);
      DedupElements(RefsLeaves(m, m.targets[t], |m.groups|));
    }
    forall g, t | g in n.groupsExpanded && t in n.groupsExpanded[g] ensures t in n.targets {
      RefsLeavesAreTargets(m, m.groups[g], |m.groups| - 1);
      DedupElements(GroupLeaves(m, g, |m.groups|));
    }
  }

  ghost predicate GroupsClose(m: Source, groups: set<Node>) {
    forall g :: g in groups ==> Closes(m, g, |m.groups|)
  }

  lemma CloseIsExpandable(m: Source)
    requires GroupsClose(m, m.groups.Keys)
    ensures AllExpandable(m)
  {
    forall g | g in m.groups ensures Expandable(m, g) {
      ClosesIsExpandable(m, g, |m.groups|);
    }
  }

  /** The group closes and this is its expansion. */
  ghost predicate Expands(m: Source, g: Node, value: seq<Node>) {
    Closes(m, g, |m.groups|) && value == Dedup(GroupLeaves(m, g, |m.groups|))
  }

  lemma TableComplete(m: Source, expanded: map<Node, seq<Node>>)
    requires expanded.Keys == m.groups.Keys && forall g :: g in expanded ==> Expands(m, g, expanded[g])
    ensures expanded == GroupTable(m) && GroupsClose(m, m.groups.Keys) && AllExpandable(m)
  {
    CloseIsExpandable(m);
  }

  method ExpandAllGroups(m: Source) returns (r: Result<map<Node, seq<Node>>>)
    ensures r.Ok? <==> AllExpandable(m)
    ensures r.Ok? ==> r.value == GroupTable(m) && GroupsClose(m, m.groups.Keys)
    ensures r.Err? ==> !r.error.RequiresCycle?
  {
    var expanded: map<Node, seq<Node>> := map[];
    var todo := m.groups.Keys;
    while todo != {}
      invariant todo <= m.groups.Keys && expanded.Keys == m.groups.Keys - todo
      invariant forall g :: g in expanded ==> Expands(m, g, expanded[g])
      decreases todo
    {
      var g :| g in todo;
      var e := ExpandGroup(m, g);
      if e.Err? {
        return Err(e.error);
      }
      assert Expands(m, g, e.value);
      expanded := expanded[g := e.value];
      todo := todo - {g};
    }
    TableComplete(m, expanded);
    return Ok(expanded);
  }

  method ExpandAllTargets(m: Source) returns (r: Result<Graph>)
    ensures r.Ok? ==> r.value == RequiresGraph(m)
    ensures r.Ok? ==> forall t, ref :: t in m.targets && ref in m.targets[t] ==> Known(m, ref)
    ensures r.Ok? ==> forall t :: !Edge(r.value, t, t)
    ensures r.Err? ==> !WellFormed(m) && !r.error.RequiresCycle?
  {
    var adjacency: Graph := map[];
    var todo := m.targets.Keys;
    while todo != {}
      invariant todo <= m.targets.Keys && adjacency.Keys == m.targets.Keys - todo
      invariant forall t :: t in adjacency ==> adjacency[t] == RequiresGraph(m)[t] && t !in adjacency[t]
      invariant forall t, ref :: t in adjacency && ref in m.targets[t] ==> Known(m, ref)
      decreases todo
    {
      var t :| t in todo;
      var e := ExpandTarget(m, t);
      if e.Err? {
        ghost var ref :| BadRequires(m, t, ref);
        BadRequiresIsIllFormed(m, t, ref);
        return Err(e.error);
      }
      adjacency := adjacency[t := e.value];
      todo := todo - {t};
    }
    return Ok(adjacency);
  }

  /** Validation is exact, and what it returns is what resolution may rely on. A cycle is reported with one entry too
      many: without it the list is a cycle, with it never a path, since no target that requires itself gets that far. */
  method Validate(m: Source) returns (r: Result<R.Manifest>)
    ensures r.Ok? <==> WellFormed(m)
    ensures r.Ok? ==> R.Validated(r.value) && R.Dependencies(r.value) == RequiresGraph(m)
    ensures r.Ok? ==> r.value.targets.Keys == m.targets.Keys && GroupsClose(m, m.groups.Keys)
    ensures r.Ok? ==> r.value.groupsExpanded == GroupTable(m)
    ensures r.Err? && r.error.RequiresCycle? ==>
      RequiresCheck.IsReport(RequiresGraph(m), r.error.report) && !IsPath(RequiresGraph(m), r.error.report)
  {
    var groups := ExpandAllGroups(m);
    if groups.Err? {
      return Err(groups.error);
    }
    var adjacency := ExpandAllTargets(m);
    if adjacency.Err? {
      return Err(adjacency.error);
    }
    var verdict := RequiresCheck.Detect(adjacency.value);
    if verdict.CycleFound? {
      RequiresCheck.ReportIsPathExactly(adjacency.value, verdict.report);
      return Err(RequiresCycle(verdict.report));
    }
    var n := R.Manifest(map t | t in m.targets :: Some(adjacency.value[t]), groups.value);
    NormalizedIsValidated(m, n);
    return Ok(n);
  }

  // ---- validation followed by resolution, in terms of the manifest as written ----

  /** The target is named by the request, directly or through groups. */
  ghost predicate Asked(m: Source, name: Node, t: Node) {
    t in m.targets &&
    if name in m.targets then t == name
    else name in m.groups && exists g :: Reaches(GroupGraph(m), name, g) && g in m.groups && t in m.groups[g]
  }

  ghost predicate Requested(m: Source, requested: seq<Node>, t: Node) {
    exists i :: 0 <= i < |requested| && Asked(m, requested[i], t)
  }

  ghost predicate NormalForm(m: Source, n: R.Manifest) {
    && n.targets.Keys == m.targets.Keys && GroupsClose(m, m.groups.Keys)
    && n.groupsExpanded == GroupTable(m)
  }

  lemma ExpandNameIsAsked(m: Source, n: R.Manifest, name: Node, t: Node)
    requires NormalForm(m, n)
    ensures t in R.ExpandName(n, name) <==> Asked(m, name, t)
  {
    if name !in m.targets && name in m.groups {
      DedupElements(GroupLeaves(m, name, |m.groups|));
      LeavesAreReachableTargets(m, name, |m.groups|, t);
    }
  }

  lemma {:induction false} RootsAreRequested(m: Source, n: R.Manifest, requested: seq<Node>, t: Node)
    requires NormalForm(m, n)
    ensures t in R.Roots(n, requested) <==> Requested(m, requested, t)
  {
    if requested == [] {
    } else {
      var k := |requested| - 1;
      var init := requested[..k];
      RootsAreRequested(m, n, init, t);
      ExpandNameIsAsked(m, n, requested[k], t);
      assert Requested(m, init, t) ==> Requested(m, requested, t) by {
        assert forall i :: 0 <= i < k ==> init[i] == requested[i];
      }
    }
  }

  lemma {:induction false} LeavesAreRequested(m: Source, refs: seq<Node>, t: Node)
    requires GroupsClose(m, m.groups.Keys)
    ensures t in RefsLeaves(m, refs, |m.groups|) <==> Requested(m, refs, t)
  {
    if refs == [] {
    } else {
      var k := |refs| - 1;
      var init := refs[..k];
      LeavesAreRequested(m, init, t);
      if refs[k] !in m.targets && refs[k] in m.groups {
        LeavesAreReachableTargets(m, refs[k], |m.groups|, t);
      }
      assert Requested(m, init, t) ==> Requested(m, refs, t) by {
        assert forall i :: 0 <= i < k ==> init[i] == refs[i];
      }
    }
  }

  /** The target graph read off the manifest: an edge for every target that a `requires` list names, directly or
      through groups. */
  lemma RequiresEdge(m: Source, t: Node, d: Node)
    requires GroupsClose(m, m.groups.Keys)
    ensures Edge(RequiresGraph(m), t, d) <==> t in m.targets && Requested(m, m.targets[t], d)
  {
    if t in m.targets {
      DedupElements(RefsLeaves(m, m.targets[t], |m.groups|));
      LeavesAreRequested(m, m.targets[t], d);
    }
  }

  /** The targets a request names, in its order, with groups unfolded. */
  function RequestLeaves(m: Source, requested: seq<Node>): seq<Node> {
    Dedup(RefsLeaves(m, requested, |m.groups|))
  }

  lemma {:induction false} RootsAreLeaves(m: Source, n: R.Manifest, requested: seq<Node>)
    requires NormalForm(m, n)
    ensures Dedup(R.Roots(n, requested)) == RequestLeaves(m, requested)
  {
    if requested == [] {
    } else {
      var init, name := requested[..|requested| - 1], requested[|requested| - 1];
      RootsAreLeaves(m, n, init);
      var before, leaves := RefsLeaves(m, init, |m.groups|), RefLeaves(m, name, |m.groups|);
      CollectAppend([], R.Roots(n, init), R.ExpandName(n, name));
      CollectAppend([], before, leaves);
      if name !in m.targets && name in m.groups {
        FeedNested(before, leaves);
      }
    }
  }

  /** What a plan must run: everything the requested targets reach. */
  ghost predicate Needed(m: Source, requested: seq<Node>, t: Node) {
    exists root :: Requested(m, requested, root) && Reaches(RequiresGraph(m), root, t)
  }

  lemma WantedIsNeeded(m: Source, n: R.Manifest, requested: seq<Node>, t: Node)
    requires NormalForm(m, n) && R.Dependencies(n) == RequiresGraph(m)
    ensures R.Wanted(n, R.Roots(n, requested), t) <==> Needed(m, requested, t)
  {
    forall root ensures root in R.Roots(n, requested) <==> Requested(m, requested, root) {
      RootsAreRequested(m, n, requested, root);
    }
  }

  datatype Plan = Order(order: seq<Node>) | Rejected(error: Error) | Unresolved(fault: R.Error)

  lemma KnownAlike(m: Source, n: R.Manifest)
    requires NormalForm(m, n)
    ensures forall name :: Known(m, name) <==> R.Known(n, name)
  {
  }

  /** Over a validated manifest only the request itself can be at fault. */
  lemma ErrorOfRequest(n: R.Manifest, requested: seq<Node>, e: R.Error)
    requires R.Validated(n)
    ensures !R.Justified(n, R.Roots(n, requested), e)
  {
    R.RootsAreTargets(n, requested);
  }

  /** A plan exists exactly for a well-formed manifest and a non-empty request of known names. It lists exactly the
      targets the request needs, each once, every requirement before what requires it, all by first mention. */
  method MakePlan(m: Source, requested: seq<Node>) returns (p: Plan)
    ensures p.Order? <==> WellFormed(m) && requested != [] && forall name :: name in requested ==> Known(m, name)
    ensures p.Rejected? <==> !WellFormed(m)
    ensures p.Order? ==> Distinct(p.order) && Topological(RequiresGraph(m), p.order)
    ensures p.Order? ==> forall t :: t in p.order <==> Needed(m, requested, t)
    ensures p.Order? ==> IsFirstMention(RequiresGraph(m), RequestLeaves(m, requested), p.order)
    ensures p.Unresolved? ==> p.fault.EmptyRequest? || p.fault.UnknownName?
  {
    var n := Validate(m);
    if n.Err? {
      return Rejected(n.error);
    }
    KnownAlike(m, n.value);
    var r := R.Resolve(n.value, requested);
    if requested != [] && forall name :: name in requested ==> Known(m, name) {
      R.ValidatedResolves(n.value, requested);
    }
    if r.Err? {
      ErrorOfRequest(n.value, requested, r.error);
      return Unresolved(r.error);
    }
    RootsAreLeaves(m, n.value, requested);
    forall t ensures t in r.order <==> Needed(m, requested, t) {
      WantedIsNeeded(m, n.value, requested, t);
    }
    return Order(r.order);
  }
}
