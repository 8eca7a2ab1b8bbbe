/** Resolution of requested targets and groups to an execution order (`govctl_resolve.py`). */
module Resolver {
  import opened Graphs
  import opened Sequences
  import opened Wrappers
  import opened FirstMention

  /** The parts of the normalized manifest JSON that resolution reads; `requires_expanded` may be absent. */
  datatype Manifest = Manifest(targets: map<Node, Option<seq<Node>>>, groupsExpanded: map<Node, seq<Node>>)

  datatype Error =
    | EmptyRequest
    | UnknownName(name: Node)
    | CycleAt(target: Node)
    | MissingRequires(target: Node)
    | UnknownDependency(target: Node, dep: Node)
    | NoSuchTarget(target: Node) // the KeyError of `targets[target_name]`

  datatype Result = Ok(order: seq<Node>) | Err(error: Error)

  function Dependencies(m: Manifest): Graph {
    map t | t in m.targets && m.targets[t].Some? :: m.targets[t].value
  }

  predicate Known(m: Manifest, name: Node) {
    name in m.targets || name in m.groupsExpanded
  }

  function ExpandName(m: Manifest, name: Node): seq<Node> {
    if name in m.targets then [name] else if name in m.groupsExpanded then m.groupsExpanded[name] else []
  }

  /** The targets a request names, in request order, repeats included. */
  function Roots(m: Manifest, requested: seq<Node>): seq<Node> {
    if requested == [] then []
    else Roots(m, requested[..|requested| - 1]) + ExpandName(m, requested[|requested| - 1])
  }

  ghost predicate Wanted(m: Manifest, roots: seq<Node>, t: Node) {
    exists r :: r in roots && Reaches(Dependencies(m), r, t)
  }

  ghost predicate CycleThrough(g: Graph, t: Node) {
    exists c :: IsCycle(g, c) && c[0] == t
  }

  /** What a request needs in order to be resolved: nothing it reaches is unknown, unnormalized or on a cycle. */
  ghost predicate Resolvable(m: Manifest, requested: seq<Node>) {
    && requested != []
    && (forall name :: name in requested ==> Known(m, name))
    && (forall t :: Wanted(m, Roots(m, requested), t) ==>
          t in m.targets && m.targets[t].Some? && !CycleThrough(Dependencies(m), t))
  }

  /** The exact meaning of each error, for a search that began at a target in `roots`. */
  ghost predicate Justified(m: Manifest, roots: seq<Node>, e: Error) {
    match e
    case EmptyRequest => false
    case UnknownName(_) => false
    case CycleAt(t) => Wanted(m, roots, t) && CycleThrough(Dependencies(m), t)
    case MissingRequires(t) => Wanted(m, roots, t) && t in m.targets && m.targets[t].None?
    case UnknownDependency(t, d) => Wanted(m, roots, t) && Edge(Dependencies(m), t, d) && d !in m.targets
    case NoSuchTarget(t) => t in roots && t !in m.targets
  }

  /** What a validated manifest gives the resolver. */
  ghost predicate Validated(m: Manifest) {
    && (forall t :: t in m.targets ==> m.targets[t].Some?)
    && (forall t, d :: Edge(Dependencies(m), t, d) ==> d in m.targets)
    && (forall g, t :: g in m.groupsExpanded && t in m.groupsExpanded[g] ==> t in m.targets)
    && Acyclic(Dependencies(m))
  }

  lemma PathIsWanted(m: Manifest, roots: seq<Node>, path: seq<Node>, t: Node)
    requires IsPath(Dependencies(m), path + [t]) && (path + [t])[0] in roots
    ensures Wanted(m, roots, t)
  {
    assert PathBetween(Dependencies(m), (path + [t])[0], t, path + [t]);
  }

  lemma CycleOnPath(g: Graph, path: seq<Node>, t: Node)
    requires IsPath(g, path + [t]) && t in path
    ensures CycleThrough(g, t)
  {
    var k :| 0 <= k < |path| && path[k] == t;
    PathSuffix(g, path + [t], k);
    assert IsCycle(g, (path + [t])[k..]);
  }

  class Search {
    const manifest: Manifest
    ghost const roots: seq<Node>
    var visited: set<Node>
    var visiting: set<Node>
    var resolved: seq<Node>
    /** Where the stretch of each resolved target begins. */
    ghost var start: Starts

    constructor (m: Manifest, ghost roots: seq<Node>)
      ensures Valid() && manifest == m && this.roots == roots && visiting == {} && resolved == []
      ensures start == map[]
    {
      manifest := m;
      this.roots := roots;
      visited, visiting, resolved, start := {}, {}, [], map[];
    }

    ghost predicate Valid()
      reads this
    {
      && visited == Elements(resolved) && Distinct(resolved) && start.Keys == visited
      && Topological(Dependencies(manifest), resolved) && AllLaid(Dependencies(manifest), resolved, start)
      && (forall t :: t in resolved ==>
            t in manifest.targets && manifest.targets[t].Some? && Wanted(manifest, roots, t))
    }

    /** The chain of calls that leads to the target, all of it still being visited. */
    ghost predicate Reached(target: Node, path: seq<Node>)
      reads this
    {
      && Valid() && IsPath(Dependencies(manifest), path + [target]) && (path + [target])[0] in roots
      && visiting == Elements(path) && visiting <= manifest.targets.Keys && visiting !! visited
    }

    /** The target is resolved. */
    method Close(target: Node, ghost s: nat, ghost cuts: seq<nat>)
      requires Valid() && target in visiting && visiting !! visited && s <= |resolved|
      requires target in manifest.targets && manifest.targets[target].Some? && Wanted(manifest, roots, target)
      requires forall d :: Edge(Dependencies(manifest), target, d) ==> d in resolved
      requires Sections(resolved, start, Succ(Dependencies(manifest), target), cuts)
      requires cuts[0] == s && cuts[|cuts| - 1] == |resolved|
      modifies this
      ensures Valid() && visiting == old(visiting) - {target} && visiting !! visited
      ensures visited == old(visited) + {target}
      ensures resolved == old(resolved) + [target] && start == old(start)[target := s] && Extends(old(start), start)
      ensures Block(resolved, start, s, target, |resolved|)
    {
      TopologicalAppend(Dependencies(manifest), resolved, target);
      FirstMention.Finish(Dependencies(manifest), resolved, start, s, target, cuts);
      visiting := visiting - {target};
      visited := visited + {target};
      resolved := resolved + [target];
      start := start[target := s];
    }

    /** One requirement of a target being visited. */
    method Require(target: Node, dep: Node, ghost path: seq<Node>) returns (r: Option<Error>)
      requires Reached(dep, path) && Edge(Dependencies(manifest), target, dep)
      requires Wanted(manifest, roots, target)
      modifies this
      ensures r.None? ==> Valid() && visiting == old(visiting) && visiting !! visited
      ensures r.None? ==> dep in visited && visited >= old(visited)
      ensures r.None? ==> old(resolved) <= resolved && Extends(old(start), start)
      ensures r.None? ==> Block(resolved, start, |old(resolved)|, dep, |resolved|)
      ensures r.Some? ==> Justified(manifest, roots, r.value)
      decreases manifest.targets.Keys - visiting, 2
    {
      if dep !in manifest.targets {
        return Some(UnknownDependency(target, dep));
      }
      r := Dfs(dep, path);
    }

    /** All requirements of a target being visited, in their order. */
    method RequireAll(target: Node, deps: seq<Node>, ghost path: seq<Node>)
      returns (r: Option<Error>, ghost cuts: seq<nat>)
      requires Valid() && visiting !! visited && visiting <= manifest.targets.Keys && Wanted(manifest, roots, target)
      requires path != [] && path[|path| - 1] == target && path[0] in roots && visiting == Elements(path)
      requires IsPath(Dependencies(manifest), path)
      requires forall i :: 0 <= i < |deps| ==> Edge(Dependencies(manifest), target, deps[i])
      modifies this
      ensures r.None? ==> Valid() && visiting == old(visiting) && visiting !! visited && visited >= old(visited)
      ensures r.None? ==> forall dep :: dep in deps ==> dep in visited
      ensures r.None? ==> Took(old(resolved), old(start), resolved, start, deps, cuts)
      ensures r.Some? ==> Justified(manifest, roots, r.value)
      decreases manifest.targets.Keys - visiting, 3
    {
      cuts := [|resolved|];
      TookNothing(resolved, start);
      for i := 0 to |deps|
        invariant Valid() && visiting == old(visiting) && visiting !! visited && visited >= old(visited)
        invariant forall k :: 0 <= k < i ==> deps[k] in visited
        invariant Took(old(resolved), old(start), resolved, start, deps[..i], cuts)
      {
        ghost var mid, startMid := resolved, start;
        PathExtend(Dependencies(manifest), path, deps[i]);
        r := Require(target, deps[i], path);
        if r.Some? {
          return;
        }
        TookOneMore(old(resolved), old(start), mid, startMid, resolved, start, deps, i, cuts);
        cuts := cuts + [|resolved|];
      }
      assert deps[..|deps|] == deps;
      r := None;
    }

    /** All requirements of a new target, then the target itself. */
    method Expand(target: Node, ghost path: seq<Node>) returns (r: Option<Error>)
      requires Reached(target, path) && target !in visiting && target !in visited && Wanted(manifest, roots, target)
      requires target in manifest.targets && manifest.targets[target].Some?
      modifies this
      ensures r.None? ==> Valid() && visiting == old(visiting) && visiting !! visited
      ensures r.None? ==> target in visited && visited >= old(visited)
      ensures r.None? ==> old(resolved) <= resolved && Extends(old(start), start)
      ensures r.None? ==> Block(resolved, start, |old(resolved)|, target, |resolved|)
      ensures r.Some? ==> Justified(manifest, roots, r.value)
      decreases manifest.targets.Keys - visiting, 0
    {
      visiting := visiting + {target};
      ghost var cuts;
      r, cuts := RequireAll(target, manifest.targets[target].value, path + [target]);
      if r.None? {
        Close(target, |old(resolved)|, cuts);
      }
    }

    method Dfs(target: Node, ghost path: seq<Node>) returns (r: Option<Error>)
      requires Reached(target, path) && (target in manifest.targets || path == [])
      modifies this
      ensures r.None? ==> Valid() && visiting == old(visiting) && visiting !! visited
      ensures r.None? ==> target in visited && visited >= old(visited)
      ensures r.None? ==> old(resolved) <= resolved && Extends(old(start), start)
      ensures r.None? ==> Block(resolved, start, |old(resolved)|, target, |resolved|)
      ensures r.Some? ==> Justified(manifest, roots, r.value)
      decreases manifest.targets.Keys - visiting, 1
    {
      PathIsWanted(manifest, roots, path, target);
      if target in visiting {
        CycleOnPath(Dependencies(manifest), path, target);
        return Some(CycleAt(target));
      }
      if target in visited {
        assert resolved[..|resolved|] == resolved;
        return None;
      }
      if target !in manifest.targets {
        return Some(NoSuchTarget(target));
      }
      if manifest.targets[target].None? {
        return Some(MissingRequires(target));
      }
      r := Expand(target, path);
    }

    /** The requested targets, one after the other. */
    method TakeAll(targets: seq<Node>) returns (r: Option<Error>)
      requires Valid() && resolved == [] && start == map[] && visiting == {} && forall t :: t in targets ==> t in roots
      modifies this
      ensures r.None? ==> Valid() && forall t :: t in targets ==> t in resolved
      ensures r.None? ==> IsFirstMention(Dependencies(manifest), targets, resolved)
      ensures r.Some? ==> Justified(manifest, roots, r.value)
    {
      ghost var cuts: seq<nat> := [0];
      TookNothing([], map[]);
      for i := 0 to |targets|
        invariant Valid() && visiting == {} && forall k :: 0 <= k < i ==> targets[k] in visited
        invariant Took([], map[], resolved, start, targets[..i], cuts)
      {
        ghost var mid, startMid := resolved, start;
        assert [] + [targets[i]] == [targets[i]];
        r := Dfs(targets[i], []);
        if r.Some? {
          return;
        }
        TookOneMore([], map[], mid, startMid, resolved, start, targets, i, cuts);
        cuts := cuts + [|resolved|];
      }
      assert targets[..|targets|] == targets;
      TookAll(Dependencies(manifest), targets, resolved, start, cuts);
      r := None;
    }
  }

  lemma RootsStep(m: Manifest, requested: seq<Node>, i: nat)
    requires i < |requested|
    ensures Roots(m, requested[..i + 1]) == Roots(m, requested[..i]) + ExpandName(m, requested[i])
  {
    assert requested[..i + 1][..i] == requested[..i];
  }

  /** First loop: requested names to targets, first mention first. */
  method ExpandRequest(m: Manifest, requested: seq<Node>) returns (targets: seq<Node>, bad: Option<Node>)
    ensures bad.None? ==> targets == Dedup(Roots(m, requested)) && forall name :: name in requested ==> Known(m, name)
    ensures bad.Some? ==> bad.value in requested && !Known(m, bad.value)
  {
    targets, bad := [], None;
    var seen: set<Node> := {};
    ghost var fed := [];
    for i := 0 to |requested|
      invariant fed == Roots(m, requested[..i]) && bad.None?
      invariant targets == Dedup(fed) && seen == Elements(targets)
      invariant forall k :: 0 <= k < i ==> Known(m, requested[k])
    {
      if !Known(m, requested[i]) {
        bad := Some(requested[i]);
        return;
      }
      CollectAppend([], fed, ExpandName(m, requested[i]));
      targets, seen := AppendNew(targets, seen, ExpandName(m, requested[i]));
      RootsStep(m, requested, i);
      fed := fed + ExpandName(m, requested[i]);
    }
    assert requested[..|requested|] == requested;
  }

  lemma JustifiedIsReal(m: Manifest, requested: seq<Node>, e: Error)
    requires Justified(m, Roots(m, requested), e)
    ensures !Resolvable(m, requested)
  {
    var g, roots := Dependencies(m), Roots(m, requested);
    match e
    case UnknownDependency(t, d) =>
      var r :| r in roots && Reaches(g, r, t);
      ReachesStep(g, r, t, d);
      assert Wanted(m, roots, d);
    case NoSuchTarget(t) =>
      ReachesSelf(g, t);
      assert Wanted(m, roots, t);
    case _ =>
  }

  lemma ClosureResolved(m: Manifest, roots: seq<Node>, order: seq<Node>)
    requires Topological(Dependencies(m), order)
    requires forall r :: r in roots ==> r in order
    ensures forall t :: Wanted(m, roots, t) ==> t in order && !CycleThrough(Dependencies(m), t)
  {
    var g := Dependencies(m);
    forall t | Wanted(m, roots, t)
      ensures t in order && !CycleThrough(g, t)
    {
      var r :| r in roots && Reaches(g, r, t);
      TopologicalClosed(g, order, r, t);
      var i :| 0 <= i < |order| && order[i] == t;
      forall c | IsPath(g, c) && c[0] == t ensures !IsCycle(g, c) {
        TopologicalNoCycle(g, order, c, i);
      }
    }
  }

  /** Succeeds exactly on resolvable requests; the order is the dependency closure, without repeats, every dependency
      before its dependents, and everything in the order of first mention. */
  method Resolve(m: Manifest, requested: seq<Node>) returns (r: Result)
    ensures r.Ok? <==> Resolvable(m, requested)
    ensures r.Ok? ==> Distinct(r.order) && Topological(Dependencies(m), r.order)
    ensures r.Ok? ==> forall t :: t in r.order <==> Wanted(m, Roots(m, requested), t)
    ensures r.Ok? ==> IsFirstMention(Dependencies(m), Dedup(Roots(m, requested)), r.order)
    ensures r.Err? && r.error == EmptyRequest ==> requested == []
    ensures r.Err? && r.error.UnknownName? ==> r.error.name in requested && !Known(m, r.error.name)
    ensures r.Err? && !r.error.EmptyRequest? && !r.error.UnknownName? ==> Justified(m, Roots(m, requested), r.error)
  {
    if requested == [] {
      return Err(EmptyRequest);
    }
    var targets, bad := ExpandRequest(m, requested);
    if bad.Some? {
      return Err(UnknownName(bad.value));
    }
    ghost var g, roots := Dependencies(m), Roots(m, requested);
    DedupElements(roots);
    var search := new Search(m, roots);
    var e := search.TakeAll(targets);
    if e.Some? {
      JustifiedIsReal(m, requested, e.value);
      return Err(e.value);
    }
    ClosureResolved(m, roots, search.resolved);
    return Ok(search.resolved);
  }

  lemma {:induction false} RootsAreTargets(m: Manifest, requested: seq<Node>)
    requires Validated(m)
    ensures forall t :: t in Roots(m, requested) ==> t in m.targets
  {
    if requested == [] {
    } else {
      RootsAreTargets(m, requested[..|requested| - 1]);
    }
  }

  /** Over a validated manifest every non-empty request of known names is resolvable. */
  lemma ValidatedResolves(m: Manifest, requested: seq<Node>)
    requires Validated(m) && requested != [] && forall name :: name in requested ==> Known(m, name)
    ensures Resolvable(m, requested)
  {
    var g := Dependencies(m);
    RootsAreTargets(m, requested);
    forall t | Wanted(m, Roots(m, requested), t)
      ensures t in m.targets
    {
      var r :| r in Roots(m, requested) && Reaches(g, r, t);
      var p :| PathBetween(g, r, t, p);
      if |p| > 1 {
        assert Edge(g, p[|p| - 2], p[|p| - 1]);
      }
    }
  }
}
