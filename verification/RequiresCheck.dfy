/** The depth-first cycle check over the expanded `requires` graph (`_detect_requires_cycle`). */
module RequiresCheck {
  import opened Graphs
  import opened Sequences

  datatype Verdict = Clean | CycleFound(report: seq<Node>)

  /** What the error message lists: a cycle that meets no node twice before it closes, and then its first node once
      more than needed, because the path handed down already ends with the node that closes the cycle. */
  ghost predicate IsReport(g: Graph, report: seq<Node>) {
    && |report| >= 3 && IsCycle(g, report[..|report| - 1]) && Distinct(report[..|report| - 2])
    && report[|report| - 1] == report[0]
  }

  /** The list as a whole is a path exactly when its first node requires itself. */
  lemma ReportIsPathExactly(g: Graph, report: seq<Node>)
    requires IsReport(g, report)
    ensures IsPath(g, report) <==> Edge(g, report[0], report[0])
  {
    var n := |report| - 1;
    var cycle := report[..n];
    assert cycle[n - 1] == report[0];
    if Edge(g, report[0], report[0]) {
      PathExtend(g, cycle, report[n]);
      assert cycle + [report[n]] == report;
    } else {
      assert !Edge(g, report[n - 1], report[n]);
    }
  }

  lemma BackAndForth(g: Graph, a: Node, b: Node, p: seq<Node>)
    requires a != b && g == map[a := [b], b := [a]] && IsPath(g, p) && |p| >= 2
    ensures p[0] in {a, b} && p[1] == (if p[0] == a then b else a) && (|p| >= 3 ==> p[2] == p[0])
  {
    assert Edge(g, p[0], p[1]);
    if |p| >= 3 {
      assert Edge(g, p[1], p[2]);
    }
  }

  lemma FirstAndThird(s: seq<Node>)
    requires Distinct(s)
    ensures |s| >= 3 ==> s[0] != s[2]
  {
  }

  /** Two targets that require each other: the message reads a, b, a, a or b, a, b, b, and neither is a path. */
  lemma TwoTargetReport(g: Graph, a: Node, b: Node, report: seq<Node>)
    requires a != b && g == map[a := [b], b := [a]] && IsReport(g, report)
    ensures report in {[a, b, a, a], [b, a, b, b]} && !IsPath(g, report)
  {
    BackAndForth(g, a, b, report[..|report| - 1]);
    FirstAndThird(report[..|report| - 2]);
    assert |report| == 4;
    assert report == [report[0], report[1], report[2], report[3]];
    ReportIsPathExactly(g, report);
  }

  lemma ClosesReport(g: Graph, path: seq<Node>, start: nat)
    requires IsPath(g, path) && Distinct(path[..|path| - 1])
    requires start < |path| - 1 && path[start] == path[|path| - 1]
    ensures IsReport(g, path[start..] + [path[start]])
  {
    var report, n := path[start..] + [path[start]], |path| - 1 - start;
    PathSuffix(g, path, start);
    assert report[..|report| - 1] == path[start..];
    forall i, j | 0 <= i < j < n ensures report[i] != report[j] {
      assert report[i] == path[..|path| - 1][start + i] && report[j] == path[..|path| - 1][start + j];
    }
  }

  lemma OneDeeper(g: Graph, path: seq<Node>, dep: Node)
    requires IsPath(g, path) && Distinct(path[..|path| - 1]) && path[|path| - 1] !in path[..|path| - 1]
    requires Edge(g, path[|path| - 1], dep)
    ensures IsPath(g, path + [dep]) && (path + [dep])[..|path + [dep]| - 1] == path && Distinct(path)
    ensures Elements(path) == Elements(path[..|path| - 1]) + {path[|path| - 1]}
  {
    PathExtend(g, path, dep);
    assert path == path[..|path| - 1] + [path[|path| - 1]];
  }

  class Checker {
    const adjacency: Graph
    var visiting: set<Node>
    var visited: set<Node>
    /** The visited nodes in the order they were finished. */
    ghost var finished: seq<Node>

    constructor (adjacency: Graph)
      ensures Valid() && this.adjacency == adjacency && visiting == {} && visited == {}
    {
      this.adjacency := adjacency;
      visiting, visited, finished := {}, {}, [];
    }

    ghost predicate Valid()
      reads this
    {
      Topological(adjacency, finished) && visited == Elements(finished)
    }

    /** `path` is the chain of calls that led here and ends with `node`. */
    method Dfs(node: Node, path: seq<Node>) returns (v: Verdict)
      requires Valid() && node in Nodes(adjacency)
      requires IsPath(adjacency, path) && path[|path| - 1] == node
      requires Distinct(path[..|path| - 1]) && visiting == Elements(path[..|path| - 1])
      modifies this
      ensures v.Clean? ==> Valid() && visiting == old(visiting) && visited >= old(visited) + {node}
      ensures v.CycleFound? ==> IsReport(adjacency, v.report)
      decreases Nodes(adjacency) - visiting
    {
      if node in visiting {
        var start := IndexOf(path, node);
        ClosesReport(adjacency, path, start);
        return CycleFound(path[start..] + [node]);
      }
      if node in visited {
        return Clean;
      }
      visiting := visiting + {node};
      var deps := Succ(adjacency, node);
      for i := 0 to |deps|
        invariant Valid() && visiting == old(visiting) + {node} && visited >= old(visited)
        invariant forall k :: 0 <= k < i ==> deps[k] in visited
      {
        assert Edge(adjacency, node, deps[i]);
        OneDeeper(adjacency, path, deps[i]);
        var inner := Dfs(deps[i], path + [deps[i]]);
        if inner.CycleFound? {
          return inner;
        }
      }
      visiting := visiting - {node};
      visited := visited + {node};
      TopologicalAppend(adjacency, finished, node);
      finished := finished + [node];
      return Clean;
    }
  }

  /** The check is exact, and all but the last entry of what it reports is a real cycle. */
  method Detect(adjacency: Graph) returns (v: Verdict)
    ensures v.Clean? <==> Acyclic(adjacency)
    ensures v.CycleFound? ==> IsReport(adjacency, v.report)
  {
    var checker := new Checker(adjacency);
    var todo := adjacency.Keys;
    while todo != {}
      invariant fresh(checker) && checker.Valid() && checker.adjacency == adjacency && checker.visiting == {}
      invariant todo <= adjacency.Keys && adjacency.Keys - todo <= checker.visited
      decreases todo
    {
      var name :| name in todo;
      todo := todo - {name};
      if name !in checker.visited {
        var inner := checker.Dfs(name, [name]);
        if inner.CycleFound? {
          return inner;
        }
      }
    }
    assert adjacency.Keys <= checker.visited;
    TopologicalAcyclic(adjacency, checker.finished);
    return Clean;
  }
}
