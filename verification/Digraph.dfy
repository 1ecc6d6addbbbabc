/** Directed graphs given as a set of edges, with paths and reachability.
    Shared by the layering of drawio pages and the search for a failed dependency. */
module Digraph {

  type Edges = set<(string, string)>

  /** A path is a non-empty sequence of nodes whose neighbours are joined by edges. */
  ghost predicate IsPath(E: Edges, p: seq<string>) {
    |p| > 0 && forall i {:trigger Step(E, p, i)} :: 0 < i < |p| ==> Step(E, p, i)
  }

  ghost predicate Step(E: Edges, p: seq<string>, i: int)
    requires 0 < i < |p|
  {
    (p[i - 1], p[i]) in E
  }

  ghost predicate PathBetween(E: Edges, p: seq<string>, u: string, v: string) {
    IsPath(E, p) && p[0] == u && p[|p| - 1] == v
  }

  ghost predicate Reach(E: Edges, u: string, v: string) {
    exists p :: PathBetween(E, p, u, v)
  }

  ghost predicate Mutual(E: Edges, u: string, v: string) {
    Reach(E, u, v) && Reach(E, v, u)
  }

  lemma ReachRefl(E: Edges, u: string)
    ensures Reach(E, u, u)
  {
    assert PathBetween(E, [u], u, u);
  }

  lemma ReachEdge(E: Edges, u: string, v: string)
    requires (u, v) in E
    ensures Reach(E, u, v)
  {
    var p := [u, v];
    assert Step(E, p, 1);
    assert PathBetween(E, p, u, v);
  }

  /** Two paths that share an end point join into one. */
  lemma JoinPaths(E: Edges, p: seq<string>, q: seq<string>)
    requires IsPath(E, p) && IsPath(E, q) && p[|p| - 1] == q[0]
    ensures PathBetween(E, p + q[1..], p[0], q[|q| - 1])
  {
    var r := p + q[1..];
    forall i | 0 < i < |r| ensures Step(E, r, i) {
      if i < |p| {
        assert Step(E, p, i);
      } else {
        assert Step(E, q, i - |p| + 1);
      }
    }
  }

  lemma ReachTrans(E: Edges, u: string, v: string, w: string)
    requires Reach(E, u, v) && Reach(E, v, w)
    ensures Reach(E, u, w)
  {
    var p :| PathBetween(E, p, u, v);
    var q :| PathBetween(E, q, v, w);
    JoinPaths(E, p, q);
  }

  /** A set of nodes that no edge leaves. */
  ghost predicate Closed(E: Edges, S: set<string>) {
    forall e :: e in E && e.0 in S ==> e.1 in S
  }

  /** A path that starts in a closed set stays in it. */
  lemma {:induction false} ClosedPath(E: Edges, S: set<string>, p: seq<string>, i: nat)
    requires Closed(E, S) && IsPath(E, p) && p[0] in S && i < |p|
    ensures p[i] in S
  {
    if i > 0 {
      ClosedPath(E, S, p, i - 1);
      assert Step(E, p, i) && (p[i - 1], p[i]) in E;
    }
  }

  lemma ClosedReach(E: Edges, S: set<string>, u: string, v: string)
    requires Closed(E, S) && u in S && Reach(E, u, v)
    ensures v in S
  {
    var p :| PathBetween(E, p, u, v);
    ClosedPath(E, S, p, |p| - 1);
  }

  /** On a path between mutually reachable nodes, all nodes are mutually reachable. */
  lemma PathPrefixReach(E: Edges, p: seq<string>, i: nat)
    requires IsPath(E, p) && i < |p|
    ensures Reach(E, p[0], p[i]) && Reach(E, p[i], p[|p| - 1])
  {
    var a, b := p[..i + 1], p[i..];
    forall k | 0 < k < |a| ensures Step(E, a, k) {
      assert Step(E, p, k);
    }
    forall k | 0 < k < |b| ensures Step(E, b, k) {
      assert Step(E, p, i + k);
    }
    assert PathBetween(E, a, p[0], p[i]) && PathBetween(E, b, p[i], p[|p| - 1]);
  }

  /** The targets that adjacency lists give for v. */
  function Succ(adj: map<string, seq<string>>, v: string): seq<string> {
    if v in adj then adj[v] else []
  }
}
