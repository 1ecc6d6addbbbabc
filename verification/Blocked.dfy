/** firstFailedDep: breadth-first search along hard dependencies for the nearest failed unit. */
module Blocked {
  import opened Wrappers
  import opened Digraph

  /** The edges that the adjacency lists stand for. */
  ghost predicate EdgesOf(adj: map<string, seq<string>>, E: Edges) {
    forall v, w {:trigger (v, w) in E} {:trigger w in Succ(adj, v)} :: (v, w) in E <==> w in Succ(adj, v)
  }

  /** n hops lead from u to v. */
  ghost predicate Hops(E: Edges, u: string, v: string, n: nat) {
    exists p :: PathBetween(E, p, u, v) && |p| == n + 1
  }

  /** v is a failed unit other than u, and no other failed unit but u is fewer hops away from u. */
  ghost predicate NearestFailed(E: Edges, failed: set<string>, u: string, v: string, n: nat) {
    && v in failed && v != u && Hops(E, u, v, n)
    && forall w, m: nat :: w in failed && w != u && Hops(E, u, w, m) ==> n <= m
  }

  lemma HopsNext(E: Edges, u: string, v: string, w: string, n: nat)
    requires Hops(E, u, v, n) && (v, w) in E
    ensures Hops(E, u, w, n + 1)
  {
    var p :| PathBetween(E, p, u, v) && |p| == n + 1;
    var q := p + [w];
    forall i | 0 < i < |q| ensures Step(E, q, i) {
      if i < |p| {
        assert Step(E, p, i);
      }
    }
    assert PathBetween(E, q, u, w);
  }

  /** The search so far. depth gives the hops to every seen node; the queue is sorted by hops and spans two
      levels at most; every edge out of a seen node is accounted for. */
  ghost predicate Frontier(E: Edges, from: string, failed: set<string>, seen: set<string>, depth: map<string, nat>,
                           queue: seq<string>, hops: seq<nat>) {
    && depth.Keys == seen && from in seen && depth[from] == 0 && |hops| == |queue|
    && (forall x :: x in seen ==> Hops(E, from, x, depth[x]) && (x in failed ==> x == from))
    && (forall i :: 0 <= i < |queue| ==> Hops(E, from, queue[i], hops[i]))
    && (forall i, j :: 0 <= i <= j < |hops| ==> hops[i] <= hops[j] <= hops[0] + 1)
    && (forall x, i :: x in seen && 0 <= i < |hops| ==> depth[x] <= hops[i])
    && (forall e :: e in E && e.0 in seen ==> Covered(e.1, depth[e.0] + 1, seen, depth, queue, hops))
  }

  /** y is seen within n hops, or queued with at most n hops. */
  ghost predicate Covered(y: string, n: nat, seen: set<string>, depth: map<string, nat>, queue: seq<string>,
                          hops: seq<nat>)
    requires depth.Keys == seen && |hops| == |queue|
  {
    (y in seen && depth[y] <= n) || exists i :: 0 <= i < |queue| && queue[i] == y && hops[i] <= n
  }

  /** Along any path from the start, either all nodes are seen, or the head of the queue is no farther
      than the end of the path. */
  lemma {:induction false} PathSeen(E: Edges, from: string, failed: set<string>, seen: set<string>,
                                    depth: map<string, nat>, queue: seq<string>, hops: seq<nat>, p: seq<string>, k: nat)
    requires Frontier(E, from, failed, seen, depth, queue, hops)
    requires IsPath(E, p) && p[0] == from && k < |p|
    ensures (p[k] in seen && depth[p[k]] <= k) || (queue != [] && hops[0] <= k)
  {
    if k > 0 {
      PathSeen(E, from, failed, seen, depth, queue, hops, p, k - 1);
      assert Step(E, p, k);
      if p[k - 1] in seen && depth[p[k - 1]] <= k - 1 {
        assert (p[k - 1], p[k]) in E;
        assert Covered(p[k], depth[p[k - 1]] + 1, seen, depth, queue, hops);
      }
    }
  }

  /** A failed node other than the start is at least as far as the head of the queue. */
  lemma NoneNearer(E: Edges, from: string, failed: set<string>, seen: set<string>, depth: map<string, nat>,
                   queue: seq<string>, hops: seq<nat>, w: string, m: nat)
    requires Frontier(E, from, failed, seen, depth, queue, hops)
    requires w in failed && w != from && Hops(E, from, w, m)
    ensures queue != [] && hops[0] <= m
  {
    var p :| PathBetween(E, p, from, w) && |p| == m + 1;
    PathSeen(E, from, failed, seen, depth, queue, hops, p, m);
  }

  /** Dropping a queue entry that has been seen already loses nothing. */
  lemma DropSeen(E: Edges, from: string, failed: set<string>, seen: set<string>, depth: map<string, nat>,
                 queue: seq<string>, hops: seq<nat>)
    requires Frontier(E, from, failed, seen, depth, queue, hops) && queue != [] && queue[0] in seen
    ensures Frontier(E, from, failed, seen, depth, queue[1..], hops[1..])
  {
    forall e | e in E && e.0 in seen ensures Covered(e.1, depth[e.0] + 1, seen, depth, queue[1..], hops[1..]) {
      assert Covered(e.1, depth[e.0] + 1, seen, depth, queue, hops);
      if !(e.1 in seen && depth[e.1] <= depth[e.0] + 1) {
        var i :| 0 <= i < |queue| && queue[i] == e.1 && hops[i] <= depth[e.0] + 1;
        if i > 0 {
          assert queue[1..][i - 1] == e.1 && hops[1..][i - 1] <= depth[e.0] + 1;
        }
      }
    }
  }

  ghost function Ones(n: nat, d: nat): seq<nat> {
    seq(n, _ => d)
  }

  lemma ExpandHops(E: Edges, adj: map<string, seq<string>>, from: string, n: string, d: nat, queue: seq<string>,
                   hops: seq<nat>)
    requires EdgesOf(adj, E) && Hops(E, from, n, d) && |queue| == |hops|
    requires forall i :: 0 <= i < |queue| ==> Hops(E, from, queue[i], hops[i])
    ensures var queue', hops' := queue + Succ(adj, n), hops + Ones(|Succ(adj, n)|, d + 1);
            |queue'| == |hops'| && forall i :: 0 <= i < |queue'| ==> Hops(E, from, queue'[i], hops'[i])
  {
    hide Hops;
    var ws := Succ(adj, n);
    forall i | 0 <= i < |ws| ensures Hops(E, from, ws[i], d + 1) {
      assert ws[i] in ws && (n, ws[i]) in E;
      HopsNext(E, from, n, ws[i], d);
    }
  }

  lemma ExpandCovered(E: Edges, adj: map<string, seq<string>>, seen: set<string>, depth: map<string, nat>,
                      queue: seq<string>, hops: seq<nat>, e: (string, string))
    requires EdgesOf(adj, E) && depth.Keys == seen && |hops| == |queue| && queue != [] && queue[0] !in seen
    requires e in E && (e.0 in seen ==> Covered(e.1, depth[e.0] + 1, seen, depth, queue, hops))
    ensures var n, d := queue[0], hops[0];
            e.0 in seen + {n} ==>
              Covered(e.1, depth[n := d][e.0] + 1, seen + {n}, depth[n := d],
                      queue[1..] + Succ(adj, n), hops[1..] + Ones(|Succ(adj, n)|, d + 1))
  {
    var n, d, ws := queue[0], hops[0], Succ(adj, queue[0]);
    var queue', hops' := queue[1..] + ws, hops[1..] + Ones(|ws|, d + 1);
    if e.0 == n {
      var j :| 0 <= j < |ws| && ws[j] == e.1;
      assert queue'[|queue| - 1 + j] == e.1 && hops'[|queue| - 1 + j] == d + 1;
    } else if e.0 in seen && !(e.1 in seen && depth[e.1] <= depth[e.0] + 1) {
      var i :| 0 <= i < |queue| && queue[i] == e.1 && hops[i] <= depth[e.0] + 1;
      if i > 0 {
        assert queue'[i - 1] == e.1 && hops'[i - 1] == hops[i];
      }
    }
  }

  /** The head of the queue, not seen before and not failed, is marked and its successors are appended. */
  lemma Expand(E: Edges, adj: map<string, seq<string>>, from: string, failed: set<string>, seen: set<string>,
               depth: map<string, nat>, queue: seq<string>, hops: seq<nat>)
    requires EdgesOf(adj, E) && Frontier(E, from, failed, seen, depth, queue, hops)
    requires queue != [] && queue[0] !in seen && queue[0] !in failed
    ensures var n := queue[0];
            Frontier(E, from, failed, seen + {n}, depth[n := hops[0]], queue[1..] + Succ(adj, n),
                     hops[1..] + Ones(|Succ(adj, n)|, hops[0] + 1))
  {
    hide Hops, Covered, EdgesOf, Succ;
    var n, d := queue[0], hops[0];
    ExpandHops(E, adj, from, n, d, queue[1..], hops[1..]);
    forall e | e in E && e.0 in seen + {n}
      ensures Covered(e.1, depth[n := d][e.0] + 1, seen + {n}, depth[n := d], queue[1..] + Succ(adj, n),
                      hops[1..] + Ones(|Succ(adj, n)|, d + 1))
    {
      ExpandCovered(E, adj, seen, depth, queue, hops, e);
    }
  }

  /** firstFailedDep. None stands for the empty answer. */
  method FirstFailedDep(from: string, adj: map<string, seq<string>>, failed: set<string>, ghost E: Edges)
    returns (r: Option<string>)
    requires EdgesOf(adj, E)
    ensures r.Some? ==> exists n :: NearestFailed(E, failed, from, r.value, n)
    ensures r.None? <==> forall w :: w in failed && w != from ==> !Reach(E, from, w)
  {
    var seen := {from};
    var queue := Succ(adj, from);
    ghost var depth: map<string, nat> := map[from := 0];
    ghost var hops := Ones(|queue|, 1);
    ghost var all := {from} + set v, w | v in adj && w in adj[v] :: w;
    Start(E, adj, from, failed);
    hide Frontier;
    while |queue| > 0
      invariant Frontier(E, from, failed, seen, depth, queue, hops)
      invariant seen <= all && forall w :: w in queue ==> w in all
      decreases all - seen, |queue|
    {
      var n := queue[0];
      if n in seen {
        DropSeen(E, from, failed, seen, depth, queue, hops);
        queue, hops := queue[1..], hops[1..];
        continue;
      }
      if n in failed {
        Found(E, from, failed, seen, depth, queue, hops);
        return Some(n);
      }
      Expand(E, adj, from, failed, seen, depth, queue, hops);
      seen := seen + {n};
      depth := depth[n := hops[0]];
      queue, hops := queue[1..] + Succ(adj, n), hops[1..] + Ones(|Succ(adj, n)|, hops[0] + 1);
    }
    Exhausted(E, from, failed, seen, depth, hops);
    return None;
  }

  lemma Start(E: Edges, adj: map<string, seq<string>>, from: string, failed: set<string>)
    requires EdgesOf(adj, E)
    ensures Frontier(E, from, failed, {from}, map[from := 0], Succ(adj, from), Ones(|Succ(adj, from)|, 1))
  {
    var queue := Succ(adj, from);
    assert PathBetween(E, [from], from, from);
    forall i | 0 <= i < |queue| ensures Hops(E, from, queue[i], 1) {
      assert queue[i] in queue;
      HopsNext(E, from, from, queue[i], 0);
    }
  }

  lemma Found(E: Edges, from: string, failed: set<string>, seen: set<string>, depth: map<string, nat>,
              queue: seq<string>, hops: seq<nat>)
    requires Frontier(E, from, failed, seen, depth, queue, hops) && queue != [] && queue[0] in failed
        && queue[0] !in seen
    ensures |hops| > 0 && NearestFailed(E, failed, from, queue[0], hops[0])
    ensures Reach(E, from, queue[0]) && queue[0] != from
  {
    forall w, m: nat | w in failed && w != from && Hops(E, from, w, m) ensures hops[0] <= m {
      NoneNearer(E, from, failed, seen, depth, queue, hops, w, m);
    }
  }

  lemma Exhausted(E: Edges, from: string, failed: set<string>, seen: set<string>, depth: map<string, nat>,
                  hops: seq<nat>)
    requires Frontier(E, from, failed, seen, depth, [], hops)
    ensures forall w :: w in failed && w != from ==> !Reach(E, from, w)
  {
    forall w | w in failed && w != from ensures !Reach(E, from, w) {
      if Reach(E, from, w) {
        var p :| PathBetween(E, p, from, w);
        assert Hops(E, from, w, |p| - 1);
        NoneNearer(E, from, failed, seen, depth, [], hops, w, |p| - 1);
      }
    }
  }
}
