/** layerAcyclic: longest-path layers of a digraph whose strongly connected components are condensed. */
module Layering {
  import opened Wrappers
  import opened Digraph
  import opened Tarjan
  import opened Components
  import StringOrder

  function EdgeSet(edges: seq<(string, string)>): Edges {
    set e | e in edges
  }

  /** The component numbering that the layering relies on. */
  ghost predicate Condensation(E: Edges, nodes: seq<string>, comp: map<string, nat>, ncomp: nat) {
    && comp.Keys == Elems(nodes)
    && (forall v :: v in comp ==> comp[v] < ncomp)
    && (forall u, v :: u in comp && v in comp ==> (comp[u] == comp[v] <==> Mutual(E, u, v)))
    && (forall e :: e in E ==> e.0 in comp && e.1 in comp && comp[e.1] <= comp[e.0])
  }

  lemma EmptyStack(E: Edges, s: Snap)
    requires Inv(E, s, {})
    ensures s.stack == {}
  {
    if x :| x in s.stack {
      var g := Witness(E, s.index, {}, x);
    }
  }

  lemma AddEdge(adj: map<string, seq<string>>, edges: seq<(string, string)>, e: (string, string))
    requires Lists(adj, EdgeSet(edges))
    ensures Lists(if e.0 != e.1 then adj[e.0 := Succ(adj, e.0) + [e.1]] else adj, EdgeSet(edges + [e]))
  {
    var adj' := if e.0 != e.1 then adj[e.0 := Succ(adj, e.0) + [e.1]] else adj;
    forall v, w ensures w in Succ(adj', v) <==> (v, w) in EdgeSet(edges + [e]) && v != w {
      assert w in Succ(adj, v) <==> (v, w) in EdgeSet(edges) && v != w;
      assert (v, w) in EdgeSet(edges + [e]) <==> (v, w) in EdgeSet(edges) || (v, w) == e;
    }
  }

  /** The adjacency lists that layerAcyclic builds, each sorted. */
  method Adjacency(edges: seq<(string, string)>) returns (adj: map<string, seq<string>>)
    ensures Lists(adj, EdgeSet(edges))
    ensures forall v :: v in adj ==> StringOrder.Sorted(adj[v], StringOrder.Le)
  {
    adj := map[];
    for i := 0 to |edges|
      invariant Lists(adj, EdgeSet(edges[..i]))
    {
      var e := edges[i];
      AddEdge(adj, edges[..i], e);
      assert edges[..i + 1] == edges[..i] + [e];
      if e.0 != e.1 {
        adj := adj[e.0 := Succ(adj, e.0) + [e.1]];
      }
    }
    assert edges[..|edges|] == edges;
    var unsorted := adj;
    adj := map v | v in unsorted :: StringOrder.SortStrings(unsorted[v]);
    forall v, w ensures w in Succ(adj, v) <==> w in Succ(unsorted, v) {
      if v in unsorted {
        StringOrder.SameElems(adj[v], unsorted[v]);
      }
    }
  }

  lemma StillSeen(before: map<string, nat>, after: map<string, nat>, ordered: seq<string>, i: nat)
    requires Grew(before, after) && i < |ordered| && ordered[i] in after
    requires forall j :: 0 <= j < i ==> ordered[j] in before
    ensures forall j :: 0 <= j <= i ==> ordered[j] in after
  {
  }

  lemma SeenIsLow(pass: Pass)
    requires pass.Valid({})
    ensures pass.low.Keys == pass.index.Keys <= pass.V && Inv(pass.E, pass.Now(), {})
  {
  }

  /** The pass over all nodes in sorted order: it visits those not yet seen. */
  method VisitAll(pass: Pass, ordered: seq<string>)
    requires pass.Valid({}) && pass.low == map[] && forall x :: x in ordered ==> x in pass.V
    modifies pass
    ensures pass.Valid({}) && forall j :: 0 <= j < |ordered| ==> ordered[j] in pass.low
  {
    hide *;
    for i := 0 to |ordered|
      invariant pass.Valid({}) && forall j :: 0 <= j < i ==> ordered[j] in pass.low
    {
      SeenIsLow(pass);
      if ordered[i] !in pass.index {
        ghost var before := pass.low;
        pass.Strong(ordered[i], {});
        StillSeen(before, pass.low, ordered, i);
      }
    }
  }

  /** The component pass. */
  method Condense(nodes: seq<string>, edges: seq<(string, string)>) returns (comp: map<string, nat>, ncomp: nat)
    requires forall e :: e in edges ==> e.0 in nodes && e.1 in nodes
    ensures Condensation(EdgeSet(edges), nodes, comp, ncomp)
  {
    hide Inv, Returned, Lists, Extends, Ordered, Flags;
    var ordered := StringOrder.SortStrings(nodes);
    StringOrder.SameElems(ordered, nodes);
    var adj := Adjacency(edges);
    var pass := new Pass(adj, EdgeSet(edges), Elems(nodes));
    VisitAll(pass, ordered);
    FinalCondensation(pass.E, pass.Now(), nodes, ordered);
    comp, ncomp := pass.comp, pass.ncomp;
  }

  lemma FinalCondensation(E: Edges, s: Snap, nodes: seq<string>, ordered: seq<string>)
    requires Inv(E, s, {}) && s.index.Keys <= Elems(nodes)
    requires forall x :: x in nodes <==> x in ordered
    requires forall j :: 0 <= j < |ordered| ==> ordered[j] in s.index
    requires forall e :: e in E ==> e.0 in nodes && e.1 in nodes
    ensures Condensation(E, nodes, s.comp, s.ncomp)
  {
    EmptyStack(E, s);
    hide Rooted, Chain, Explored, Reach;
  }

  // ---------- what the layers mean

  /** How many edges of the path join nodes that are not mutually reachable. */
  ghost function Crossings(E: Edges, p: seq<string>): nat {
    if |p| <= 1 then 0
    else Crossings(E, p[..|p| - 1]) + if Mutual(E, p[|p| - 2], p[|p| - 1]) then 0 else 1
  }

  ghost predicate EndsAt(E: Edges, p: seq<string>, v: string) {
    IsPath(E, p) && p[|p| - 1] == v
  }

  /** n is the largest number of component crossings on a path that ends at v. */
  ghost predicate LongestTo(E: Edges, v: string, n: nat) {
    && (exists p :: EndsAt(E, p, v) && Crossings(E, p) == n)
    && (forall p :: EndsAt(E, p, v) ==> Crossings(E, p) <= n)
  }

  /** The longest-path layering of the condensation, said without component numbers. */
  ghost predicate LongestPathLayers(E: Edges, nodes: set<string>, layer: map<string, nat>) {
    layer.Keys == nodes && forall v :: v in nodes ==> LongestTo(E, v, layer[v])
  }

  lemma SnocPath(E: Edges, p: seq<string>, v: string)
    requires IsPath(E, p) && (p[|p| - 1], v) in E
    ensures EndsAt(E, p + [v], v)
    ensures Crossings(E, p + [v]) == Crossings(E, p) + if Mutual(E, p[|p| - 1], v) then 0 else 1
  {
    var q := p + [v];
    forall i | 0 < i < |q| ensures Step(E, q, i) {
      if i < |p| {
        assert Step(E, p, i);
      }
    }
    assert q[..|q| - 1] == p;
  }

  lemma MutualPrefix(E: Edges, q: seq<string>, i: nat)
    requires IsPath(E, q) && i < |q| && Reach(E, q[|q| - 1], q[0])
    ensures Mutual(E, q[0], q[i])
  {
    PathPrefixReach(E, q, i);
    ReachTrans(E, q[i], q[|q| - 1], q[0]);
  }

  /** A path can be continued inside the component it ends in at no cost. */
  lemma {:induction false} ContinueWithin(E: Edges, p: seq<string>, q: seq<string>, i: nat) returns (r: seq<string>)
    requires IsPath(E, p) && IsPath(E, q) && p[|p| - 1] == q[0] && Reach(E, q[|q| - 1], q[0]) && i < |q|
    ensures EndsAt(E, r, q[i]) && Crossings(E, r) == Crossings(E, p)
  {
    if i == 0 {
      return p;
    }
    var r0 := ContinueWithin(E, p, q, i - 1);
    assert Step(E, q, i);
    MutualPrefix(E, q, i - 1);
    MutualPrefix(E, q, i);
    ReachTrans(E, q[i - 1], q[0], q[i]);
    ReachTrans(E, q[i], q[0], q[i - 1]);
    SnocPath(E, r0, q[i]);
    r := r0 + [q[i]];
  }

  // ---------- relaxation over the condensation

  /** Total room above the layers: layer c can grow to n - 1 - c at most. */
  ghost function Slack(layers: seq<nat>, n: nat): int {
    if layers == [] then 0
    else Slack(layers[..|layers| - 1], n) + (n - |layers| - layers[|layers| - 1])
  }

  ghost predicate Bounded(layers: seq<nat>, n: nat) {
    |layers| == n && forall c :: 0 <= c < n ==> layers[c] <= n - 1 - c
  }

  lemma {:induction false} SlackNat(layers: seq<nat>, n: nat)
    requires |layers| <= n && forall c :: 0 <= c < |layers| ==> layers[c] <= n - 1 - c
    ensures Slack(layers, n) >= 0
  {
    if layers != [] {
      SlackNat(layers[..|layers| - 1], n);
    }
  }

  lemma {:induction false} SlackUpdate(layers: seq<nat>, n: nat, c: nat, l: nat)
    requires c < |layers|
    ensures Slack(layers[c := l], n) == Slack(layers, n) - l + layers[c]
  {
    var m := |layers| - 1;
    if c < m {
      SlackUpdate(layers[..m], n, c, l);
      assert layers[c := l][..m] == layers[..m][c := l];
    } else {
      assert layers[c := l][..m] == layers[..m];
    }
  }

  /** Every layer is the number of crossings of some path that ends in the component. */
  ghost predicate Witnessed(E: Edges, comp: map<string, nat>, layers: seq<nat>) {
    forall v :: v in comp && comp[v] < |layers| ==> exists p :: EndsAt(E, p, v) && Crossings(E, p) == layers[comp[v]]
  }

  lemma WitnessStart(E: Edges, comp: map<string, nat>, layers: seq<nat>)
    requires forall c :: 0 <= c < |layers| ==> layers[c] == 0
    ensures Witnessed(E, comp, layers)
  {
    forall v | v in comp && comp[v] < |layers|
      ensures exists p :: EndsAt(E, p, v) && Crossings(E, p) == layers[comp[v]]
    {
      assert EndsAt(E, [v], v) && Crossings(E, [v]) == 0;
    }
  }

  lemma WitnessRaise(E: Edges, nodes: seq<string>, comp: map<string, nat>, ncomp: nat, layers: seq<nat>,
                     e: (string, string))
    requires Condensation(E, nodes, comp, ncomp) && Witnessed(E, comp, layers) && |layers| == ncomp
    requires e in E && comp[e.0] != comp[e.1]
    ensures Witnessed(E, comp, layers[comp[e.1] := layers[comp[e.0]] + 1])
  {
    var layers' := layers[comp[e.1] := layers[comp[e.0]] + 1];
    var p :| EndsAt(E, p, e.0) && Crossings(E, p) == layers[comp[e.0]];
    SnocPath(E, p, e.1);
    forall v | v in comp ensures exists r :: EndsAt(E, r, v) && Crossings(E, r) == layers'[comp[v]] {
      if comp[v] == comp[e.1] {
        var q :| PathBetween(E, q, e.1, v);
        var r := ContinueWithin(E, p + [e.1], q, |q| - 1);
        assert EndsAt(E, r, v) && Crossings(E, r) == layers'[comp[v]];
      } else {
        var r :| EndsAt(E, r, v) && Crossings(E, r) == layers[comp[v]];
      }
    }
  }

  ghost predicate Relaxed(comp: map<string, nat>, layers: seq<nat>, e: (string, string)) {
    e.0 in comp && e.1 in comp && comp[e.0] < |layers| && comp[e.1] < |layers| &&
    (comp[e.0] == comp[e.1] || layers[comp[e.0]] + 1 <= layers[comp[e.1]])
  }

  lemma RelaxedIff(comp: map<string, nat>, layers: seq<nat>, e: (string, string))
    requires e.0 in comp && e.1 in comp && comp[e.0] < |layers| && comp[e.1] < |layers|
    ensures Relaxed(comp, layers, e) <==> comp[e.0] == comp[e.1] || layers[comp[e.0]] + 1 <= layers[comp[e.1]]
  {
  }

  /** Once every edge is relaxed, no path has more crossings than the layer of its last node. */
  lemma {:induction false} PathBelowLayer(E: Edges, nodes: seq<string>, comp: map<string, nat>, ncomp: nat,
                                          layers: seq<nat>, p: seq<string>)
    requires Condensation(E, nodes, comp, ncomp) && |layers| == ncomp
    requires forall e :: e in E ==> Relaxed(comp, layers, e)
    requires IsPath(E, p) && p[|p| - 1] in comp
    ensures Crossings(E, p) <= layers[comp[p[|p| - 1]]]
  {
    if |p| > 1 {
      var q := p[..|p| - 1];
      assert Step(E, p, |p| - 1);
      var e := (p[|p| - 2], p[|p| - 1]);
      assert e in E && Relaxed(comp, layers, e);
      forall i | 0 < i < |q| ensures Step(E, q, i) {
        assert Step(E, p, i);
      }
      PathBelowLayer(E, nodes, comp, ncomp, layers, q);
    }
  }

  /** Raising the head of an unrelaxed edge keeps the bound, keeps the witnesses and spends slack. */
  lemma Raise(E: Edges, nodes: seq<string>, comp: map<string, nat>, ncomp: nat, layers: seq<nat>, e: (string, string))
    requires Condensation(E, nodes, comp, ncomp) && Witnessed(E, comp, layers) && Bounded(layers, ncomp)
    requires e in E && !Relaxed(comp, layers, e)
    ensures Witnessed(E, comp, layers[comp[e.1] := layers[comp[e.0]] + 1])
    ensures Bounded(layers[comp[e.1] := layers[comp[e.0]] + 1], ncomp)
    ensures Slack(layers[comp[e.1] := layers[comp[e.0]] + 1], ncomp) < Slack(layers, ncomp)
  {
    WitnessRaise(E, nodes, comp, ncomp, layers, e);
    SlackUpdate(layers, ncomp, comp[e.1], layers[comp[e.0]] + 1);
  }

  lemma EdgeComps(E: Edges, nodes: seq<string>, comp: map<string, nat>, ncomp: nat)
    requires Condensation(E, nodes, comp, ncomp)
    ensures forall e :: e in E ==> e.0 in comp && e.1 in comp && comp[e.0] < ncomp && comp[e.1] < ncomp
  {
  }

  /** One edge of a pass. */
  method RelaxEdge(clayer: array<nat>, comp: map<string, nat>, nodes: seq<string>, ghost E: Edges, e: (string, string))
    returns (raised: bool)
    requires e in E && e.0 in comp && e.1 in comp && comp[e.0] < clayer.Length && comp[e.1] < clayer.Length
    requires Condensation(E, nodes, comp, clayer.Length)
    requires Bounded(clayer[..], clayer.Length) && Witnessed(E, comp, clayer[..])
    modifies clayer
    ensures Bounded(clayer[..], clayer.Length) && Witnessed(E, comp, clayer[..])
    ensures raised ==> Slack(clayer[..], clayer.Length) < old(Slack(clayer[..], clayer.Length))
    ensures !raised ==> clayer[..] == old(clayer[..]) && Relaxed(comp, clayer[..], e)
  {
    hide Witnessed, Condensation, Slack, Bounded, Relaxed;
    raised := false;
    RelaxedIff(comp, clayer[..], e);
    var a, b := comp[e.0], comp[e.1];
    if a != b {
      var l := clayer[a] + 1;
      if l > clayer[b] {
        Raise(E, nodes, comp, clayer.Length, clayer[..], e);
        ghost var before := clayer[..];
        clayer[b] := l;
        assert clayer[..] == before[b := l];
        raised := true;
      }
    }
  }

  /** One pass over the edges. */
  method RelaxPass(clayer: array<nat>, comp: map<string, nat>, nodes: seq<string>, edges: seq<(string, string)>)
    returns (changed: bool)
    requires Condensation(EdgeSet(edges), nodes, comp, clayer.Length)
    requires Bounded(clayer[..], clayer.Length) && Witnessed(EdgeSet(edges), comp, clayer[..])
    modifies clayer
    ensures Bounded(clayer[..], clayer.Length) && Witnessed(EdgeSet(edges), comp, clayer[..])
    ensures changed ==> Slack(clayer[..], clayer.Length) < old(Slack(clayer[..], clayer.Length))
    ensures !changed ==> clayer[..] == old(clayer[..])
    ensures !changed ==> forall j :: 0 <= j < |edges| ==> Relaxed(comp, clayer[..], edges[j])
  {
    ghost var E, start := EdgeSet(edges), clayer[..];
    EdgeComps(E, nodes, comp, clayer.Length);
    assert forall e :: e in edges ==> e in E;
    hide *;
    changed := false;
    for i := 0 to |edges|
      invariant Bounded(clayer[..], clayer.Length) && Witnessed(E, comp, clayer[..])
      invariant changed ==> Slack(clayer[..], clayer.Length) < Slack(start, clayer.Length)
      invariant !changed ==> clayer[..] == start
      invariant !changed ==> forall j :: 0 <= j < i ==> Relaxed(comp, start, edges[j])
    {
      assert edges[i] in E;
      var raised := RelaxEdge(clayer, comp, nodes, E, edges[i]);
      changed := changed || raised;
    }
  }

  /** The relaxation loop: it runs until a pass over the edges changes nothing. */
  method Relax(comp: map<string, nat>, ncomp: nat, nodes: seq<string>, edges: seq<(string, string)>)
    returns (clayer: array<nat>)
    requires Condensation(EdgeSet(edges), nodes, comp, ncomp)
    ensures fresh(clayer) && clayer.Length == ncomp
    ensures Witnessed(EdgeSet(edges), comp, clayer[..])
    ensures forall e :: e in EdgeSet(edges) ==> Relaxed(comp, clayer[..], e)
  {
    ghost var E := EdgeSet(edges);
    clayer := new nat[ncomp](_ => 0);
    WitnessStart(E, comp, clayer[..]);
    hide Witnessed, Condensation, Slack;
    var changed := true;
    while changed
      invariant Bounded(clayer[..], ncomp) && Witnessed(E, comp, clayer[..])
      invariant !changed ==> forall j :: 0 <= j < |edges| ==> Relaxed(comp, clayer[..], edges[j])
      decreases Slack(clayer[..], ncomp), changed
    {
      SlackNat(clayer[..], ncomp);
      changed := RelaxPass(clayer, comp, nodes, edges);
    }
  }

  /** The layers of the nodes: exactly the longest-path layering of the condensation. */
  method LayerAcyclic(nodes: seq<string>, edges: seq<(string, string)>) returns (out: map<string, nat>)
    requires forall e :: e in edges ==> e.0 in nodes && e.1 in nodes
    ensures LongestPathLayers(EdgeSet(edges), Elems(nodes), out)
  {
    ghost var E := EdgeSet(edges);
    var comp, ncomp := Condense(nodes, edges);
    var clayer := Relax(comp, ncomp, nodes, edges);
    out := map v | v in nodes :: clayer[comp[v]];
    ghost var layers := clayer[..];
    forall v | v in nodes ensures LongestTo(E, v, out[v]) {
      assert v in comp;
      forall p | EndsAt(E, p, v) ensures Crossings(E, p) <= out[v] {
        PathBelowLayer(E, nodes, comp, ncomp, layers, p);
      }
    }
  }

  // ---------- consequences

  /** The layering depends on the set of edges and nodes only, not on the order they come in. */
  lemma LayersUnique(E: Edges, nodes: set<string>, a: map<string, nat>, b: map<string, nat>)
    requires LongestPathLayers(E, nodes, a) && LongestPathLayers(E, nodes, b)
    ensures a == b
  {
    forall v | v in nodes ensures a[v] == b[v] {
      var p :| EndsAt(E, p, v) && Crossings(E, p) == a[v];
      var q :| EndsAt(E, q, v) && Crossings(E, q) == b[v];
    }
  }

  /** Members of a cycle share a layer, and an edge between components goes to a strictly larger layer. */
  lemma LayersFollowEdges(E: Edges, nodes: set<string>, layer: map<string, nat>, u: string, v: string)
    requires LongestPathLayers(E, nodes, layer) && u in nodes && v in nodes
    ensures Mutual(E, u, v) ==> layer[u] == layer[v]
    ensures (u, v) in E && !Mutual(E, u, v) ==> layer[u] < layer[v]
  {
    if Mutual(E, u, v) {
      LayerCarries(E, nodes, layer, u, v);
      LayerCarries(E, nodes, layer, v, u);
    } else if (u, v) in E {
      var p :| EndsAt(E, p, u) && Crossings(E, p) == layer[u];
      SnocPath(E, p, v);
    }
  }

  lemma LayerCarries(E: Edges, nodes: set<string>, layer: map<string, nat>, u: string, v: string)
    requires LongestPathLayers(E, nodes, layer) && u in nodes && v in nodes && Mutual(E, u, v)
    ensures layer[u] <= layer[v]
  {
    var p :| EndsAt(E, p, u) && Crossings(E, p) == layer[u];
    var q :| PathBetween(E, q, u, v);
    var r := ContinueWithin(E, p, q, |q| - 1);
  }

  /** f is a layering: it never falls along an edge and rises between components. */
  ghost predicate Layering(E: Edges, nodes: set<string>, f: map<string, nat>) {
    && f.Keys == nodes
    && (forall e :: e in E ==> e.0 in nodes && e.1 in nodes)
    && (forall e :: e in E ==> f[e.0] + (if Mutual(E, e.0, e.1) then 0 else 1) <= f[e.1])
  }

  lemma {:induction false} PathBelowLayering(E: Edges, nodes: set<string>, f: map<string, nat>, p: seq<string>)
    requires Layering(E, nodes, f) && IsPath(E, p) && p[|p| - 1] in nodes
    ensures Crossings(E, p) <= f[p[|p| - 1]]
  {
    if |p| > 1 {
      var q := p[..|p| - 1];
      assert Step(E, p, |p| - 1);
      assert (p[|p| - 2], p[|p| - 1]) in E;
      forall i | 0 < i < |q| ensures Step(E, q, i) {
        assert Step(E, p, i);
      }
      PathBelowLayering(E, nodes, f, q);
    }
  }

  /** Among all layerings the longest-path layering is the least, node by node. */
  lemma LayersLeast(E: Edges, nodes: set<string>, layer: map<string, nat>, f: map<string, nat>)
    requires LongestPathLayers(E, nodes, layer) && Layering(E, nodes, f)
    ensures forall v :: v in nodes ==> layer[v] <= f[v]
  {
    forall v | v in nodes ensures layer[v] <= f[v] {
      var p :| EndsAt(E, p, v) && Crossings(E, p) == layer[v];
      PathBelowLayering(E, nodes, f, p);
    }
  }
}
