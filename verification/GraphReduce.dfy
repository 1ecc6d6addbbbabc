/** The reduction of the dependency graph before it is drawn: builds folded into their consumer's label, and nodes
    that no edge touches set apart. */
module GraphReduce {
  import opened StringOrder
  import opened DepGraph

  function LastDot(id: string): (i: int)
    ensures -1 <= i < |id|
  {
    if id == "" then -1 else if id[|id| - 1] == '.' then |id| - 1 else LastDot(id[..|id| - 1])
  }

  /** The id without its extension. */
  function StemOf(id: string): string {
    if LastDot(id) > 0 then id[..LastDot(id)] else id
  }

  lemma {:induction false} LastDotIs(id: string)
    ensures LastDot(id) >= 0 ==> id[LastDot(id)] == '.'
    ensures forall i :: LastDot(id) < i < |id| ==> id[i] != '.'
  {
    if id != "" && id[|id| - 1] != '.' {
      LastDotIs(id[..|id| - 1]);
    }
  }

  /** The stem of a name that is no unit's too: what stands before its last dot, unless the dot is the first character
      or there is none. */
  lemma StemIs(id: string, stem: string, ext: string)
    ensures stem != "" && id == stem + "." + ext && '.' !in ext ==> StemOf(id) == stem
    ensures id == "." + ext && '.' !in ext ==> StemOf(id) == id
    ensures '.' !in id ==> StemOf(id) == id
  {
    LastDotIs(id);
    hide LastDot;
    if stem != "" && id == stem + "." + ext && '.' !in ext {
      assert id[|stem|] == '.';
      forall i | |stem| < i < |id| ensures id[i] != '.' {
        assert id[i] == ext[i - |stem| - 1];
      }
      assert LastDot(id) == |stem|;
    }
    if id == "." + ext && '.' !in ext {
      forall i | 0 < i < |id| ensures id[i] != '.' {
        assert id[i] == ext[i - 1];
      }
    }
  }

  /** A build's file name is its stem and ".build". */
  ghost predicate NamedBuilds(nodes: map<string, Node>) {
    forall id :: id in nodes && nodes[id].kind == "build" ==> id == StemOf(id) + ".build"
  }

  ghost predicate Closed(nodes: map<string, Node>, edges: seq<Edge>) {
    forall e :: e in edges ==> e.from in nodes && e.to in nodes
  }

  /** An image edge to a build of the same quadlet and stem. */
  predicate Folds(nodes: map<string, Node>, e: Edge)
    requires e.from in nodes && e.to in nodes
  {
    && e.rel == "image" && nodes[e.to].kind == "build"
    && nodes[e.to].quadlet == nodes[e.from].quadlet && StemOf(e.from) == StemOf(e.to)
  }

  /** An edge folds exactly when it is the image edge of a unit to the build of its name in its quadlet. */
  lemma FoldsIff(nodes: map<string, Node>, e: Edge, stem: string, ext: string)
    requires NamedBuilds(nodes) && e.from in nodes && e.to in nodes
    requires stem != "" && e.from == stem + "." + ext && '.' !in ext
    ensures Folds(nodes, e) <==>
            && e.rel == "image" && nodes[e.to].kind == "build" && e.to == stem + ".build"
            && nodes[e.from].quadlet == nodes[e.to].quadlet
  {
    hide StemOf;
    StemIs(e.from, stem, ext);
    var build := stem + "." + "build";
    assert build == stem + ".build";
    StemIs(build, stem, "build");
  }

  predicate Touches(e: Edge, id: string) {
    e.from == id || e.to == id
  }

  /** Some edge folds into b. */
  ghost predicate Candidate(nodes: map<string, Node>, edges: seq<Edge>, b: string)
    requires Closed(nodes, edges)
  {
    exists e :: e in edges && e.to == b && Folds(nodes, e)
  }

  /** Nothing but folding edges into b touches b. */
  ghost predicate OnlyFolds(nodes: map<string, Node>, edges: seq<Edge>, b: string)
    requires Closed(nodes, edges)
  {
    forall e :: e in edges && Touches(e, b) ==> e.to == b && Folds(nodes, e)
  }

  lemma FoldsIntoOne(nodes: map<string, Node>, a: Edge, b: Edge)
    requires NamedBuilds(nodes) && a.from in nodes && a.to in nodes && b.from in nodes && b.to in nodes
    requires Folds(nodes, a)
    ensures Folds(nodes, b) && a.from == b.from ==> a.to == b.to
    ensures nodes[a.from].kind == "build" ==> a.from == a.to
  {
  }

  /** reduceCounts */
  datatype Counts = Counts(units: nat, relations: nat, cross: nat, folded: nat, orphans: nat)

  /** reducedGraph; kept is what keptEdges returns. */
  datatype Reduced = Reduced(folded: map<string, string>, hidden: set<string>, orphans: seq<string>,
                             visible: set<string>, kept: seq<Edge>, counts: Counts)

  function StackOf(n: Node): string {
    if n.quadlet == "" then "external" else n.quadlet
  }

  /** Two units share a stack exactly when they are of one quadlet; those of none share that of a quadlet that is
      called external. */
  lemma StackShared(a: Node, b: Node)
    ensures StackOf(a) == StackOf(b) <==>
            a.quadlet == b.quadlet || (a.quadlet == "" && b.quadlet == "external")
            || (a.quadlet == "external" && b.quadlet == "")
    ensures a.quadlet != "" ==> StackOf(a) == a.quadlet
    ensures a.quadlet == "" ==> StackOf(a) == "external"
  {
  }

  /** The ends of the edge are in different stacks. */
  predicate Crosses(nodes: map<string, Node>, e: Edge) {
    e.from in nodes && e.to in nodes && StackOf(nodes[e.from]) != StackOf(nodes[e.to])
  }

  /** The ends of the edge belong to different quadlets, or one of them to a quadlet and the other to none. */
  ghost predicate BetweenQuadlets(nodes: map<string, Node>, e: Edge) {
    && e.from in nodes && e.to in nodes
    && var a, b := nodes[e.from].quadlet, nodes[e.to].quadlet;
       a != b && !(a == "" && b == "external") && !(a == "external" && b == "")
  }

  lemma CrossesIff(nodes: map<string, Node>, e: Edge)
    ensures Crosses(nodes, e) <==> BetweenQuadlets(nodes, e)
  {
    if e.from in nodes && e.to in nodes {
      StackShared(nodes[e.from], nodes[e.to]);
    }
  }

  ghost function EdgeSet(edges: seq<Edge>): set<Edge> {
    set e | e in edges
  }

  ghost function CrossEdges(nodes: map<string, Node>, kept: seq<Edge>): set<Edge> {
    set e | e in kept && BetweenQuadlets(nodes, e)
  }

  /** The counts are the sizes of the sets they stand for. */
  ghost predicate Counted(counts: Counts, nodes: map<string, Node>, edges: seq<Edge>, hidden: set<string>,
                          orphans: seq<string>, kept: seq<Edge>) {
    && counts.units == |nodes.Keys| && counts.relations == |EdgeSet(edges)|
    && counts.cross == |CrossEdges(nodes, kept)|
    && counts.folded == |hidden| && counts.orphans == |orphans|
  }

  predicate FoldedEdge(folded: map<string, string>, hidden: set<string>, e: Edge) {
    e.rel == "image" && e.from in folded && folded[e.from] == e.to && e.to in hidden
  }

  /** folded maps the sources of folding edges to their builds. */
  ghost predicate FoldMap(nodes: map<string, Node>, edges: seq<Edge>, folded: map<string, string>)
    requires Closed(nodes, edges)
  {
    && (forall e :: e in edges && Folds(nodes, e) ==> e.from in folded && folded[e.from] == e.to)
    && (forall c :: c in folded ==> Edge(c, folded[c], "image") in edges && Folds(nodes, Edge(c, folded[c], "image")))
  }

  /** The hidden builds are those that only folding edges touch; a node that no edge touches is an orphan; the rest
      is visible; and the edges of hidden builds are the ones not kept. */
  ghost predicate Reduces(nodes: map<string, Node>, edges: seq<Edge>, r: Reduced)
    requires Closed(nodes, edges)
  {
    && FoldMap(nodes, edges, r.folded)
    && (forall b :: b in r.hidden <==> Candidate(nodes, edges, b) && OnlyFolds(nodes, edges, b))
    && StrictlySorted(r.orphans, Le)
    && (forall id :: id in r.orphans <==> id in nodes && forall e :: e in edges ==> !Touches(e, id))
    && (forall id :: id in r.visible <==> id in nodes && id !in r.hidden && id !in r.orphans)
    && StrictlySorted(r.kept, EdgeLe)
    && (forall e :: e in r.kept <==> e in edges && !FoldedEdge(r.folded, r.hidden, e))
    && Counted(r.counts, nodes, edges, r.hidden, r.orphans, r.kept)
  }

  /** The first loop of reduceGraph. */
  method FoldCandidates(nodes: map<string, Node>, edges: seq<Edge>)
    returns (folded: map<string, string>, hidden: set<string>)
    requires Closed(nodes, edges) && NamedBuilds(nodes)
    ensures FoldMap(nodes, edges, folded)
    ensures forall b :: b in hidden <==> Candidate(nodes, edges, b)
  {
    hide StemOf, Folds, FoldMap, Candidate, NamedBuilds;
    folded, hidden := map[], {};
    NoFolds(nodes);
    for i := 0 to |edges|
      invariant FoldMap(nodes, edges[..i], folded)
      invariant forall b :: b in hidden <==> Candidate(nodes, edges[..i], b)
    {
      var e := edges[i];
      assert edges[..i + 1] == edges[..i] + [e];
      MoreCandidates(nodes, edges[..i], e);
      AnotherFold(nodes, edges[..i], folded, e);
      if Folds(nodes, e) {
        folded := folded[e.from := e.to];
        hidden := hidden + {e.to};
      }
    }
    assert edges[..|edges|] == edges;
  }

  lemma NoFolds(nodes: map<string, Node>)
    ensures FoldMap(nodes, [], map[]) && forall b :: !Candidate(nodes, [], b)
  {
  }

  lemma MoreCandidates(nodes: map<string, Node>, edges: seq<Edge>, e: Edge)
    requires Closed(nodes, edges + [e])
    ensures Closed(nodes, edges)
    ensures forall b :: Candidate(nodes, edges + [e], b)
                        <==> Candidate(nodes, edges, b) || (Folds(nodes, e) && b == e.to)
  {
    assert forall f :: f in edges ==> f in edges + [e];
    assert e in edges + [e];
  }

  lemma AnotherFold(nodes: map<string, Node>, edges: seq<Edge>, folded: map<string, string>, e: Edge)
    requires Closed(nodes, edges) && NamedBuilds(nodes) && FoldMap(nodes, edges, folded)
    requires e.from in nodes && e.to in nodes
    ensures Closed(nodes, edges + [e])
    ensures FoldMap(nodes, edges + [e], if Folds(nodes, e) then folded[e.from := e.to] else folded)
  {
    hide NamedBuilds, StemOf;
    var next := if Folds(nodes, e) then folded[e.from := e.to] else folded;
    forall f | f in edges + [e] && Folds(nodes, f) ensures f.from in next && next[f.from] == f.to {
      FoldsIntoOne(nodes, f, e);
    }
    assert Folds(nodes, e) ==> Edge(e.from, e.to, "image") == e;
  }

  /** The second loop: a build that any other edge touches is not hidden. */
  method KeepTouched(nodes: map<string, Node>, edges: seq<Edge>, folded: map<string, string>, candidates: set<string>)
    returns (hidden: set<string>)
    requires Closed(nodes, edges) && NamedBuilds(nodes) && FoldMap(nodes, edges, folded)
    requires forall b :: b in candidates ==> b in nodes && nodes[b].kind == "build"
    ensures forall b :: b in hidden <==> b in candidates && OnlyFolds(nodes, edges, b)
  {
    hidden := candidates;
    for i := 0 to |edges|
      invariant forall b :: b in hidden <==> b in candidates && OnlyFolds(nodes, edges[..i], b)
    {
      var e := edges[i];
      assert edges[..i + 1] == edges[..i] + [e];
      forall b ensures OnlyFolds(nodes, edges[..i + 1], b)
                       <==> OnlyFolds(nodes, edges[..i], b) && (Touches(e, b) ==> e.to == b && Folds(nodes, e)) {
      }
      if FoldedEdge(folded, hidden, e) {
        assert Folds(nodes, e);
        FoldsIntoOne(nodes, e, e);
        continue;
      }
      hidden := hidden - {e.to, e.from};
    }
    assert edges[..|edges|] == edges;
  }

  function Degree(deg: map<string, nat>, id: string): nat {
    if id in deg then deg[id] else 0
  }

  /** R3: the nodes of degree 0, in order. */
  method Orphans(nodes: map<string, Node>, edges: seq<Edge>) returns (orphans: seq<string>)
    ensures StrictlySorted(orphans, Le)
    ensures forall id :: id in orphans <==> id in nodes && forall e :: e in edges ==> !Touches(e, id)
  {
    var deg: map<string, nat> := map[];
    for i := 0 to |edges|
      invariant forall id :: Degree(deg, id) == 0 <==> forall e :: e in edges[..i] ==> !Touches(e, id)
    {
      var e := edges[i];
      assert edges[..i + 1] == edges[..i] + [e];
      ghost var before := deg;
      deg := deg[e.from := Degree(deg, e.from) + 1];
      deg := deg[e.to := Degree(deg, e.to) + 1];
      assert forall id :: Degree(deg, id) == 0 <==> Degree(before, id) == 0 && !Touches(e, id);
    }
    assert edges[..|edges|] == edges;
    var ids := SortedNames(nodes.Keys);
    orphans := [];
    for i := 0 to |ids|
      invariant StrictlySorted(orphans, Le)
      invariant forall id :: id in orphans <==> id in ids[..i] && Degree(deg, id) == 0
    {
      assert ids[..i + 1] == ids[..i] + [ids[i]];
      if Degree(deg, ids[i]) == 0 {
        forall j | 0 <= j < |orphans| ensures Le(orphans[j], ids[i]) && orphans[j] != ids[i] {
          assert orphans[j] in ids[..i];
        }
        orphans := orphans + [ids[i]];
      }
    }
    assert ids[..|ids|] == ids;
  }

  /** keptEdges, over the sorted edges. */
  method KeptEdges(edges: seq<Edge>, folded: map<string, string>, hidden: set<string>) returns (kept: seq<Edge>)
    requires StrictlySorted(edges, EdgeLe)
    ensures StrictlySorted(kept, EdgeLe)
    ensures forall e :: e in kept <==> e in edges && !FoldedEdge(folded, hidden, e)
  {
    hide EdgeLe, FoldedEdge;
    kept := [];
    for i := 0 to |edges|
      invariant StrictlySorted(kept, EdgeLe)
      invariant forall e :: e in kept <==> e in edges[..i] && !FoldedEdge(folded, hidden, e)
    {
      var e := edges[i];
      assert edges[..i + 1] == edges[..i] + [e];
      if FoldedEdge(folded, hidden, e) {
        continue;
      }
      forall j | 0 <= j < |kept| ensures EdgeLe(kept[j], e) && kept[j] != e {
        assert kept[j] in edges[..i];
      }
      kept := kept + [e];
    }
    assert edges[..|edges|] == edges;
  }

  lemma SameEdges(edges: seq<Edge>, edges': seq<Edge>)
    requires forall e :: e in edges <==> e in edges'
    ensures EdgeSet(edges) == EdgeSet(edges')
  {
  }

  lemma SameFolds(nodes: map<string, Node>, edges: seq<Edge>, edges': seq<Edge>, folded: map<string, string>)
    requires Closed(nodes, edges) && Closed(nodes, edges') && forall e :: e in edges <==> e in edges'
    ensures FoldMap(nodes, edges', folded) ==> FoldMap(nodes, edges, folded)
  {
    hide Folds;
  }

  lemma Assemble(nodes: map<string, Node>, edges: seq<Edge>, sorted: seq<Edge>, candidates: set<string>, r: Reduced)
    requires Closed(nodes, edges) && Closed(nodes, sorted) && forall e :: e in edges <==> e in sorted
    requires FoldMap(nodes, sorted, r.folded)
    requires forall b :: b in candidates <==> Candidate(nodes, sorted, b)
    requires forall b :: b in r.hidden <==> b in candidates && OnlyFolds(nodes, sorted, b)
    requires StrictlySorted(r.orphans, Le) && StrictlySorted(r.kept, EdgeLe)
    requires forall id :: id in r.orphans <==> id in nodes && forall e :: e in sorted ==> !Touches(e, id)
    requires forall id :: id in r.visible <==> id in nodes && id !in r.hidden && id !in r.orphans
    requires forall e :: e in r.kept <==> e in sorted && !FoldedEdge(r.folded, r.hidden, e)
    requires Counted(r.counts, nodes, sorted, r.hidden, r.orphans, r.kept)
    ensures Reduces(nodes, edges, r)
  {
    hide Folds, FoldedEdge, Touches, EdgeLe, Le, EdgeSet, CrossEdges, FoldMap, Candidate, OnlyFolds, StrictlySorted;
    SameEdges(edges, sorted);
    SameFolds(nodes, edges, sorted, r.folded);
    forall b ensures b in r.hidden <==> Candidate(nodes, edges, b) && OnlyFolds(nodes, edges, b) {
      HiddenUnique(nodes, edges, sorted, b);
    }
  }

  lemma SameClosed(nodes: map<string, Node>, edges: seq<Edge>, sorted: seq<Edge>)
    requires Closed(nodes, edges) && forall e :: e in sorted <==> e in edges
    ensures Closed(nodes, sorted)
    ensures forall b :: Candidate(nodes, sorted, b) ==> b in nodes && nodes[b].kind == "build"
  {
  }

  lemma NextCross(nodes: map<string, Node>, kept: seq<Edge>, e: Edge)
    requires e !in kept
    ensures CrossEdges(nodes, kept + [e]) ==
        if Crosses(nodes, e) then CrossEdges(nodes, kept) + {e} else CrossEdges(nodes, kept)
    ensures e !in CrossEdges(nodes, kept) && CrossEdges(nodes, []) == {}
  {
    CrossesIff(nodes, e);
    hide Crosses, BetweenQuadlets;
  }

  lemma NextOfDistinct<T>(s: seq<T>, i: nat)
    requires Distinct(s) && i < |s|
    ensures s[..i + 1] == s[..i] + [s[i]] && s[i] !in s[..i]
  {
  }

  /** The counts, over the sorted edges. */
  method Count(nodes: map<string, Node>, edges: seq<Edge>, hidden: set<string>, orphans: seq<string>, kept: seq<Edge>)
    returns (counts: Counts)
    requires Distinct(edges) && Distinct(kept)
    ensures Counted(counts, nodes, edges, hidden, orphans, kept)
  {
    hide Crosses, CrossEdges, Distinct;
    var cross := 0;
    assert CrossEdges(nodes, kept[..0]) == {} by {
      NoneCross(nodes);
    }
    for i := 0 to |kept|
      invariant cross == |CrossEdges(nodes, kept[..i])|
    {
      NextOfDistinct(kept, i);
      NextCross(nodes, kept[..i], kept[i]);
      if Crosses(nodes, kept[i]) {
        cross := cross + 1;
      }
    }
    assert kept[..|kept|] == kept;
    DistinctSize(edges);
    counts := Counts(|nodes|, |edges|, cross, |hidden|, |orphans|);
    assert |nodes| == |nodes.Keys|;
  }

  lemma NoneCross(nodes: map<string, Node>)
    ensures CrossEdges(nodes, []) == {}
  {
  }

  /** reduceGraph */
  method ReduceGraph(nodes: map<string, Node>, edges: seq<Edge>) returns (r: Reduced)
    requires Closed(nodes, edges) && NamedBuilds(nodes)
    ensures Reduces(nodes, edges, r)
  {
    hide *;
    var sorted := SortedEdges(edges);
    SameClosed(nodes, edges, sorted);
    var folded, candidates := FoldCandidates(nodes, sorted);
    var hidden := KeepTouched(nodes, sorted, folded, candidates);
    var orphans := Orphans(nodes, sorted);
    var visible := set id | id in nodes && id !in hidden && id !in orphans;
    var kept := KeptEdges(sorted, folded, hidden);
    StrictDistinct(sorted, EdgeLe);
    StrictDistinct(kept, EdgeLe);
    var counts := Count(nodes, sorted, hidden, orphans, kept);
    r := Reduced(folded, hidden, orphans, visible, kept, counts);
    Assemble(nodes, edges, sorted, candidates, r);
  }

  /** An edge that touches a hidden build is folded into it, and no edge touches an orphan. */
  lemma EdgeEnds(nodes: map<string, Node>, edges: seq<Edge>, r: Reduced, e: Edge)
    requires Closed(nodes, edges) && Reduces(nodes, edges, r) && e in edges
    ensures e.to in r.hidden || e.from in r.hidden ==> e.to in r.hidden && FoldedEdge(r.folded, r.hidden, e)
    ensures e.to !in r.orphans && e.from !in r.orphans
  {
    hide Candidate, StemOf, Le, EdgeLe, Counted;
    assert Touches(e, e.to) && Touches(e, e.from);
  }

  lemma HiddenIsNode(nodes: map<string, Node>, edges: seq<Edge>, r: Reduced, b: string)
    requires Closed(nodes, edges) && Reduces(nodes, edges, r) && b in r.hidden
    ensures b in nodes && b !in r.orphans
  {
    hide OnlyFolds, StemOf, Le, EdgeLe, Counted, FoldMap;
    var e :| e in edges && e.to == b && Folds(nodes, e);
    assert Touches(e, b);
  }

  function Set(ids: seq<string>): set<string> {
    set id | id in ids
  }

  /** Every node is visible, hidden or an orphan, and only one of these. */
  lemma NodesKept(nodes: map<string, Node>, edges: seq<Edge>, r: Reduced)
    requires Closed(nodes, edges) && Reduces(nodes, edges, r)
    ensures r.visible + r.hidden + Set(r.orphans) == nodes.Keys
    ensures r.visible !! r.hidden && (r.visible + r.hidden) !! Set(r.orphans)
  {
    forall b | b in r.hidden ensures b in nodes && b !in r.orphans {
      HiddenIsNode(nodes, edges, r, b);
    }
    OrphansAreNodes(nodes, edges, r);
    Partition(nodes.Keys, r.visible, r.hidden, r.orphans);
  }

  lemma OrphansAreNodes(nodes: map<string, Node>, edges: seq<Edge>, r: Reduced)
    requires Closed(nodes, edges) && Reduces(nodes, edges, r)
    ensures forall id :: id in r.orphans ==> id in nodes
    ensures forall id :: id in r.visible <==> id in nodes && id !in r.hidden && id !in r.orphans
  {
  }

  lemma Partition(all: set<string>, visible: set<string>, hidden: set<string>, orphans: seq<string>)
    requires forall b :: b in hidden ==> b in all && b !in orphans
    requires forall id :: id in orphans ==> id in all
    requires forall id :: id in visible <==> id in all && id !in hidden && id !in orphans
    ensures visible + hidden + Set(orphans) == all
    ensures visible !! hidden && (visible + hidden) !! Set(orphans)
  {
  }

  /** An edge is kept unless it is drawn in the label of its source, and a kept edge has both its ends drawn. */
  lemma EdgesKept(nodes: map<string, Node>, edges: seq<Edge>, r: Reduced, e: Edge)
    requires Closed(nodes, edges) && Reduces(nodes, edges, r) && e in edges
    ensures e in r.kept <==> !(e.to in r.hidden && e.from in r.folded && r.folded[e.from] == e.to)
    ensures e in r.kept ==> e.from in r.visible && e.to in r.visible
  {
    hide Reduces;
    EdgeEnds(nodes, edges, r, e);
    KeptIff(nodes, edges, r, e);
    VisibleIff(nodes, edges, r, e.from);
    VisibleIff(nodes, edges, r, e.to);
  }

  lemma KeptIff(nodes: map<string, Node>, edges: seq<Edge>, r: Reduced, e: Edge)
    requires Closed(nodes, edges) && Reduces(nodes, edges, r)
    ensures e in r.kept <==> e in edges && !FoldedEdge(r.folded, r.hidden, e)
    ensures e in edges && e.to in r.hidden && e.from in r.folded && r.folded[e.from] == e.to ==>
        FoldedEdge(r.folded, r.hidden, e)
  {
    if e in edges && e.to in r.hidden {
      EdgeEnds(nodes, edges, r, e);
    }
  }

  lemma VisibleIff(nodes: map<string, Node>, edges: seq<Edge>, r: Reduced, id: string)
    requires Closed(nodes, edges) && Reduces(nodes, edges, r)
    ensures id in r.visible <==> id in nodes && id !in r.hidden && id !in r.orphans
  {
  }

  /** Nothing is lost. */
  lemma NothingLost(nodes: map<string, Node>, edges: seq<Edge>, r: Reduced)
    requires Closed(nodes, edges) && Reduces(nodes, edges, r)
    ensures r.visible + r.hidden + Set(r.orphans) == nodes.Keys
    ensures r.visible !! r.hidden && (r.visible + r.hidden) !! Set(r.orphans)
    ensures forall e :: e in r.kept ==> e in edges
    ensures forall e :: e in edges ==>
              (e in r.kept <==> !(e.to in r.hidden && e.from in r.folded && r.folded[e.from] == e.to))
    ensures forall e :: e in r.kept ==> e.from in r.visible && e.to in r.visible
  {
    hide *;
    NodesKept(nodes, edges, r);
    forall e | e in r.kept ensures e in edges {
      KeptIff(nodes, edges, r, e);
    }
    forall e | e in edges
      ensures e in r.kept <==> !(e.to in r.hidden && e.from in r.folded && r.folded[e.from] == e.to)
      ensures e in r.kept ==> e.from in r.visible && e.to in r.visible
    {
      EdgesKept(nodes, edges, r, e);
    }
  }

  ghost function FoldedEdges(edges: seq<Edge>, r: Reduced): set<Edge> {
    set e | e in edges && FoldedEdge(r.folded, r.hidden, e)
  }

  lemma CountFacts(nodes: map<string, Node>, edges: seq<Edge>, r: Reduced)
    requires Closed(nodes, edges) && Reduces(nodes, edges, r)
    ensures r.counts.units == |nodes.Keys| && r.counts.relations == |EdgeSet(edges)| && r.counts.folded == |r.hidden|
    ensures r.counts.orphans == |Set(r.orphans)| && |r.kept| == |EdgeSet(r.kept)|
    ensures forall e :: e in r.kept <==> e in edges && !FoldedEdge(r.folded, r.hidden, e)
  {
    hide FoldMap, Candidate, OnlyFolds, Le, EdgeLe, Touches, FoldedEdge, CrossEdges;
    StrictDistinct(r.orphans, Le);
    StrictDistinct(r.kept, EdgeLe);
    DistinctSize(r.orphans);
    DistinctSize(r.kept);
  }

  /** The counts add up: units are visible, folded or orphans, and relations are kept or drawn in a label. */
  lemma CountsAddUp(nodes: map<string, Node>, edges: seq<Edge>, r: Reduced)
    requires Closed(nodes, edges) && Reduces(nodes, edges, r)
    ensures r.counts.units == |r.visible| + r.counts.folded + r.counts.orphans
    ensures r.counts.relations == |r.kept| + |FoldedEdges(edges, r)|
  {
    hide *;
    NodesKept(nodes, edges, r);
    CountFacts(nodes, edges, r);
    RelationsSplit(edges, r);
    SizeOfUnion(r.visible, r.hidden);
    SizeOfUnion(r.visible + r.hidden, Set(r.orphans));
    SizeOfUnion(EdgeSet(r.kept), FoldedEdges(edges, r));
  }

  lemma RelationsSplit(edges: seq<Edge>, r: Reduced)
    requires forall e :: e in r.kept <==> e in edges && !FoldedEdge(r.folded, r.hidden, e)
    ensures EdgeSet(edges) == EdgeSet(r.kept) + FoldedEdges(edges, r) && EdgeSet(r.kept) !! FoldedEdges(edges, r)
  {
    hide FoldedEdge;
  }

  lemma SizeOfUnion<T>(a: set<T>, b: set<T>)
    requires a !! b
    ensures |a + b| == |a| + |b|
  {
  }

  /** A hidden build is named in the label of a visible node, unless nothing but itself uses it. */
  lemma HiddenIsLabelled(nodes: map<string, Node>, edges: seq<Edge>, r: Reduced, b: string)
    requires Closed(nodes, edges) && NamedBuilds(nodes) && Reduces(nodes, edges, r) && b in r.hidden
    ensures (exists c :: c in r.visible && c in r.folded && r.folded[c] == b)
            <==> exists e :: e in edges && e.to == b && e.from != b
  {
    if e :| e in edges && e.to == b && e.from != b {
      assert Touches(e, b) && Touches(e, e.from);
      assert !OnlyFolds(nodes, edges, e.from);
      assert e.from in r.visible && e.from in r.folded && r.folded[e.from] == b;
    }
    if c :| c in r.visible && c in r.folded && r.folded[c] == b {
      assert Edge(c, b, "image") in edges;
    }
  }

  lemma FoldMapUnique(nodes: map<string, Node>, edges: seq<Edge>, edges': seq<Edge>,
                      folded: map<string, string>, folded': map<string, string>)
    requires Closed(nodes, edges) && Closed(nodes, edges') && forall e :: e in edges <==> e in edges'
    requires FoldMap(nodes, edges, folded) && FoldMap(nodes, edges', folded')
    ensures folded == folded'
  {
    hide Folds;
    assert forall c :: c in folded ==> c in folded' && folded'[c] == folded[c];
    assert forall c :: c in folded' ==> c in folded;
  }

  lemma HiddenUnique(nodes: map<string, Node>, edges: seq<Edge>, edges': seq<Edge>, b: string)
    requires Closed(nodes, edges) && Closed(nodes, edges') && forall e :: e in edges <==> e in edges'
    ensures Candidate(nodes, edges, b) <==> Candidate(nodes, edges', b)
    ensures OnlyFolds(nodes, edges, b) <==> OnlyFolds(nodes, edges', b)
  {
  }

  /** The reduction depends on the edges as a set: not on their order, nor on how often one is declared. */
  lemma OrderIrrelevant(nodes: map<string, Node>, edges: seq<Edge>, edges': seq<Edge>, r: Reduced, r': Reduced)
    requires Closed(nodes, edges) && Closed(nodes, edges') && forall e :: e in edges <==> e in edges'
    requires Reduces(nodes, edges, r) && Reduces(nodes, edges', r')
    ensures r == r'
  {
    hide Le, EdgeLe, Folds, Touches, Candidate, OnlyFolds, FoldMap, FoldedEdge, StrictlySorted;
    FoldMapUnique(nodes, edges, edges', r.folded, r'.folded);
    forall b ensures b in r.hidden <==> b in r'.hidden {
      HiddenUnique(nodes, edges, edges', b);
    }
    assert r.hidden == r'.hidden;
    NamesUnique(r.orphans, r'.orphans);
    assert r.visible == r'.visible;
    SortedUnique(r.kept, r'.kept);
    SameEdges(edges, edges');
  }
}
