/** The order of boxes and of units on a shelf page: stacks by how many edges they share, resource columns by the
    rows of what uses them. */
module Seating {
  import opened Wrappers
  import opened StringOrder
  import opened DepGraph
  import opened GraphReduce

  // ---------- stacks by connectivity

  /** How many edges run between the stacks a and b, either way. */
  function Links(edges: seq<(string, string)>, a: string, b: string): nat {
    if edges == [] || a == b then 0
    else
      var n, e := |edges| - 1, edges[|edges| - 1];
      Links(edges[..n], a, b) + if e == (a, b) || e == (b, a) then 1 else 0
  }

  /** How many edges leave the stack a, either way. */
  function Ties(edges: seq<(string, string)>, a: string): nat {
    if edges == [] then 0
    else
      var n, (x, y) := |edges| - 1, edges[|edges| - 1];
      Ties(edges[..n], a) + if x != y && (x == a || y == a) then 1 else 0
  }

  function LinksToAll(edges: seq<(string, string)>, placed: seq<string>, s: string): nat {
    if placed == [] then 0
    else LinksToAll(edges, placed[..|placed| - 1], s) + Links(edges, placed[|placed| - 1], s)
  }

  /** The score of a stack after those placed: its links to the last of them first, then to all of them. */
  function Score(edges: seq<(string, string)>, placed: seq<string>, s: string): nat {
    if placed == [] then Ties(edges, s)
    else Links(edges, placed[|placed| - 1], s) * 1000 + LinksToAll(edges, placed, s)
  }

  /** The stack at position k may go before t: it has a larger score, or the same and a smaller name. */
  ghost predicate Ahead(edges: seq<(string, string)>, out: seq<string>, k: nat, t: string)
    requires k < |out|
  {
    var mine, other := Score(edges, out[..k], out[k]), Score(edges, out[..k], t);
    mine > other || (mine == other && Le(out[k], t))
  }

  /** Every stack placed is ahead of all that were left when it was placed. */
  ghost predicate Greedy(edges: seq<(string, string)>, out: seq<string>, rest: seq<string>) {
    forall k, t {:trigger Ahead(edges, out, k, t)} :: 0 <= k < |out| && (t in out[k..] || t in rest) ==>
        Ahead(edges, out, k, t)
  }

  function Weight(weights: map<(string, string), nat>, a: string, b: string): nat {
    if (a, b) in weights then weights[(a, b)] else 0
  }

  /** The weights and totals that orderStacksByConnectivity collects. */
  method Weigh(edges: seq<(string, string)>) returns (weights: map<(string, string), nat>, total: map<string, nat>)
    ensures forall a, b :: Weight(weights, a, b) == Links(edges, a, b)
    ensures forall a :: Degree(total, a) == Ties(edges, a)
  {
    weights, total := map[], map[];
    for i := 0 to |edges|
      invariant forall a, b :: Weight(weights, a, b) == Links(edges[..i], a, b)
      invariant forall a :: Degree(total, a) == Ties(edges[..i], a)
    {
      var (a, b) := edges[i];
      ghost var weights0, total0 := weights, total;
      assert edges[..i + 1][..i] == edges[..i];
      if a != b {
        weights := weights[(a, b) := Weight(weights, a, b) + 1];
        weights := weights[(b, a) := Weight(weights, b, a) + 1];
        total := total[a := Degree(total, a) + 1];
        total := total[b := Degree(total, b) + 1];
      }
      forall x, y ensures Weight(weights, x, y) == Links(edges[..i + 1], x, y) {
        assert Weight(weights0, x, y) == Links(edges[..i], x, y);
      }
      forall x ensures Degree(total, x) == Ties(edges[..i + 1], x) {
        assert Degree(total0, x) == Ties(edges[..i], x);
      }
    }
    assert edges[..|edges|] == edges;
  }

  /** sumWeights */
  method SumWeights(weights: map<(string, string), nat>, placed: seq<string>, s: string,
                    ghost edges: seq<(string, string)>) returns (n: nat)
    requires forall a, b :: Weight(weights, a, b) == Links(edges, a, b)
    ensures n == LinksToAll(edges, placed, s)
  {
    n := 0;
    for i := 0 to |placed|
      invariant n == LinksToAll(edges, placed[..i], s)
    {
      assert placed[..i + 1][..i] == placed[..i];
      n := n + Weight(weights, placed[i], s);
    }
    assert placed[..|placed|] == placed;
  }

  /** The first of the remaining stacks with the largest score. */
  method Best(weights: map<(string, string), nat>, total: map<string, nat>, placed: seq<string>, remaining: seq<string>,
              ghost edges: seq<(string, string)>) returns (best: nat)
    requires forall a, b :: Weight(weights, a, b) == Links(edges, a, b)
    requires forall a :: Degree(total, a) == Ties(edges, a)
    requires remaining != []
    ensures best < |remaining|
    ensures forall j :: 0 <= j < |remaining| ==>
        Score(edges, placed, remaining[j]) <= Score(edges, placed, remaining[best])
    ensures forall j :: 0 <= j < best ==> Score(edges, placed, remaining[j]) < Score(edges, placed, remaining[best])
  {
    hide Links, Ties, LinksToAll;
    best := 0;
    var bestScore := -1;
    for i := 0 to |remaining|
      invariant best < |remaining| && (i == 0 ==> best == 0 && bestScore == -1)
      invariant i > 0 ==> best < i && bestScore == Score(edges, placed, remaining[best])
      invariant forall j :: 0 <= j < i ==> Score(edges, placed, remaining[j]) <= bestScore
      invariant forall j :: 0 <= j < best ==> Score(edges, placed, remaining[j]) < bestScore
    {
      var s := remaining[i];
      var score: int;
      if placed == [] {
        score := Degree(total, s);
      } else {
        score := SumWeights(weights, placed, s, edges);
        score := Weight(weights, placed[|placed| - 1], s) * 1000 + score;
      }
      if score > bestScore {
        best, bestScore := i, score;
      }
    }
  }

  lemma Place(edges: seq<(string, string)>, out: seq<string>, rest: seq<string>, best: nat)
    requires Greedy(edges, out, rest) && StrictlySorted(rest, Le) && best < |rest|
    requires forall j :: 0 <= j < |rest| ==> Score(edges, out, rest[j]) <= Score(edges, out, rest[best])
    requires forall j :: 0 <= j < best ==> Score(edges, out, rest[j]) < Score(edges, out, rest[best])
    ensures Greedy(edges, out + [rest[best]], rest[..best] + rest[best + 1..])
    ensures StrictlySorted(rest[..best] + rest[best + 1..], Le)
  {
    hide Score;
    var out', rest' := out + [rest[best]], rest[..best] + rest[best + 1..];
    LeTotal(rest[best], rest[best]);
    hide Le;
    forall k, t | 0 <= k < |out'| && (t in out'[k..] || t in rest') ensures Ahead(edges, out', k, t) {
      assert out'[..k] == out[..k];
      if k < |out| {
        assert out'[k..] == out[k..] + [rest[best]];
        assert t in out[k..] || t in rest;
        assert Ahead(edges, out, k, t);
      } else {
        assert out'[k..] == [rest[best]] && out'[..k] == out;
        var j :| 0 <= j < |rest| && rest[j] == t;
      }
    }
  }

  /** orderStacksByConnectivity: each stack is seated once, and each is ahead of those left at its turn. */
  method OrderStacks(stacks: set<string>, edges: seq<(string, string)>) returns (out: seq<string>)
    ensures multiset(out) == multiset(stacks) && Greedy(edges, out, [])
  {
    hide *;
    var weights, total := Weigh(edges);
    var remaining := SortedNames(stacks);
    SetOfSeq(remaining, stacks);
    out := [];
    NoneSeated(edges, remaining);
    while |remaining| > 0
      invariant multiset(out) + multiset(remaining) == multiset(stacks)
      invariant StrictlySorted(remaining, Le) && Greedy(edges, out, remaining)
      decreases |remaining|
    {
      var best := Best(weights, total, out, remaining, edges);
      Place(edges, out, remaining, best);
      TakeOut(out, remaining, best);
      out, remaining := out + [remaining[best]], remaining[..best] + remaining[best + 1..];
    }
    assert remaining == [];
  }

  lemma TakeOut(out: seq<string>, rest: seq<string>, i: nat)
    requires i < |rest|
    ensures multiset(out + [rest[i]]) + multiset(rest[..i] + rest[i + 1..]) == multiset(out) + multiset(rest)
  {
    assert rest == rest[..i] + [rest[i]] + rest[i + 1..];
  }

  lemma NoneSeated(edges: seq<(string, string)>, rest: seq<string>)
    ensures Greedy(edges, [], rest)
  {
  }

  lemma {:induction false} SetOfSeq(ids: seq<string>, names: set<string>)
    requires StrictlySorted(ids, Le) && forall id :: id in ids <==> id in names
    ensures multiset(ids) == multiset(names)
  {
    DistinctCount(ids);
    forall id ensures multiset(ids)[id] == multiset(names)[id] {
      assert id in multiset(ids) <==> id in ids;
    }
  }

  // ---------- columns

  const ATTACHERS := {"container", "pod", "kube"}

  /** The other ends of the edges at id, in the order of the edges. */
  function Neighbors(edges: seq<Edge>, id: string): seq<string> {
    if edges == [] then []
    else
      var e := edges[|edges| - 1];
      Neighbors(edges[..|edges| - 1], id) + (if e.from == id then [e.to] else [])
          + (if e.to == id then [e.from] else [])
  }

  function ListOf(lists: map<string, seq<string>>, id: string): seq<string> {
    if id in lists then lists[id] else []
  }

  method CollectNeighbors(edges: seq<Edge>) returns (lists: map<string, seq<string>>)
    ensures forall id :: ListOf(lists, id) == Neighbors(edges, id)
  {
    lists := map[];
    for i := 0 to |edges|
      invariant forall id :: ListOf(lists, id) == Neighbors(edges[..i], id)
    {
      var e := edges[i];
      ghost var lists0 := lists;
      assert edges[..i + 1][..i] == edges[..i];
      lists := lists[e.from := ListOf(lists, e.from) + [e.to]];
      lists := lists[e.to := ListOf(lists, e.to) + [e.from]];
      forall id ensures ListOf(lists, id) == Neighbors(edges[..i + 1], id) {
        assert ListOf(lists0, id) == Neighbors(edges[..i], id);
      }
    }
    assert edges[..|edges|] == edges;
  }

  function RowSum(rows: map<string, nat>, ids: seq<string>): nat {
    if ids == [] then 0
    else RowSum(rows, ids[..|ids| - 1]) + if ids[|ids| - 1] in rows then rows[ids[|ids| - 1]] else 0
  }

  function RowCount(rows: map<string, nat>, ids: seq<string>): nat {
    if ids == [] then 0 else RowCount(rows, ids[..|ids| - 1]) + if ids[|ids| - 1] in rows then 1 else 0
  }

  /** The average row of those that have one; None, for nobody, sinks to the bottom. */
  function Barycenter(rows: map<string, nat>, ids: seq<string>): Option<real> {
    if RowCount(rows, ids) == 0 then None else Some(RowSum(rows, ids) as real / RowCount(rows, ids) as real)
  }

  method Average(rows: map<string, nat>, ids: seq<string>) returns (b: Option<real>)
    ensures b == Barycenter(rows, ids)
  {
    var sum, n := 0, 0;
    for i := 0 to |ids|
      invariant sum == RowSum(rows, ids[..i]) && n == RowCount(rows, ids[..i])
    {
      assert ids[..i + 1][..i] == ids[..i];
      if ids[i] in rows {
        sum, n := sum + rows[ids[i]], n + 1;
      }
    }
    assert ids[..|ids|] == ids;
    b := if n == 0 then None else Some(sum as real / n as real);
  }

  function RankOf(ranks: map<string, Option<real>>, id: string): Option<real> {
    if id in ranks then ranks[id] else None
  }

  /** By rank, those without one last, and by name within a rank. */
  predicate RankLe(ranks: map<string, Option<real>>, a: string, b: string) {
    var x, y := RankOf(ranks, a), RankOf(ranks, b);
    if x == y then Le(a, b) else y.None? || (x.Some? && x.value < y.value)
  }

  lemma RankOrders(ranks: map<string, Option<real>>)
    ensures Total((a, b) => RankLe(ranks, a, b)) && Transitive((a, b) => RankLe(ranks, a, b))
  {
    LeOrders();
    hide Le;
    assert forall a, b :: RankLe(ranks, a, b) || RankLe(ranks, b, a);
    assert forall a, b, c :: RankLe(ranks, a, b) && RankLe(ranks, b, c) ==> RankLe(ranks, a, c);
  }

  /** The rows that the units of the column get. */
  function AddRows(rows: map<string, nat>, col: seq<string>): map<string, nat> {
    if col == [] then rows else AddRows(rows, col[..|col| - 1])[col[|col| - 1] := |col| - 1]
  }

  /** The units of the column have their places in it as rows, and all others the rows they had. */
  ghost predicate Given(rows: map<string, nat>, col: seq<string>, rows': map<string, nat>) {
    && rows'.Keys == rows.Keys + Elems(col)
    && (forall i :: 0 <= i < |col| ==> col[i] in rows' && rows'[col[i]] == i)
    && forall id :: id in rows && id !in col ==> id in rows' && rows'[id] == rows[id]
  }

  lemma GiveNext(rows: map<string, nat>, col: seq<string>, rows': map<string, nat>, id: string)
    requires Given(rows, col, rows') && id !in col
    ensures Given(rows, col + [id], rows'[id := |col|])
  {
    assert Elems(col + [id]) == Elems(col) + {id};
    assert forall i :: 0 <= i < |col| ==> col[i] in col;
  }

  lemma {:induction false} AddRowsGive(rows: map<string, nat>, col: seq<string>)
    requires Distinct(col)
    ensures Given(rows, col, AddRows(rows, col)) && Given(rows, [], rows)
  {
    if col != [] {
      var n := |col| - 1;
      AddRowsGive(rows, col[..n]);
      NextOfDistinct(col, n);
      assert col == col[..n] + [col[n]] == col[..n + 1];
      hide Given;
      GiveNext(rows, col[..n], AddRows(rows, col[..n]), col[n]);
    }
  }

  /** A column in its order: attachers by name, resources by the average row of their neighbours. */
  ghost predicate InOrder(edges: seq<Edge>, rows: map<string, nat>, kind: string, col: seq<string>) {
    if kind == "container" || kind == "pod" || kind == "kube" then Sorted(col, Le)
    else forall i, j :: 0 <= i < j < |col| ==> Before(edges, rows, col[i], col[j])
  }

  ghost predicate Before(edges: seq<Edge>, rows: map<string, nat>, a: string, b: string) {
    var x, y := Barycenter(rows, Neighbors(edges, a)), Barycenter(rows, Neighbors(edges, b));
    if x == y then Le(a, b) else y.None? || (x.Some? && x.value < y.value)
  }

  method Ranks(ids: seq<string>, rows: map<string, nat>, lists: map<string, seq<string>>)
    returns (ranks: map<string, Option<real>>)
    ensures forall id :: id in ids ==> RankOf(ranks, id) == Barycenter(rows, ListOf(lists, id))
  {
    hide Barycenter;
    ranks := map[];
    for i := 0 to |ids|
      invariant forall id :: id in ids[..i] ==> RankOf(ranks, id) == Barycenter(rows, ListOf(lists, id))
    {
      assert ids[..i + 1] == ids[..i] + [ids[i]];
      var b := Average(rows, ListOf(lists, ids[i]));
      ranks := ranks[ids[i] := b];
    }
    assert ids[..|ids|] == ids;
  }

  /** The column of the given units, in order, and the rows known after it. */
  method Column(ids: set<string>, kind: string, lists: map<string, seq<string>>, rows: map<string, nat>,
                ghost edges: seq<Edge>) returns (col: seq<string>, rows': map<string, nat>)
    requires forall id :: ListOf(lists, id) == Neighbors(edges, id)
    ensures multiset(col) == multiset(ids) && InOrder(edges, rows, kind, col)
    ensures rows' == if kind in ATTACHERS then AddRows(rows, col) else rows
    ensures Given(rows, if kind in {"container", "pod", "kube"} then col else [], rows')
  {
    col := SortedNames(ids);
    rows' := rows;
    SetOfSeq(col, ids);
    hide Given, Neighbors, Le, InOrder, AddRows;
    StrictDistinct(col, Le);
    AddRowsGive(rows, col);
    ColumnIn(edges, rows, kind, col);
    if kind in ATTACHERS {
      rows' := GiveRows(rows, col);
    } else {
      col := ByRank(col, rows, lists, edges);
      RankedIn(edges, rows, kind, col);
    }
  }

  lemma RankedIn(edges: seq<Edge>, rows: map<string, nat>, kind: string, col: seq<string>)
    requires kind !in ATTACHERS && forall i, j :: 0 <= i < j < |col| ==> Before(edges, rows, col[i], col[j])
    ensures InOrder(edges, rows, kind, col)
  {
    hide Before;
  }

  lemma ColumnIn(edges: seq<Edge>, rows: map<string, nat>, kind: string, col: seq<string>)
    ensures kind in ATTACHERS <==> kind in {"container", "pod", "kube"}
    ensures kind in ATTACHERS && StrictlySorted(col, Le) ==> InOrder(edges, rows, kind, col)
  {
    hide Le;
  }

  method GiveRows(rows: map<string, nat>, col: seq<string>) returns (rows': map<string, nat>)
    ensures rows' == AddRows(rows, col)
  {
    rows' := rows;
    for i := 0 to |col|
      invariant rows' == AddRows(rows, col[..i])
    {
      assert col[..i + 1][..i] == col[..i];
      rows' := rows'[col[i] := i];
    }
    assert col[..|col|] == col;
  }

  method ByRank(ids: seq<string>, rows: map<string, nat>, lists: map<string, seq<string>>, ghost edges: seq<Edge>)
    returns (col: seq<string>)
    requires forall id :: ListOf(lists, id) == Neighbors(edges, id)
    ensures multiset(col) == multiset(ids)
    ensures forall i, j :: 0 <= i < j < |col| ==> Before(edges, rows, col[i], col[j])
  {
    var ranks := Ranks(ids, rows, lists);
    RankOrders(ranks);
    col := Sort(ids, (a, b) => RankLe(ranks, a, b));
    SameElems(col, ids);
    hide Barycenter, Le, Neighbors;
    forall i, j | 0 <= i < j < |col| ensures Before(edges, rows, col[i], col[j]) {
      assert col[i] in ids && col[j] in ids && RankLe(ranks, col[i], col[j]);
    }
  }
}
