/** What the shelf pages draw: stacks with the units of selected edges, and on the page of full detail every unit. */
module ShelfPages {
  import opened StringOrder
  import opened DepGraph
  import opened GraphReduce
  import opened Drawio
  import opened Seating
  import opened Pages

  function KindOf(n: Node): string {
    if n.external then "external" else n.kind
  }

  function KindsOf(nodes: map<string, Node>, ids: set<string>): set<string>
    requires ids <= nodes.Keys
  {
    set id | id in ids :: KindOf(nodes[id])
  }

  lemma KindsOfBoth(nodes: map<string, Node>, a: set<string>, b: set<string>)
    requires a <= nodes.Keys && b <= nodes.Keys
    ensures KindsOf(nodes, a + b) == KindsOf(nodes, a) + KindsOf(nodes, b)
  {
    hide KindOf;
  }

  /** An edge that the page draws: of a relation it keeps, between visible nodes of kinds it shows. */
  predicate Selected(nodes: map<string, Node>, visible: set<string>, kinds: seq<string>, rels: set<string>, e: Edge) {
    && e.rel in rels && e.from in visible && e.to in visible && e.from in nodes && e.to in nodes
    && KindOf(nodes[e.from]) in kinds && KindOf(nodes[e.to]) in kinds
  }

  const RESOURCE_RELS := {"image", "pod", "network", "volume"}

  function StyleKey(nodes: map<string, Node>, e: Edge): string
    requires e.from in nodes && e.to in nodes
  {
    if StackOf(nodes[e.from]) != StackOf(nodes[e.to]) then "cross" else if e.rel in RESOURCE_RELS then e.rel else "deps"
  }

  /** The kind of a node, and external for one that is no unit of the project. */
  predicate ShownAs(n: Node, kind: string) {
    (n.external && kind == "external") || (!n.external && kind == n.kind)
  }

  /** The style of an edge: one between quadlets crosses, else its relation decides. */
  ghost predicate StyledBy(nodes: map<string, Node>, e: Edge, style: string) {
    if BetweenQuadlets(nodes, e) then style == "cross"
    else if e.rel == "image" || e.rel == "pod" || e.rel == "network" || e.rel == "volume" then style == e.rel
    else style == "deps"
  }

  lemma StyleIs(nodes: map<string, Node>, e: Edge)
    requires e.from in nodes && e.to in nodes
    ensures StyledBy(nodes, e, StyleKey(nodes, e))
  {
    CrossesIff(nodes, e);
    hide BetweenQuadlets, StackOf;
  }

  /** The node is visible and of one of the kinds. */
  ghost predicate ShownIn(nodes: map<string, Node>, visible: set<string>, kinds: seq<string>, id: string) {
    id in visible && id in nodes && exists k :: k in kinds && ShownAs(nodes[id], k)
  }

  /** A page of these kinds and relations shows the edge. */
  ghost predicate Shows(nodes: map<string, Node>, visible: set<string>, kinds: seq<string>, rels: set<string>,
                        e: Edge) {
    e.rel in rels && ShownIn(nodes, visible, kinds, e.from) && ShownIn(nodes, visible, kinds, e.to)
  }

  lemma SelectedIff(nodes: map<string, Node>, visible: set<string>, kinds: seq<string>, rels: set<string>, e: Edge)
    ensures Selected(nodes, visible, kinds, rels, e) <==> Shows(nodes, visible, kinds, rels, e)
  {
    if e.from in nodes {
      assert ShownAs(nodes[e.from], KindOf(nodes[e.from]));
    }
    if e.to in nodes {
      assert ShownAs(nodes[e.to], KindOf(nodes[e.to]));
    }
  }

  ghost predicate UsedBy(nodes: map<string, Node>, visible: set<string>, kinds: seq<string>, rels: set<string>,
                         edges: seq<Edge>, id: string) {
    exists e :: e in edges && Shows(nodes, visible, kinds, rels, e) && (id == e.from || id == e.to)
  }

  /** The first loop of shelfLayout. */
  method Select(nodes: map<string, Node>, visible: set<string>, kinds: seq<string>, rels: set<string>, kept: seq<Edge>)
    returns (selected: seq<Edge>, used: set<string>)
    ensures forall e :: e in selected <==> e in kept && Shows(nodes, visible, kinds, rels, e)
    ensures forall id :: id in used <==> UsedBy(nodes, visible, kinds, rels, kept, id)
  {
    selected, used := [], {};
    for i := 0 to |kept|
      invariant forall e :: e in selected <==> e in kept[..i] && Shows(nodes, visible, kinds, rels, e)
      invariant forall id :: id in used <==> UsedBy(nodes, visible, kinds, rels, kept[..i], id)
    {
      assert kept[..i + 1] == kept[..i] + [kept[i]];
      MoreUsed(nodes, visible, kinds, rels, kept[..i], kept[i]);
      SelectedIff(nodes, visible, kinds, rels, kept[i]);
      if Selected(nodes, visible, kinds, rels, kept[i]) {
        selected, used := selected + [kept[i]], used + {kept[i].from, kept[i].to};
      }
    }
    assert kept[..|kept|] == kept;
  }

  lemma MoreUsed(nodes: map<string, Node>, visible: set<string>, kinds: seq<string>, rels: set<string>,
                 edges: seq<Edge>, e: Edge)
    ensures forall id :: UsedBy(nodes, visible, kinds, rels, edges + [e], id) <==>
                         UsedBy(nodes, visible, kinds, rels, edges, id)
                         || (Shows(nodes, visible, kinds, rels, e) && (id == e.from || id == e.to))
  {
    hide Shows;
    forall id | UsedBy(nodes, visible, kinds, rels, edges, id)
      ensures UsedBy(nodes, visible, kinds, rels, edges + [e], id)
    {
      var f :| f in edges && Shows(nodes, visible, kinds, rels, f) && (id == f.from || id == f.to);
      assert f in edges + [e];
    }
    assert e in edges + [e];
  }

  /** The members of used in the given stack and of the kind. */
  function Cohort(nodes: map<string, Node>, used: set<string>, stack: string, kind: string): set<string>
    requires used <= nodes.Keys
  {
    set id | id in used && StackOf(nodes[id]) == stack && KindOf(nodes[id]) == kind
  }

  function InStack(nodes: map<string, Node>, used: set<string>, stack: string): set<string>
    requires used <= nodes.Keys
  {
    set id | id in used && StackOf(nodes[id]) == stack
  }

  lemma FlatPlus(cols: seq<seq<string>>, col: seq<string>)
    ensures Flat(cols + [col]) == Flat(cols) + col
  {
    assert (cols + [col])[..|cols|] == cols;
  }

  lemma MultisetOfUnion(a: set<string>, b: set<string>)
    requires a !! b
    ensures multiset(a + b) == multiset(a) + multiset(b)
  {
  }

  /** The members of used in the given stack and of one of the kinds. */
  function Through(nodes: map<string, Node>, used: set<string>, stack: string, kinds: seq<string>): set<string>
    requires used <= nodes.Keys
  {
    set id | id in used && StackOf(nodes[id]) == stack && KindOf(nodes[id]) in kinds
  }

  lemma NextKind(nodes: map<string, Node>, used: set<string>, stack: string, kinds: seq<string>, kind: string)
    requires used <= nodes.Keys && kind !in kinds
    ensures multiset(Through(nodes, used, stack, kinds + [kind])) ==
            multiset(Through(nodes, used, stack, kinds)) + multiset(Cohort(nodes, used, stack, kind))
  {
    hide StackOf, KindOf;
    assert Through(nodes, used, stack, kinds + [kind]) ==
           Through(nodes, used, stack, kinds) + Cohort(nodes, used, stack, kind);
    MultisetOfUnion(Through(nodes, used, stack, kinds), Cohort(nodes, used, stack, kind));
  }

  function KindsIn(nodes: map<string, Node>, used: set<string>, stack: string): set<string>
    requires used <= nodes.Keys
  {
    set id | id in used && StackOf(nodes[id]) == stack :: KindOf(nodes[id])
  }

  lemma CohortEmpty(nodes: map<string, Node>, used: set<string>, stack: string, kind: string)
    requires used <= nodes.Keys
    ensures Cohort(nodes, used, stack, kind) == {} <==> kind !in KindsIn(nodes, used, stack)
  {
    hide StackOf, KindOf;
    assert forall id :: id in Cohort(nodes, used, stack, kind) ==> kind in KindsIn(nodes, used, stack);
    if kind in KindsIn(nodes, used, stack) {
      var id :| id in used && StackOf(nodes[id]) == stack && KindOf(nodes[id]) == kind;
      assert id in Cohort(nodes, used, stack, kind);
    }
  }

  lemma UsedNext(kinds: seq<string>, i: nat, used: set<string>)
    requires i < |kinds|
    ensures Used(kinds[..i + 1], used) ==
        if kinds[i] in used then Used(kinds[..i], used) + [kinds[i]] else Used(kinds[..i], used)
  {
    assert kinds[..i + 1][..i] == kinds[..i];
  }

  /** Column i holds units of kind ks[i] alone. */
  ghost predicate OfKinds(nodes: map<string, Node>, cols: seq<seq<string>>, ks: seq<string>) {
    |cols| == |ks| && forall i, id :: 0 <= i < |cols| && id in cols[i] ==> id in nodes && KindOf(nodes[id]) == ks[i]
  }

  lemma NextOfKind(nodes: map<string, Node>, used: set<string>, stack: string, kind: string,
                   cols: seq<seq<string>>, ks: seq<string>, col: seq<string>)
    requires used <= nodes.Keys && OfKinds(nodes, cols, ks)
    requires multiset(col) == multiset(Cohort(nodes, used, stack, kind))
    ensures OfKinds(nodes, cols + [col], ks + [kind])
  {
    hide StackOf, KindOf;
    OnceEach(col, Cohort(nodes, used, stack, kind));
  }

  /** The rows of the attachers in the first n columns. */
  ghost function RowsBefore(cols: seq<seq<string>>, ks: seq<string>, n: nat): map<string, nat>
    requires n <= |cols| == |ks|
  {
    if n == 0 then map[]
    else
      var rows := RowsBefore(cols, ks, n - 1);
      if ks[n - 1] in ATTACHERS then AddRows(rows, cols[n - 1]) else rows
  }

  /** Each column is in the order of its kind, with the rows of the attachers before it. */
  ghost predicate Arranged(edges: seq<Edge>, cols: seq<seq<string>>, ks: seq<string>) {
    |cols| == |ks| && forall i :: 0 <= i < |cols| ==> InOrder(edges, RowsBefore(cols, ks, i), ks[i], cols[i])
  }

  lemma {:induction false} RowsBeforePrefix(cols: seq<seq<string>>, ks: seq<string>, col: seq<string>, kind: string,
                                            n: nat)
    requires n <= |cols| == |ks|
    ensures RowsBefore(cols + [col], ks + [kind], n) == RowsBefore(cols, ks, n)
  {
    if n > 0 {
      RowsBeforePrefix(cols, ks, col, kind, n - 1);
    }
  }

  lemma NextArranged(edges: seq<Edge>, cols: seq<seq<string>>, ks: seq<string>, col: seq<string>, kind: string)
    requires Arranged(edges, cols, ks) && InOrder(edges, RowsBefore(cols, ks, |cols|), kind, col)
    ensures Arranged(edges, cols + [col], ks + [kind])
    ensures RowsBefore(cols + [col], ks + [kind], |cols| + 1) ==
            if kind in ATTACHERS then AddRows(RowsBefore(cols, ks, |cols|), col) else RowsBefore(cols, ks, |cols|)
  {
    hide InOrder, AddRows, ATTACHERS;
    forall i | 0 <= i <= |cols|
      ensures RowsBefore(cols + [col], ks + [kind], i) == RowsBefore(cols, ks, i)
    {
      RowsBeforePrefix(cols, ks, col, kind, i);
    }
    hide RowsBefore;
  }

  /** The columns of a stack: one for each kind that it has, in the order of the kinds. */
  method Columns(nodes: map<string, Node>, used: set<string>, kinds: seq<string>, stack: string,
                 lists: map<string, seq<string>>, ghost edges: seq<Edge>) returns (cols: seq<seq<string>>)
    requires used <= nodes.Keys && Distinct(kinds) && forall id :: id in used ==> KindOf(nodes[id]) in kinds
    requires forall id :: ListOf(lists, id) == Neighbors(edges, id)
    ensures multiset(Flat(cols)) == multiset(InStack(nodes, used, stack))
    ensures OfKinds(nodes, cols, Used(kinds, KindsIn(nodes, used, stack)))
    ensures Arranged(edges, cols, Used(kinds, KindsIn(nodes, used, stack)))
  {
    hide *;
    cols := [];
    var rows: map<string, nat> := map[];
    ghost var present := KindsIn(nodes, used, stack);
    ghost var ks: seq<string> := [];
    NoColumns(nodes, used, kinds, stack, edges);
    for i := 0 to |kinds|
      invariant multiset(Flat(cols)) == multiset(Through(nodes, used, stack, kinds[..i]))
      invariant ks == Used(kinds[..i], present) && |ks| == |cols|
      invariant OfKinds(nodes, cols, ks) && Arranged(edges, cols, ks) && rows == RowsBefore(cols, ks, |cols|)
    {
      NextOfDistinct(kinds, i);
      NextKind(nodes, used, stack, kinds[..i], kinds[i]);
      UsedNext(kinds, i, present);
      CohortEmpty(nodes, used, stack, kinds[i]);
      var cohort := Cohort(nodes, used, stack, kinds[i]);
      if cohort == {} {
        continue;
      }
      var col;
      ghost var rows0 := rows;
      col, rows := Column(cohort, kinds[i], lists, rows, edges);
      NextOfKind(nodes, used, stack, kinds[i], cols, ks, col);
      NextArranged(edges, cols, ks, col, kinds[i]);
      FlatPlus(cols, col);
      cols := cols + [col];
      ks := ks + [kinds[i]];
    }
    assert kinds[..|kinds|] == kinds;
  }

  lemma NoColumns(nodes: map<string, Node>, used: set<string>, kinds: seq<string>, stack: string, edges: seq<Edge>)
    requires used <= nodes.Keys && forall id :: id in used ==> KindOf(nodes[id]) in kinds
    ensures Flat([]) == [] && Through(nodes, used, stack, kinds[..0]) == {}
        && Used(kinds[..0], KindsIn(nodes, used, stack)) == []
    ensures OfKinds(nodes, [], []) && Arranged(edges, [], []) && RowsBefore([], [], 0) == map[]
    ensures Through(nodes, used, stack, kinds) == InStack(nodes, used, stack)
  {
  }

  // ---------- the pages

  function InStacks(nodes: map<string, Node>, used: set<string>, stacks: seq<string>): set<string>
    requires used <= nodes.Keys
  {
    set id | id in used && StackOf(nodes[id]) in stacks
  }

  lemma NextStack(nodes: map<string, Node>, used: set<string>, stacks: seq<string>, stack: string)
    requires used <= nodes.Keys && stack !in stacks
    ensures multiset(InStacks(nodes, used, stacks + [stack])) ==
            multiset(InStacks(nodes, used, stacks)) + multiset(InStack(nodes, used, stack))
  {
    hide StackOf;
    assert InStacks(nodes, used, stacks + [stack]) == InStacks(nodes, used, stacks) + InStack(nodes, used, stack);
    MultisetOfUnion(InStacks(nodes, used, stacks), InStack(nodes, used, stack));
  }

  lemma AllStacks(nodes: map<string, Node>, used: set<string>, stacks: seq<string>)
    requires used <= nodes.Keys && forall id :: id in used ==> StackOf(nodes[id]) in stacks
    ensures InStacks(nodes, used, []) == {} && InStacks(nodes, used, stacks) == used
  {
  }

  lemma OnceEach(ids: seq<string>, names: set<string>)
    requires multiset(ids) == multiset(names)
    ensures Distinct(ids) && forall id :: id in ids <==> id in names
  {
    forall id ensures id in ids <==> id in names {
      assert id in multiset(ids) <==> id in ids;
    }
    DistinctCount(ids);
  }

  lemma Belong(nodes: map<string, Node>, used: set<string>, stack: string, ids: seq<string>)
    requires used <= nodes.Keys && multiset(ids) == multiset(InStack(nodes, used, stack))
    ensures forall id :: id in ids ==> id in used && StackOf(nodes[id]) == stack
  {
    OnceEach(ids, InStack(nodes, used, stack));
  }

  lemma {:induction false} ColumnNames(cells: seq<Cell>, box: nat, ci: nat, col: seq<string>, n: nat)
    requires n <= |col|
    ensures NamesOf(cells + ColumnCells(box, ci, col, n), UnitNode) == NamesOf(cells, UnitNode) + col[..n]
    ensures NamesOf(cells + ColumnCells(box, ci, col, n), Label) == NamesOf(cells, Label)
  {
    hide Slot, NamesOf;
    if n == 0 {
      assert cells + ColumnCells(box, ci, col, 0) == cells;
    } else {
      ColumnNames(cells, box, ci, col, n - 1);
      var before, c := cells + ColumnCells(box, ci, col, n - 1), Cell(col[n - 1], UnitNode, Slot(ci, n - 1), box);
      assert cells + ColumnCells(box, ci, col, n) == before + [c];
      NamesPlus(before, c, UnitNode);
      NamesPlus(before, c, Label);
      assert col[..n] == col[..n - 1] + [col[n - 1]];
    }
  }

  lemma {:induction false} StackNames(cells: seq<Cell>, box: nat, cols: seq<seq<string>>, n: nat)
    requires n <= |cols|
    ensures NamesOf(cells + StackCells(box, cols, n), UnitNode) == NamesOf(cells, UnitNode) + Flat(cols[..n])
    ensures NamesOf(cells + StackCells(box, cols, n), Label) == NamesOf(cells, Label)
  {
    hide NamesOf, ColumnCells;
    if n == 0 {
      assert cells + StackCells(box, cols, 0) == cells;
    } else {
      StackNames(cells, box, cols, n - 1);
      var before, col := cells + StackCells(box, cols, n - 1), cols[n - 1];
      assert cells + StackCells(box, cols, n) == before + ColumnCells(box, n - 1, col, |col|);
      ColumnNames(before, box, n - 1, col, |col|);
      assert cols[..n] == cols[..n - 1] + [col];
      FlatPlus(cols[..n - 1], col);
    }
  }

  /** Every unit is drawn in a box with the name that home gives. */
  ghost predicate Housed(cells: seq<Cell>, home: map<string, string>) {
    forall i :: 0 <= i < |cells| && cells[i].role == UnitNode ==> InBox(cells, i, home)
  }

  ghost predicate InBox(cells: seq<Cell>, i: nat, home: map<string, string>)
    requires i < |cells|
  {
    var c := cells[i];
    && c.name in home && 0 < c.parent <= i
    && cells[c.parent - 1].role == Box && cells[c.parent - 1].name == home[c.name]
  }

  lemma {:induction false} StackCell(box: nat, cols: seq<seq<string>>, n: nat, c: Cell)
    requires n <= |cols| && c in StackCells(box, cols, n)
    ensures c.parent == box && c.role == UnitNode && c.name in Flat(cols[..n])
  {
    assert cols[..n] == cols[..n - 1] + [cols[n - 1]];
    FlatPlus(cols[..n - 1], cols[n - 1]);
    if c in StackCells(box, cols, n - 1) {
      StackCell(box, cols, n - 1, c);
    }
  }

  lemma HousedStack(cells: seq<Cell>, box: Cell, cols: seq<seq<string>>, home: map<string, string>)
    requires Housed(cells, home) && box.role == Box
    requires forall id :: id in Flat(cols) ==> id in home && home[id] == box.name
    ensures Housed(cells + [box] + StackCells(|cells| + 1, cols, |cols|), home)
  {
    hide *;
    var stack := StackCells(|cells| + 1, cols, |cols|);
    assert cols[..|cols|] == cols;
    forall c | c in stack ensures c.parent == |cells| + 1 && c.role == UnitNode && c.name in Flat(cols) {
      StackCell(|cells| + 1, cols, |cols|, c);
    }
    HousedInBox(cells, box, stack, home);
  }

  lemma HousedInBox(cells: seq<Cell>, box: Cell, stack: seq<Cell>, home: map<string, string>)
    requires Housed(cells, home) && box.role == Box
    requires forall c :: c in stack ==> c.parent == |cells| + 1 && c.name in home && home[c.name] == box.name
    ensures Housed(cells + [box] + stack, home)
  {
    var all := cells + [box] + stack;
    forall i | 0 <= i < |all| && all[i].role == UnitNode ensures InBox(all, i, home) {
      if i < |cells| {
        assert InBox(cells, i, home);
      } else {
        assert i > |cells| ==> all[i] in stack;
      }
    }
  }

  lemma StillHoused(before: seq<Cell>, after: seq<Cell>, home: map<string, string>)
    requires Housed(before, home) && NoUnits(before, after)
    ensures Housed(after, home)
  {
    forall i | 0 <= i < |after| && after[i].role == UnitNode ensures InBox(after, i, home) {
      assert InBox(before, i, home);
    }
  }

  /** One stack box: it adds exactly its units, inside it. */
  method DrawStack(p: DrawioPage, name: string, cols: seq<seq<string>>, c: Cursor, ghost home: map<string, string>)
    returns (next: Cursor)
    requires p.Fits() && Room(p.cells, c) && Housed(p.cells, home)
    requires forall id :: id in Flat(cols) ==> id in home && home[id] == name
    modifies p`cells, p`maxX, p`maxY
    ensures p.Fits() && Room(p.cells, next) && Housed(p.cells, home)
    ensures NamesOf(p.cells, UnitNode) == old(NamesOf(p.cells, UnitNode)) + Flat(cols)
    ensures NamesOf(p.cells, Label) == old(NamesOf(p.cells, Label))
  {
    hide *;
    ghost var base := p.cells;
    next := p.PlaceStack(name, cols, c);
    ghost var at := Wrap(c, BoxW(|cols|));
    ghost var box := Cell(name, Box, Rect(at.x, at.y, BoxW(|cols|), BoxH(Rows(cols))), 0);
    NamesPlus(base, box, UnitNode);
    NamesPlus(base, box, Label);
    StackNames(base + [box], |base| + 1, cols, |cols|);
    HousedStack(base, box, cols, home);
    assert cols[..|cols|] == cols;
  }

  /** The boxes of shelfLayout, stack by stack in the given order. */
  method PlaceStacks(p: DrawioPage, nodes: map<string, Node>, used: set<string>, kinds: seq<string>,
                     order: seq<string>, lists: map<string, seq<string>>, c: Cursor, ghost edges: seq<Edge>,
                     ghost home: map<string, string>) returns (next: Cursor)
    requires p.Fits() && Room(p.cells, c) && Distinct(kinds) && Housed(p.cells, home)
    requires used <= nodes.Keys && forall id :: id in used ==> KindOf(nodes[id]) in kinds
    requires forall id :: id in used ==> id in home && home[id] == StackOf(nodes[id])
    requires Distinct(order) && forall id :: ListOf(lists, id) == Neighbors(edges, id)
    modifies p`cells, p`maxX, p`maxY
    ensures p.Fits() && Room(p.cells, next) && Housed(p.cells, home)
    ensures multiset(NamesOf(p.cells, UnitNode)) ==
            old(multiset(NamesOf(p.cells, UnitNode))) + multiset(InStacks(nodes, used, order))
    ensures NamesOf(p.cells, Label) == old(NamesOf(p.cells, Label))
  {
    hide *;
    next := c;
    NoStacks(nodes, used);
    for i := 0 to |order|
      invariant p.Fits() && Room(p.cells, next) && Housed(p.cells, home)
      invariant multiset(NamesOf(p.cells, UnitNode)) ==
                old(multiset(NamesOf(p.cells, UnitNode))) + multiset(InStacks(nodes, used, order[..i]))
      invariant NamesOf(p.cells, Label) == old(NamesOf(p.cells, Label))
    {
      NextOfDistinct(order, i);
      NextStack(nodes, used, order[..i], order[i]);
      var cols := Columns(nodes, used, kinds, order[i], lists, edges);
      Belong(nodes, used, order[i], Flat(cols));
      next := DrawStack(p, order[i], cols, next, home);
    }
    assert order[..|order|] == order;
  }

  lemma NoStacks(nodes: map<string, Node>, used: set<string>)
    requires used <= nodes.Keys
    ensures InStacks(nodes, used, []) == {}
  {
  }

  /** shelfLayout, of the units that the selected edges touch: each is drawn once, in the box of its stack. */
  method ShelfLayout(p: DrawioPage, nodes: map<string, Node>, used: set<string>, selected: seq<Edge>,
                     kinds: seq<string>, c: Cursor, ghost home: map<string, string>) returns (next: Cursor)
    requires p.Fits() && Room(p.cells, c) && Distinct(kinds) && Housed(p.cells, home)
    requires used <= nodes.Keys && forall id :: id in used ==> KindOf(nodes[id]) in kinds
    requires forall id :: id in used ==> id in home && home[id] == StackOf(nodes[id])
    requires forall e :: e in selected ==> e.from in nodes && e.to in nodes
    modifies p
    ensures p.Fits() && Room(p.cells, next) && Housed(p.cells, home)
    ensures multiset(NamesOf(p.cells, UnitNode)) == old(multiset(NamesOf(p.cells, UnitNode))) + multiset(used)
    ensures NamesOf(p.cells, Label) == old(NamesOf(p.cells, Label))
    ensures p.usedKinds == old(p.usedKinds) + KindsOf(nodes, used)
    ensures p.usedEdges == old(p.usedEdges) + set e | e in selected :: StyleKey(nodes, e)
  {
    hide *;
    var stacks := set id | id in used :: StackOf(nodes[id]);
    var pairs := seq(|selected|, i requires 0 <= i < |selected| =>
      (StackOf(nodes[selected[i].from]), StackOf(nodes[selected[i].to])));
    var order := OrderStacks(stacks, pairs);
    OnceEach(order, stacks);
    AllStacks(nodes, used, order);
    var lists := CollectNeighbors(selected);
    next := PlaceStacks(p, nodes, used, kinds, order, lists, c, selected, home);
    p.usedKinds := p.usedKinds + KindsOf(nodes, used);
    p.usedEdges := p.usedEdges + set e | e in selected :: StyleKey(nodes, e);
  }

  const NETWORK_KINDS := ["container", "pod", "kube", "network"]
  const STORAGE_KINDS := ["container", "pod", "kube", "volume"]
  const DETAIL_KINDS := ["pod", "container", "kube", "build", "image", "artifact", "network", "volume", "external"]

  /** The legend lists what is used on the page, in its own order. */
  ghost predicate Legend(p: DrawioPage)
    reads p
  {
    NamesOf(p.cells, Label) ==
      Used(["container", "pod", "kube", "build", "image", "artifact", "network", "volume", "external", "stack"],
           p.usedKinds)
      + Used(["network", "volume", "pod", "image", "cross", "deps"], p.usedEdges)
  }

  /** The cell is in a box with the name of its quadlet, or of the units of none, or of those that nothing refers to. */
  ghost predicate InQuadlet(cells: seq<Cell>, i: nat, nodes: map<string, Node>, orphans: seq<string>)
    requires i < |cells|
  {
    var c := cells[i];
    && c.name in nodes && 0 < c.parent <= i && cells[c.parent - 1].role == Box
    && var box, quadlet := cells[c.parent - 1].name, nodes[c.name].quadlet;
       if c.name in orphans then box == "unreferenced units"
       else if quadlet != "" then box == quadlet
       else box == "external"
  }

  ghost predicate ByQuadlet(cells: seq<Cell>, nodes: map<string, Node>, orphans: seq<string>) {
    forall i :: 0 <= i < |cells| && cells[i].role == UnitNode ==> InQuadlet(cells, i, nodes, orphans)
  }

  lemma HousedByQuadlet(cells: seq<Cell>, home: map<string, string>, nodes: map<string, Node>, orphans: seq<string>)
    requires Housed(cells, home) && home.Keys <= nodes.Keys
    requires forall id :: id in home && id in orphans ==> home[id] == "unreferenced units"
    requires forall id :: id in home && id !in orphans ==> home[id] == StackOf(nodes[id])
    ensures ByQuadlet(cells, nodes, orphans)
  {
    forall i | 0 <= i < |cells| && cells[i].role == UnitNode ensures InQuadlet(cells, i, nodes, orphans) {
      assert InBox(cells, i, home);
      StackShared(nodes[cells[i].name], nodes[cells[i].name]);
    }
  }

  /** The kinds in the legend are those of what is drawn, and the styles those of the edges selected. */
  ghost predicate Explained(p: DrawioPage, nodes: map<string, Node>, drawn: set<string>, orphans: seq<string>,
                            edges: set<Edge>)
    reads p
    requires drawn <= nodes.Keys
  {
    && (forall k :: k in p.usedKinds <==>
          (exists id :: id in drawn && ShownAs(nodes[id], k)) || (orphans != [] && k == "external"))
    && (forall k :: k in p.usedEdges <==> exists e :: e in edges && StyledBy(nodes, e, k))
  }

  lemma ExplainedIf(p: DrawioPage, nodes: map<string, Node>, drawn: set<string>, orphans: seq<string>,
                    edges: set<Edge>)
    requires drawn <= nodes.Keys && forall e :: e in edges ==> e.from in nodes && e.to in nodes
    requires p.usedKinds == KindsOf(nodes, drawn) + if orphans == [] then {} else {"external"}
    requires p.usedEdges == set e | e in edges :: StyleKey(nodes, e)
    ensures Explained(p, nodes, drawn, orphans, edges)
  {
    hide BetweenQuadlets, StyleKey;
    forall k ensures k in p.usedKinds <==>
                     (exists id :: id in drawn && ShownAs(nodes[id], k)) || (orphans != [] && k == "external")
    {
      if k in KindsOf(nodes, drawn) {
        var id :| id in drawn && KindOf(nodes[id]) == k;
        assert ShownAs(nodes[id], k);
      }
      if id :| id in drawn && ShownAs(nodes[id], k) {
        assert KindOf(nodes[id]) == k;
      }
    }
    forall k ensures k in p.usedEdges <==> exists e :: e in edges && StyledBy(nodes, e, k) {
      if k in p.usedEdges {
        var e :| e in edges && StyleKey(nodes, e) == k;
        StyleIs(nodes, e);
      }
      if e :| e in edges && StyledBy(nodes, e, k) {
        StyleIs(nodes, e);
      }
    }
  }

  /** The edges that a page draws. */
  ghost function Drawn(nodes: map<string, Node>, r: Reduced, kinds: seq<string>, rels: set<string>): set<Edge> {
    set e | e in r.kept && Shows(nodes, r.visible, kinds, rels, e)
  }

  lemma SelectedInNodes(nodes: map<string, Node>, visible: set<string>, kinds: seq<string>, rels: set<string>,
                        kept: seq<Edge>)
    ensures forall id :: UsedBy(nodes, visible, kinds, rels, kept, id) ==>
              id in nodes && id in visible && KindOf(nodes[id]) in kinds
    ensures forall e :: Shows(nodes, visible, kinds, rels, e) ==> e.from in nodes && e.to in nodes
  {
  }

  /** Each visible unit belongs in the box of its stack, an orphan in that of the unreferenced units. */
  ghost function Homes(nodes: map<string, Node>, r: Reduced): map<string, string> {
    map id | id in nodes :: if id in r.orphans then "unreferenced units" else StackOf(nodes[id])
  }

  lemma NotOrphans(nodes: map<string, Node>, edges: seq<Edge>, r: Reduced)
    requires Closed(nodes, edges) && Reduces(nodes, edges, r)
    ensures r.visible <= nodes.Keys && forall id :: id in r.visible ==> id !in r.orphans
    ensures forall id :: id in r.visible ==> id in Homes(nodes, r) && Homes(nodes, r)[id] == StackOf(nodes[id])
    ensures forall id :: id in r.orphans ==> id in Homes(nodes, r) && Homes(nodes, r)[id] == "unreferenced units"
  {
    hide StackOf;
  }

  /** The styles of the edges that a page selects. */
  ghost function Styles(nodes: map<string, Node>, r: Reduced, kinds: seq<string>, rels: set<string>): set<string> {
    set e | e in r.kept && Shows(nodes, r.visible, kinds, rels, e) :: StyleKey(nodes, e)
  }

  lemma StylesOf(nodes: map<string, Node>, r: Reduced, kinds: seq<string>, rels: set<string>, selected: seq<Edge>)
    requires forall e :: e in selected <==> e in r.kept && Shows(nodes, r.visible, kinds, rels, e)
    ensures forall e :: e in selected ==> e.from in nodes && e.to in nodes
    ensures Styles(nodes, r, kinds, rels) == set e | e in selected :: StyleKey(nodes, e)
  {
    hide StyleKey;
  }

  /** pageNetworks and pageStorage: the units that an edge of the relations touches are drawn, once each. */
  method ShelfPage(title: string, sub: string, nodes: map<string, Node>, r: Reduced, kinds: seq<string>,
                   rels: set<string>)
    returns (p: DrawioPage)
    requires Distinct(kinds)
    ensures fresh(p) && p.Fits() && Legend(p) && Housed(p.cells, map id | id in nodes :: StackOf(nodes[id]))
    ensures Distinct(NamesOf(p.cells, UnitNode))
    ensures forall id :: id in NamesOf(p.cells, UnitNode) <==> UsedBy(nodes, r.visible, kinds, rels, r.kept, id)
    ensures Set(NamesOf(p.cells, UnitNode)) <= nodes.Keys
    ensures p.usedKinds == KindsOf(nodes, Set(NamesOf(p.cells, UnitNode)))
    ensures p.usedEdges == Styles(nodes, r, kinds, rels)
    ensures ByQuadlet(p.cells, nodes, [])
    ensures Explained(p, nodes, Set(NamesOf(p.cells, UnitNode)), [], Drawn(nodes, r, kinds, rels))
  {
    hide *;
    ghost var home := map id | id in nodes :: StackOf(nodes[id]);
    p := new DrawioPage();
    p.Heading(title, sub);
    HeadingNames(p.cells);
    SelectedInNodes(nodes, r.visible, kinds, rels, r.kept);
    var selected, used := Select(nodes, r.visible, kinds, rels, r.kept);
    StylesOf(nodes, r, kinds, rels, selected);
    NoneHoused(p.cells, home);
    var next := ShelfLayout(p, nodes, used, selected, kinds, Cursor(MARGIN, 120.0, 0.0), home);
    OnceEach(NamesOf(p.cells, UnitNode), used);
    SetIs(NamesOf(p.cells, UnitNode), used);
    ghost var before := p.cells;
    p.ShelfLegend(next);
    StillHoused(before, p.cells, home);
    LegendIs(p);
    HousedByQuadlet(p.cells, home, nodes, []);
    DrawnIn(nodes, r, kinds, rels);
    ExplainedIf(p, nodes, Set(NamesOf(p.cells, UnitNode)), [], Drawn(nodes, r, kinds, rels));
  }

  lemma DrawnIn(nodes: map<string, Node>, r: Reduced, kinds: seq<string>, rels: set<string>)
    ensures forall e :: e in Drawn(nodes, r, kinds, rels) ==> e.from in nodes && e.to in nodes
    ensures Styles(nodes, r, kinds, rels) == set e | e in Drawn(nodes, r, kinds, rels) :: StyleKey(nodes, e)
  {
    hide StyleKey, KindOf;
  }

  lemma SetIs(ids: seq<string>, names: set<string>)
    requires forall id :: id in ids <==> id in names
    ensures Set(ids) == names
  {
  }

  lemma NoneHoused(cells: seq<Cell>, home: map<string, string>)
    requires |cells| == 2 && cells[0].role == Heading && cells[1].role == Heading
    ensures Housed(cells, home)
  {
  }

  /** pageNetworks */
  method PageNetworks(nodes: map<string, Node>, r: Reduced, sub: string) returns (p: DrawioPage)
    ensures fresh(p) && p.Fits() && Legend(p) && Housed(p.cells, map id | id in nodes :: StackOf(nodes[id]))
    ensures Distinct(NamesOf(p.cells, UnitNode)) && ByQuadlet(p.cells, nodes, [])
    ensures forall id :: id in NamesOf(p.cells, UnitNode) <==>
        UsedBy(nodes, r.visible, ["container", "pod", "kube", "network"], {"network"}, r.kept, id)
    ensures Set(NamesOf(p.cells, UnitNode)) <= nodes.Keys
    ensures Explained(p, nodes, Set(NamesOf(p.cells, UnitNode)), [],
                      Drawn(nodes, r, ["container", "pod", "kube", "network"], {"network"}))
  {
    p := ShelfPage("Network topology", sub, nodes, r, NETWORK_KINDS, {"network"});
  }

  /** pageStorage */
  method PageStorage(nodes: map<string, Node>, r: Reduced, sub: string) returns (p: DrawioPage)
    ensures fresh(p) && p.Fits() && Legend(p) && Housed(p.cells, map id | id in nodes :: StackOf(nodes[id]))
    ensures Distinct(NamesOf(p.cells, UnitNode)) && ByQuadlet(p.cells, nodes, [])
    ensures forall id :: id in NamesOf(p.cells, UnitNode) <==>
        UsedBy(nodes, r.visible, ["container", "pod", "kube", "volume"], {"volume", "pod"}, r.kept, id)
    ensures Set(NamesOf(p.cells, UnitNode)) <= nodes.Keys
    ensures Explained(p, nodes, Set(NamesOf(p.cells, UnitNode)), [],
                      Drawn(nodes, r, ["container", "pod", "kube", "volume"], {"volume", "pod"}))
  {
    p := ShelfPage("Volumes and pods", sub, nodes, r, STORAGE_KINDS, {"volume", "pod"});
  }

  lemma HeadingNames(cells: seq<Cell>)
    requires |cells| == 2 && cells[0].role == Heading && cells[1].role == Heading
    ensures NamesOf(cells, UnitNode) == [] && NamesOf(cells, Label) == []
  {
    assert cells[..1][..0] == [] && NamesOf(cells[..1], UnitNode) == [] && NamesOf(cells[..1], Label) == [];
  }

  lemma LegendIs(p: DrawioPage)
    ensures Legend(p) <==>
            NamesOf(p.cells, Label) == [] + Used(LEGEND_KINDS, p.usedKinds) + Used(LEGEND_EDGES, p.usedEdges)
  {
    assert [] + Used(LEGEND_KINDS, p.usedKinds) == Used(LEGEND_KINDS, p.usedKinds);
  }

  /** The trailing boxes of pageDetail, stack by stack. */
  method PlaceTrailing(p: DrawioPage, nodes: map<string, Node>, missing: set<string>, stacks: seq<string>, c: Cursor,
                       ghost home: map<string, string>) returns (next: Cursor)
    requires p.Fits() && Room(p.cells, c) && missing <= nodes.Keys && Housed(p.cells, home) && Distinct(stacks)
    requires forall id :: id in missing ==> id in home && home[id] == StackOf(nodes[id])
    modifies p`cells, p`maxX, p`maxY
    ensures p.Fits() && Room(p.cells, next) && Housed(p.cells, home)
    ensures multiset(NamesOf(p.cells, UnitNode)) ==
            old(multiset(NamesOf(p.cells, UnitNode))) + multiset(InStacks(nodes, missing, stacks))
    ensures NamesOf(p.cells, Label) == old(NamesOf(p.cells, Label))
  {
    hide *;
    next := c;
    NoStacks(nodes, missing);
    for i := 0 to |stacks|
      invariant p.Fits() && Room(p.cells, next) && Housed(p.cells, home)
      invariant multiset(NamesOf(p.cells, UnitNode)) ==
                old(multiset(NamesOf(p.cells, UnitNode))) + multiset(InStacks(nodes, missing, stacks[..i]))
      invariant NamesOf(p.cells, Label) == old(NamesOf(p.cells, Label))
    {
      NextOfDistinct(stacks, i);
      NextStack(nodes, missing, stacks[..i], stacks[i]);
      var col := SortedNames(InStack(nodes, missing, stacks[i]));
      SetOfSeq(col, InStack(nodes, missing, stacks[i]));
      OneColumn(col);
      Belong(nodes, missing, stacks[i], col);
      next := DrawStack(p, stacks[i], [col], next, home);
    }
    assert stacks[..|stacks|] == stacks;
  }

  /** Units that are not placed yet go into a box with a single column for each stack. */
  method DrawMissing(p: DrawioPage, nodes: map<string, Node>, missing: set<string>, c: Cursor,
                     ghost home: map<string, string>) returns (next: Cursor)
    requires p.Fits() && Room(p.cells, c) && missing <= nodes.Keys && Housed(p.cells, home)
    requires forall id :: id in missing ==> id in home && home[id] == StackOf(nodes[id])
    modifies p
    ensures p.Fits() && Room(p.cells, next) && Housed(p.cells, home)
    ensures multiset(NamesOf(p.cells, UnitNode)) == old(multiset(NamesOf(p.cells, UnitNode))) + multiset(missing)
    ensures NamesOf(p.cells, Label) == old(NamesOf(p.cells, Label))
    ensures p.usedKinds == old(p.usedKinds) + KindsOf(nodes, missing)
    ensures p.usedEdges == old(p.usedEdges)
  {
    hide *;
    var names := set id | id in missing :: StackOf(nodes[id]);
    var stacks := SortedNames(names);
    StrictDistinct(stacks, Le);
    AllStacks(nodes, missing, stacks);
    next := PlaceTrailing(p, nodes, missing, stacks, c, home);
    p.usedKinds := p.usedKinds + KindsOf(nodes, missing);
  }

  lemma OneColumn(col: seq<string>)
    ensures Flat([col]) == col
  {
    assert Flat([col][..0]) == [];
  }

  /** The box of pageDetail for the nodes that no edge touches. */
  method DrawOrphans(p: DrawioPage, orphans: seq<string>, c: Cursor, ghost home: map<string, string>)
    returns (next: Cursor)
    requires p.Fits() && Room(p.cells, c) && Housed(p.cells, home)
    requires forall id :: id in orphans ==> id in home && home[id] == "unreferenced units"
    modifies p
    ensures p.Fits() && Room(p.cells, next) && Housed(p.cells, home)
    ensures NamesOf(p.cells, UnitNode) == old(NamesOf(p.cells, UnitNode)) + orphans
    ensures NamesOf(p.cells, Label) == old(NamesOf(p.cells, Label))
    ensures p.usedKinds == old(p.usedKinds) + if orphans == [] then {} else {"external"}
    ensures p.usedEdges == old(p.usedEdges)
  {
    hide *;
    next := c;
    if |orphans| > 0 {
      p.usedKinds := p.usedKinds + {"external"};
      OneColumn(orphans);
      next := DrawStack(p, "unreferenced units", [orphans], next, home);
    }
  }

  /** The units of pageDetail: those with resource edges, the other visible ones, and the orphans. */
  method DrawUnits(p: DrawioPage, nodes: map<string, Node>, r: Reduced, c: Cursor, ghost home: map<string, string>)
    returns (next: Cursor)
    requires p.Fits() && Room(p.cells, c) && r.visible <= nodes.Keys && Housed(p.cells, home)
    requires forall id :: id in r.visible ==> id in home && home[id] == StackOf(nodes[id])
    requires forall id :: id in r.orphans ==> id in home && home[id] == "unreferenced units"
    modifies p
    ensures p.Fits() && Room(p.cells, next) && Housed(p.cells, home)
    ensures multiset(NamesOf(p.cells, UnitNode)) ==
            old(multiset(NamesOf(p.cells, UnitNode))) + multiset(r.visible) + multiset(r.orphans)
    ensures NamesOf(p.cells, Label) == old(NamesOf(p.cells, Label))
    ensures p.usedKinds == old(p.usedKinds) + KindsOf(nodes, r.visible)
                           + if r.orphans == [] then {} else {"external"}
    ensures p.usedEdges == old(p.usedEdges) + Styles(nodes, r, DETAIL_KINDS, RESOURCE_RELS)
  {
    hide *;
    DetailKindsDistinct();
    SelectedInNodes(nodes, r.visible, DETAIL_KINDS, RESOURCE_RELS, r.kept);
    var selected, used := Select(nodes, r.visible, DETAIL_KINDS, RESOURCE_RELS, r.kept);
    StylesOf(nodes, r, DETAIL_KINDS, RESOURCE_RELS, selected);
    next := ShelfLayout(p, nodes, used, selected, DETAIL_KINDS, c, home);
    next := DrawMissing(p, nodes, r.visible - used, next, home);
    next := DrawOrphans(p, r.orphans, next, home);
    MultisetOfUnion(used, r.visible - used);
    KindsOfBoth(nodes, used, r.visible - used);
    assert used + (r.visible - used) == r.visible;
  }

  lemma DrawnOnce(nodes: map<string, Node>, edges: seq<Edge>, r: Reduced)
    requires Closed(nodes, edges) && NamedBuilds(nodes) && Reduces(nodes, edges, r)
    ensures r.visible <= nodes.Keys
    ensures forall id ::
              (multiset(r.visible) + multiset(r.orphans))[id] == if id in nodes && id !in r.hidden then 1 else 0
  {
    NothingLost(nodes, edges, r);
    DistinctCount(r.orphans);
    forall id
      ensures (multiset(r.visible) + multiset(r.orphans))[id] == if id in nodes && id !in r.hidden then 1 else 0
    {
      assert id in multiset(r.orphans) <==> id in r.orphans;
      assert id in nodes <==> id in r.visible || id in r.hidden || id in r.orphans;
    }
  }

  lemma DetailKindsDistinct()
    ensures Distinct(DETAIL_KINDS)
  {
  }

  lemma StartNames(ids: multiset<string>, visible: set<string>, orphans: seq<string>)
    requires ids == multiset([]) + multiset(visible) + multiset(orphans)
    ensures ids == multiset(visible) + multiset(orphans)
  {
  }

  /** pageDetail: every node of the graph is drawn once, except the builds that are folded into a label; and the
      legend explains the kinds of what is drawn. */
  method PageDetail(nodes: map<string, Node>, ghost edges: seq<Edge>, r: Reduced, sub: string) returns (p: DrawioPage)
    requires Closed(nodes, edges) && NamedBuilds(nodes) && Reduces(nodes, edges, r)
    ensures fresh(p) && p.Fits() && Legend(p) && Housed(p.cells, Homes(nodes, r))
    ensures forall id :: multiset(NamesOf(p.cells, UnitNode))[id] == if id in nodes && id !in r.hidden then 1 else 0
    ensures r.visible <= nodes.Keys
    ensures p.usedKinds == KindsOf(nodes, r.visible) + if r.orphans == [] then {} else {"external"}
    ensures ByQuadlet(p.cells, nodes, r.orphans)
    ensures Explained(p, nodes, r.visible, r.orphans,
                      Drawn(nodes, r, ["pod", "container", "kube", "build", "image", "artifact", "network", "volume",
                                       "external"], {"image", "pod", "network", "volume"}))
  {
    hide *;
    NotOrphans(nodes, edges, r);
    DrawnOnce(nodes, edges, r);
    p := new DrawioPage();
    p.Heading("Full detail", sub);
    HeadingNames(p.cells);
    NoneHoused(p.cells, Homes(nodes, r));
    var next := DrawUnits(p, nodes, r, Cursor(MARGIN, 120.0, 0.0), Homes(nodes, r));
    StartNames(multiset(NamesOf(p.cells, UnitNode)), r.visible, r.orphans);
    ghost var before := p.cells;
    p.ShelfLegend(next);
    StillHoused(before, p.cells, Homes(nodes, r));
    LegendIs(p);
    HomesAre(nodes, r);
    DetailKindsAre();
    HousedByQuadlet(p.cells, Homes(nodes, r), nodes, r.orphans);
    DrawnIn(nodes, r, DETAIL_KINDS, RESOURCE_RELS);
    ExplainedIf(p, nodes, r.visible, r.orphans, Drawn(nodes, r, DETAIL_KINDS, RESOURCE_RELS));
  }

  lemma DetailKindsAre()
    ensures DETAIL_KINDS ==
            ["pod", "container", "kube", "build", "image", "artifact", "network", "volume", "external"]
    ensures RESOURCE_RELS == {"image", "pod", "network", "volume"}
  {
  }

  lemma HomesAre(nodes: map<string, Node>, r: Reduced)
    ensures var home := Homes(nodes, r);
            && home.Keys <= nodes.Keys
            && (forall id :: id in home && id in r.orphans ==> home[id] == "unreferenced units")
            && forall id :: id in home && id !in r.orphans ==> home[id] == StackOf(nodes[id])
  {
    hide StackOf;
  }
}
