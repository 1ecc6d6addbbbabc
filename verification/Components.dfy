/** The component pass itself: the maps, the stack and the two counters that the recursive closure
    of layerAcyclic shares are the fields of a class, the closure is the method Strong. */
module Components {
  import opened Wrappers
  import opened Digraph
  import opened Tarjan

  /** adj lists, for every node, the targets of its edges other than self-loops. */
  ghost predicate Lists(adj: map<string, seq<string>>, E: Edges) {
    forall v, w {:trigger w in Succ(adj, v)} {:trigger (v, w) in E} :: w in Succ(adj, v) <==> (v, w) in E && v != w
  }

  /** The stack holds its nodes oldest first. */
  ghost predicate Ordered(index: map<string, nat>, stack: seq<string>) {
    && (forall i :: 0 <= i < |stack| ==> stack[i] in index)
    && (forall i, j :: 0 <= i < j < |stack| ==> index[stack[i]] < index[stack[j]])
  }

  ghost predicate Flags(onStack: map<string, bool>, stack: seq<string>) {
    forall x :: x in stack <==> x in onStack && onStack[x]
  }

  /** The segment that starts at v is the stack from the position of v. */
  lemma SegmentIsSuffix(s: Snap, stack: seq<string>, n: nat)
    requires Ordered(s.index, stack) && s.stack == Elems(stack) && n < |stack|
    ensures Segment(s, stack[n]) == Elems(stack[n..])
    ensures s.stack - Segment(s, stack[n]) == Elems(stack[..n])
  {
    assert stack == stack[..n] + stack[n..];
  }

  /** One more pop of full, from height m + 1 to height m, numbers full[m]. */
  lemma NumberOne(comp: map<string, nat>, full: seq<string>, m: nat, c: nat)
    requires m < |full|
    ensures Number(comp, Elems(full[m + 1..]), c)[full[m] := c] == Number(comp, Elems(full[m..]), c)
  {
    assert full[m..] == [full[m]] + full[m + 1..];
  }

  lemma NumberNone(comp: map<string, nat>, full: seq<string>, c: nat)
    ensures full == full[..|full|] && comp == Number(comp, Elems(full[|full|..]), c)
  {
  }

  lemma TopIsRoot(index: map<string, nat>, full: seq<string>, m: nat, n: nat)
    requires Ordered(index, full) && n <= m < |full| && full[m] == full[n]
    ensures m == n
  {
  }

  lemma OrderedPrefix(index: map<string, nat>, stack: seq<string>, n: nat)
    requires Ordered(index, stack) && n <= |stack|
    ensures Ordered(index, stack[..n])
  {
  }

  lemma PushOrdered(index: map<string, nat>, stack: seq<string>, v: string, i: nat)
    requires Ordered(index, stack) && v !in index && forall x :: x in index ==> index[x] < i
    ensures Ordered(index[v := i], stack + [v])
  {
  }

  lemma TopIsFresh(index: map<string, nat>, stack: seq<string>)
    requires Ordered(index, stack) && |stack| > 0
    ensures stack[|stack| - 1] !in stack[..|stack| - 1]
  {
  }

  lemma PushFlags(onStack: map<string, bool>, stack: seq<string>, v: string)
    requires Flags(onStack, stack)
    ensures Flags(onStack[v := true], stack + [v])
  {
  }

  lemma PopFlags(onStack: map<string, bool>, stack: seq<string>)
    requires Flags(onStack, stack) && |stack| > 0 && stack[|stack| - 1] !in stack[..|stack| - 1]
    ensures Flags(onStack[stack[|stack| - 1] := false], stack[..|stack| - 1])
  {
    assert stack == stack[..|stack| - 1] + [stack[|stack| - 1]];
  }

  lemma FlagAt(onStack: map<string, bool>, stack: seq<string>, w: string)
    requires Flags(onStack, stack)
    ensures w in stack <==> w in onStack && onStack[w]
  {
  }

  lemma Listed(adj: map<string, seq<string>>, E: Edges, v: string, w: string)
    requires Lists(adj, E) && w in Succ(adj, v)
    ensures (v, w) in E && v != w
  {
  }

  lemma AllListed(adj: map<string, seq<string>>, E: Edges, v: string)
    requires Lists(adj, E)
    ensures forall w :: (v, w) in E && v != w ==> w in Succ(adj, v)
  {
  }

  lemma CallersReach(E: Edges, active: set<string>, v: string, w: string)
    requires (v, w) in E && forall g :: g in active ==> Reach(E, g, v)
    ensures forall g :: g in active + {v} ==> Reach(E, g, w)
  {
    hide Reach;
    ReachEdge(E, v, w);
    forall g | g in active ensures Reach(E, g, w) {
      ReachTrans(E, g, v, w);
    }
  }

  lemma ExtendsTrans(a: Snap, b: Snap, c: Snap)
    requires Extends(a, b) && Extends(b, c)
    ensures Extends(a, c)
  {
  }

  ghost predicate GrewBut(m: map<string, nat>, m': map<string, nat>, v: string) {
    forall x :: x in m && x != v ==> x in m' && m'[x] == m[x]
  }

  lemma GrewStart(low: map<string, nat>, v: string, i: nat)
    ensures GrewBut(low, low[v := i], v)
  {
  }

  lemma GrewTrans(a: map<string, nat>, b: map<string, nat>, c: map<string, nat>, v: string)
    requires GrewBut(a, b, v) && GrewBut(b, c, v)
    ensures GrewBut(a, c, v)
  {
  }

  lemma GrewEnd(a: map<string, nat>, b: map<string, nat>, v: string)
    requires GrewBut(a, b, v) && v !in a
    ensures Grew(a, b)
  {
  }

  class Pass {
    const adj: map<string, seq<string>>
    ghost const E: Edges
    ghost const V: set<string>
    var index: map<string, nat>
    var low: map<string, nat>
    var onStack: map<string, bool>
    var comp: map<string, nat>
    var stack: seq<string>
    var idx: nat
    var ncomp: nat

    ghost function Now(): Snap
      reads this
    {
      Snap(index, comp, Elems(stack), idx, ncomp)
    }

    /** The invariant of the pass; active holds the nodes whose call has not returned. */
    ghost predicate Valid(active: set<string>)
      reads this
    {
      && Lists(adj, E) && (forall e :: e in E ==> e.0 in V && e.1 in V)
      && low.Keys == index.Keys && index.Keys <= V
      && Flags(onStack, stack) && Ordered(index, stack)
      && Inv(E, Now(), active)
    }

    constructor (adj: map<string, seq<string>>, ghost E: Edges, ghost V: set<string>)
      requires Lists(adj, E) && forall e :: e in E ==> e.0 in V && e.1 in V
      ensures Valid({}) && index == map[] && stack == []
      ensures this.E == E && this.V == V && this.adj == adj
    {
      this.adj, this.E, this.V := adj, E, V;
      index, low, onStack, comp := map[], map[], map[], map[];
      stack, idx, ncomp := [], 0, 0;
    }

    /** One pop: the top of the stack, a prefix of full, gets the current number. */
    method PopTop(ghost base: map<string, nat>, ghost full: seq<string>) returns (w: string)
      requires Flags(onStack, stack) && Ordered(index, full) && 0 < |stack| <= |full| && stack == full[..|stack|]
      requires comp == Number(base, Elems(full[|stack|..]), ncomp)
      modifies this`stack, this`onStack, this`comp
      ensures |stack| == |old(stack)| - 1 && w == full[|stack|] && stack == full[..|stack|]
      ensures Flags(onStack, stack) && comp == Number(base, Elems(full[|stack|..]), ncomp)
    {
      NumberOne(base, full, |stack| - 1, ncomp);
      OrderedPrefix(index, full, |stack|);
      TopIsFresh(index, stack);
      PopFlags(onStack, stack);
      hide *;
      w := stack[|stack| - 1];
      assert stack[..|stack| - 1] == full[..|stack| - 1];
      stack := stack[..|stack| - 1];
      onStack := onStack[w := false];
      comp := comp[w := ncomp];
    }

    /** Pops the stack down to and including v, numbering what it pops. */
    method PopComponent(v: string, ghost n: nat)
      requires Flags(onStack, stack) && Ordered(index, stack) && n < |stack| && stack[n] == v
      modifies this`stack, this`onStack, this`comp, this`ncomp
      ensures Now() == Pop(old(Now()), v) && stack == old(stack)[..n]
      ensures Flags(onStack, stack) && Ordered(index, stack)
    {
      ghost var s, full := Now(), stack;
      NumberNone(comp, full, ncomp);
      SegmentIsSuffix(s, full, n);
      OrderedPrefix(index, full, n);
      hide Flags, Ordered, Number, Elems, Segment;
      while true
        invariant n < |stack| <= |full| && stack == full[..|stack|]
        invariant Flags(onStack, stack) && ncomp == s.ncomp
        invariant comp == Number(s.comp, Elems(full[|stack|..]), ncomp)
        decreases |stack|
      {
        var w := PopTop(s.comp, full);
        if w == v {
          TopIsRoot(index, full, |stack|, n);
          break;
        }
      }
      ncomp := ncomp + 1;
    }

    /** Opens the call on v: v gets the next index and goes on the stack. */
    method Open(v: string, ghost active: set<string>)
      requires Valid(active) && v in V && v !in index
      requires forall g :: g in active ==> Reach(E, g, v)
      modifies this
      ensures Valid(active + {v}) && Now() == Push(old(Now()), v)
      ensures low == old(low)[v := old(idx)] && stack == old(stack) + [v]
      ensures Visiting(E, Now(), Succ(adj, v), active, v, low[v], 0) && Extends(old(Now()), Now())
    {
      hide Inv, Reach, Visiting, Flags, Lists;
      VisitStart(E, Now(), Succ(adj, v), active, v);
      StackApart(E, Now(), active);
      PushFlags(onStack, stack, v);
      PushOrdered(index, stack, v, idx);
      index, low := index[v := idx], low[v := idx];
      idx := idx + 1;
      stack := stack + [v];
      onStack := onStack[v := true];
      assert Now() == Push(old(Now()), v);
    }

    /** Closes the call on v, opened in s0 with the stack s0stack: pops a component if v is its root. */
    method Close(v: string, ghost active: set<string>, ghost s0: Snap, ghost s0stack: seq<string>)
      requires Valid(active + {v}) && v in low && v in index && index[v] == s0.idx && v !in active
      requires Visiting(E, Now(), Succ(adj, v), active, v, low[v], |Succ(adj, v)|) && Extends(s0, Now())
      requires Shape(s0) && s0stack + [v] <= stack
      modifies this`stack, this`onStack, this`comp, this`ncomp
      ensures Valid(active) && s0stack <= stack
      ensures Returned(E, s0, Now(), v, low[v], active) && Extends(s0, Now())
    {
      hide Inv, Reach, Visiting, Returned, Root, Flags, Lists, Pop, Shape;
      AllListed(adj, E, v);
      StackApart(E, Now(), active + {v});
      ghost var s := Now();
      if low[v] == index[v] {
        FinishRoot(E, s0, s, Succ(adj, v), active, v, low[v]);
        PopComponent(v, |s0stack|);
      } else {
        FinishInner(E, s0, s, Succ(adj, v), active, v, low[v]);
      }
    }

    /** The recursive closure of layerAcyclic. */
    method Strong(v: string, ghost active: set<string>)
      requires Valid(active) && v in V && v !in index
      requires forall g :: g in active ==> Reach(E, g, v)
      modifies this
      ensures Valid(active)
      ensures v in low && Returned(E, old(Now()), Now(), v, low[v], active)
      ensures Extends(old(Now()), Now()) && Grew(old(low), low) && old(stack) <= stack
      decreases V - index.Keys, 0
    {
      StackApart(E, Now(), active);
      hide Inv, Reach, Visiting, Returned, Root, Flags, Lists, Shape, Ordered, Extends, GrewBut, Grew;
      ghost var s0, s0stack, low0 := Now(), stack, low;
      Open(v, active);
      assert v in index && index[v] == s0.idx;
      GrewStart(low0, v, s0.idx);
      for k := 0 to |Succ(adj, v)|
        invariant Valid(active + {v}) && v in index && index[v] == s0.idx
        invariant Visiting(E, Now(), Succ(adj, v), active, v, low[v], k) && Extends(s0, Now())
        invariant GrewBut(low0, low, v) && s0stack + [v] <= stack && s0.index.Keys <= index.Keys
      {
        ghost var s, low1 := Now(), low;
        LookAt(v, k, active);
        ExtendsTrans(s0, s, Now());
        GrewTrans(low0, low1, low, v);
      }
      Close(v, active, s0, s0stack);
      GrewEnd(low0, low, v);
    }

    /** The loop body of the closure: the call on v looks at its successor number k. */
    method LookAt(v: string, k: nat, ghost active: set<string>)
      requires Valid(active + {v}) && v in low && v in index && k < |Succ(adj, v)|
      requires forall g :: g in active ==> Reach(E, g, v)
      requires Visiting(E, Now(), Succ(adj, v), active, v, low[v], k)
      modifies this
      ensures Valid(active + {v}) && old(index.Keys) <= index.Keys && index[v] == old(index[v])
      ensures Visiting(E, Now(), Succ(adj, v), active, v, low[v], k + 1)
      ensures Extends(old(Now()), Now()) && GrewBut(old(low), low, v) && old(stack) <= stack
      decreases V - index.Keys, 1
    {
      hide Inv, Reach, Visiting, Returned, Root, Flags, Lists, Ordered;
      var w := Succ(adj, v)[k];
      ghost var s, l, ws := Now(), low[v], Succ(adj, v);
      Listed(adj, E, v, w);
      if w !in index {
        CallersReach(E, active, v, w);
        Strong(w, active + {v});
        VisitCall(E, s, Now(), ws, active, v, l, low[w], k, if low[w] < l then low[w] else l);
        if low[w] < low[v] {
          low := low[v := low[w]];
        }
      } else {
        VisitSeen(E, s, ws, active, v, l, k, if w in stack && index[w] < l then index[w] else l);
        FlagAt(onStack, stack, w);
        if w in onStack && onStack[w] && index[w] < low[v] {
          low := low[v := index[w]];
        }
      }
    }
  }
}
