/** The strongly connected component pass of layerAcyclic. The lemmas speak about the
    state of the pass as a value, in which the stack is the set of its nodes: the order
    of the stack is the order of their indices. */
module Tarjan {
  import opened Digraph

  datatype Snap = Snap(index: map<string, nat>, comp: map<string, nat>, stack: set<string>, idx: nat, ncomp: nat)

  /** Every indexed node is either numbered or on the stack. */
  ghost predicate Shape(s: Snap) {
    && s.index.Keys == s.comp.Keys + s.stack
    && s.comp.Keys !! s.stack
    && (forall x :: x in s.index ==> s.index[x] < s.idx)
    && (forall x :: x in s.comp ==> s.comp[x] < s.ncomp)
    && (forall x, y :: x in s.index && y in s.index && s.index[x] == s.index[y] ==> x == y)
  }

  /** Numbered nodes: edges never climb, and a number is one mutual-reachability class. */
  ghost predicate Numbered(E: Edges, comp: map<string, nat>) {
    && (forall e :: e in E && e.0 in comp ==> e.1 in comp && comp[e.1] <= comp[e.0])
    && (forall x, y :: x in comp && y in comp ==> (comp[x] == comp[y] <==> Mutual(E, x, y)))
  }

  /** Nodes on the stack whose call has returned have all their successors indexed. */
  ghost predicate Explored(E: Edges, s: Snap, active: set<string>) {
    forall e :: e in E && e.0 in s.stack && e.0 !in active ==> e.1 in s.index
  }

  /** An older node on the stack reaches every newer one. */
  ghost predicate Chain(E: Edges, s: Snap) {
    forall x, y :: x in s.stack && y in s.stack && x in s.index && y in s.index && s.index[x] <= s.index[y]
      ==> Reach(E, x, y)
  }

  /** x reaches an active call that is no newer than itself. */
  ghost predicate Escapes(E: Edges, index: map<string, nat>, active: set<string>, x: string) {
    x in index && exists g :: g in active && g in index && index[g] <= index[x] && Reach(E, x, g)
  }

  ghost predicate Rooted(E: Edges, s: Snap, active: set<string>) {
    forall x {:trigger Escapes(E, s.index, active, x)} :: x in s.stack ==> Escapes(E, s.index, active, x)
  }

  /** The invariant of the pass; active holds the nodes whose call has not returned. */
  ghost predicate Inv(E: Edges, s: Snap, active: set<string>) {
    && Shape(s) && Numbered(E, s.comp) && Chain(E, s)
    && Explored(E, s, active) && Rooted(E, s, active)
    && active <= s.stack
  }

  lemma Witness(E: Edges, index: map<string, nat>, active: set<string>, x: string) returns (g: string)
    requires Escapes(E, index, active, x)
    ensures g in active && g in index && x in index && index[g] <= index[x] && Reach(E, x, g)
  {
    g :| g in active && g in index && index[g] <= index[x] && Reach(E, x, g);
  }

  // ---------- starting a call

  ghost function Push(s: Snap, v: string): Snap {
    Snap(s.index[v := s.idx], s.comp, s.stack + {v}, s.idx + 1, s.ncomp)
  }

  lemma PushReach(E: Edges, s: Snap, active: set<string>, v: string, x: string)
    requires Rooted(E, s, active) && x in s.stack && forall g :: g in active ==> Reach(E, g, v)
    ensures Reach(E, x, v)
  {
    var g := Witness(E, s.index, active, x);
    ReachTrans(E, x, g, v);
  }

  lemma PushChain(E: Edges, s: Snap, active: set<string>, v: string)
    requires Shape(s) && Chain(E, s) && Rooted(E, s, active) && v !in s.index
    requires forall g :: g in active ==> Reach(E, g, v)
    ensures Chain(E, Push(s, v))
  {
    ReachRefl(E, v);
    forall x | x in s.stack ensures Reach(E, x, v) {
      PushReach(E, s, active, v, x);
    }
  }

  lemma PushRooted(E: Edges, s: Snap, active: set<string>, v: string)
    requires Rooted(E, s, active) && v !in s.index
    ensures Rooted(E, Push(s, v), active + {v})
  {
    var t := Push(s, v);
    forall x | x in t.stack ensures Escapes(E, t.index, active + {v}, x) {
      if x == v {
        ReachRefl(E, v);
      } else {
        var g := Witness(E, s.index, active, x);
        assert g in active + {v} && g in t.index && t.index[g] <= t.index[x];
      }
    }
  }

  lemma PushKeeps(E: Edges, s: Snap, active: set<string>, v: string)
    requires Inv(E, s, active) && v !in s.index && forall g :: g in active ==> Reach(E, g, v)
    ensures Inv(E, Push(s, v), active + {v})
  {
    PushChain(E, s, active, v);
    PushRooted(E, s, active, v);
    hide Rooted, Chain, Numbered;
  }

  // ---------- finishing a call that is not the root of its component

  /** An older node y is reachable from v, so whatever rested on v rests on an older active call. */
  lemma ReturnRooted(E: Edges, s: Snap, active: set<string>, v: string, y: string)
    requires Rooted(E, s, active + {v})
    requires y in s.stack && v in s.index && y in s.index && s.index[y] < s.index[v] && Reach(E, v, y)
    ensures Rooted(E, s, active)
  {
    var h := Witness(E, s.index, active + {v}, y);
    forall x | x in s.stack ensures Escapes(E, s.index, active, x) {
      var g := Witness(E, s.index, active + {v}, x);
      if g == v {
        ReachTrans(E, x, v, y);
        ReachTrans(E, x, y, h);
        assert h in active && s.index[h] <= s.index[x];
      }
    }
  }

  // ---------- popping a component

  /** No edge runs from a node of the stack with index b or more to an older one whose index is under l. */
  ghost predicate NoneBelow(E: Edges, s: Snap, b: nat, l: nat) {
    forall e | e in E && e.0 in s.stack && e.1 in s.stack && e.0 in s.index && e.1 in s.index
      :: b <= s.index[e.0] && s.index[e.1] < b ==> l <= s.index[e.1]
  }

  /** What holds when v is the root of the component about to be popped. */
  ghost predicate Root(E: Edges, s: Snap, active: set<string>, v: string) {
    && Inv(E, s, active + {v}) && v in s.index
    && (forall g :: g in active ==> g in s.index && s.index[g] < s.index[v])
    && (forall e :: e in E && e.0 == v ==> e.1 in s.index)
    && NoneBelow(E, s, s.index[v], s.index[v])
  }

  /** The part of the stack from v upwards. */
  ghost function Segment(s: Snap, v: string): set<string>
    requires v in s.index
  {
    set x | x in s.stack && x in s.index && s.index[v] <= s.index[x]
  }

  lemma SegmentClosed(E: Edges, s: Snap, active: set<string>, v: string)
    requires Root(E, s, active, v)
    ensures Closed(E, s.comp.Keys + Segment(s, v))
  {
    hide Rooted, Chain, Reach;
    forall e | e in E && e.0 in s.comp.Keys + Segment(s, v) ensures e.1 in s.comp.Keys + Segment(s, v) {
      if e.0 !in s.comp {
        assert e.1 in s.index;
      }
    }
  }

  /** The popped segment is one mutual-reachability class. */
  lemma SegmentMutual(E: Edges, s: Snap, active: set<string>, v: string, x: string)
    requires Root(E, s, active, v) && x in Segment(s, v)
    ensures Mutual(E, v, x)
  {
    assert Reach(E, v, x);
    var g := Witness(E, s.index, active + {v}, x);
    SegmentClosed(E, s, active, v);
    ClosedReach(E, s.comp.Keys + Segment(s, v), x, g);
    assert g == v;
  }

  /** comp extended with the popped segment numbered c. */
  ghost function Number(comp: map<string, nat>, seg: set<string>, c: nat): map<string, nat> {
    map x | x in comp.Keys + seg :: if x in seg then c else comp[x]
  }

  ghost function Pop(s: Snap, v: string): Snap
    requires v in s.index
  {
    s.(comp := Number(s.comp, Segment(s, v), s.ncomp), stack := s.stack - Segment(s, v), ncomp := s.ncomp + 1)
  }

  lemma PopClass(E: Edges, s: Snap, active: set<string>, v: string, x: string, y: string)
    requires Root(E, s, active, v) && x in Segment(s, v) && (y in Segment(s, v) || y in s.comp)
    ensures y in Segment(s, v) <==> Mutual(E, x, y)
  {
    SegmentMutual(E, s, active, v, x);
    if y in Segment(s, v) {
      SegmentMutual(E, s, active, v, y);
      ReachTrans(E, x, v, y);
      ReachTrans(E, y, v, x);
    } else if Mutual(E, x, y) {
      ClosedReach(E, s.comp.Keys, y, x);
    }
  }

  lemma PopNumbered(E: Edges, s: Snap, active: set<string>, v: string)
    requires Root(E, s, active, v)
    ensures Numbered(E, Pop(s, v).comp)
  {
    var comp' := Pop(s, v).comp;
    assert Closed(E, comp'.Keys) by {
      SegmentClosed(E, s, active, v);
      assert comp'.Keys == s.comp.Keys + Segment(s, v);
    }
    forall x, y | x in comp' && y in comp' ensures comp'[x] == comp'[y] <==> Mutual(E, x, y) {
      if x in Segment(s, v) {
        PopClass(E, s, active, v, x, y);
      } else if y in Segment(s, v) {
        PopClass(E, s, active, v, y, x);
      }
    }
  }

  lemma PopRooted(E: Edges, s: Snap, active: set<string>, v: string)
    requires Rooted(E, s, active + {v}) && v in s.index
    ensures Rooted(E, Pop(s, v), active)
  {
    forall x | x in Pop(s, v).stack ensures Escapes(E, s.index, active, x) {
      var g := Witness(E, s.index, active + {v}, x);
      assert g in active;
    }
  }

  lemma PopKeeps(E: Edges, s: Snap, active: set<string>, v: string)
    requires Root(E, s, active, v)
    ensures Inv(E, Pop(s, v), active)
  {
    PopNumbered(E, s, active, v);
    PopRooted(E, s, active, v);
    hide Rooted, Numbered, Reach;
  }

  // ---------- one call, as a relation between snapshots

  ghost predicate Grew(m: map<string, nat>, m': map<string, nat>) {
    forall x :: x in m ==> x in m' && m'[x] == m[x]
  }

  /** Nothing known in s is forgotten in t; on the stack of t, the nodes older than the clock of s are those of s. */
  ghost predicate Extends(s: Snap, t: Snap) {
    && Grew(s.index, t.index) && Grew(s.comp, t.comp)
    && s.stack <= t.stack && s.idx <= t.idx
    && (forall x :: x in t.stack && x !in s.stack ==> x in t.index && s.idx <= t.index[x])
  }

  /** l is the index of a node of the stack that v reaches. */
  ghost predicate LowReached(E: Edges, index: map<string, nat>, stack: set<string>, v: string, l: nat) {
    exists y :: y in stack && y in index && index[y] == l && Reach(E, v, y)
  }

  /** The call on v, made in s0, is over with low[v] == l: either its whole component was numbered and
      the stack is as before, or v rests on the stack and l points below it. */
  ghost predicate Returned(E: Edges, s0: Snap, s: Snap, v: string, l: nat, active: set<string>) {
    && Inv(E, s, active) && Extends(s0, s)
    && v in s.index && s.index[v] == s0.idx
    && (v in s.comp ==> l == s.index[v] && s.stack == s0.stack)
    && (v !in s.comp ==> LowReached(E, s.index, s0.stack, v, l))
    && NoneBelow(E, s, s0.idx, l)
  }

  /** The call on v has looked at its first k successors; low[v] == l. */
  ghost predicate Visiting(E: Edges, s: Snap, succ: seq<string>, active: set<string>, v: string, l: nat, k: nat) {
    && Inv(E, s, active + {v}) && k <= |succ| && v in s.index
    && (forall g :: g in active ==> g in s.index && s.index[g] < s.index[v])
    && l <= s.index[v] && LowReached(E, s.index, s.stack, v, l)
    && Looked(s, succ, v, l, k)
    && NoneBelow(E, s, s.index[v] + 1, l)
  }

  lemma VisitStart(E: Edges, s: Snap, succ: seq<string>, active: set<string>, v: string)
    requires Inv(E, s, active) && v !in s.index && forall g :: g in active ==> Reach(E, g, v)
    ensures Visiting(E, Push(s, v), succ, active, v, s.idx, 0)
    ensures Extends(s, Push(s, v)) && Inv(E, Push(s, v), active + {v})
  {
    PushKeeps(E, s, active, v);
    ReachRefl(E, v);
    hide Rooted, Explored, Chain, Numbered, Reach;
  }

  lemma VisitSeen(E: Edges, s: Snap, succ: seq<string>, active: set<string>, v: string, l: nat, k: nat, m: nat)
    requires Visiting(E, s, succ, active, v, l, k) && k < |succ| && succ[k] in s.index && (v, succ[k]) in E
    requires m == if succ[k] in s.stack && s.index[succ[k]] < l then s.index[succ[k]] else l
    ensures Visiting(E, s, succ, active, v, m, k + 1)
  {
    hide Inv, Reach;
    ReachEdge(E, v, succ[k]);
  }

  lemma CallLow(E: Edges, s: Snap, t: Snap, v: string, l: nat, w: string, lw: nat)
    requires Extends(s, t) && LowReached(E, s.index, s.stack, v, l) && Reach(E, v, w)
    requires w in t.index && v in s.index && l <= s.index[v] < t.index[w]
    requires w in t.comp ==> lw == t.index[w]
    requires w !in t.comp ==> LowReached(E, t.index, s.stack, w, lw)
    ensures LowReached(E, t.index, t.stack, v, if lw < l then lw else l)
  {
    hide Reach;
    if lw < l {
      var y :| y in s.stack && y in t.index && t.index[y] == lw && Reach(E, w, y);
      ReachTrans(E, v, w, y);
    }
  }

  lemma CallNoneBelow(E: Edges, s: Snap, t: Snap, b: nat, l: nat, lw: nat)
    requires Extends(s, t) && s.stack <= s.index.Keys && b <= s.idx
    requires NoneBelow(E, s, b, l) && NoneBelow(E, t, s.idx, lw)
    ensures NoneBelow(E, t, b, if lw < l then lw else l)
  {
  }

  lemma StackIndexed(E: Edges, s: Snap, active: set<string>, v: string)
    requires Inv(E, s, active) && v in s.index
    ensures s.stack <= s.index.Keys && s.index[v] < s.idx
    ensures forall x :: x in s.index && s.index[x] == s.index[v] ==> x == v
  {
    hide Rooted, Chain, Numbered, Explored;
  }

  /** What the call knows about the successors it has looked at. */
  ghost predicate Looked(s: Snap, succ: seq<string>, v: string, l: nat, k: nat)
    requires v in s.index && k <= |succ|
  {
    forall i :: 0 <= i < k ==> succ[i] in s.index
                               && (succ[i] in s.stack && s.index[succ[i]] < s.index[v] ==> l <= s.index[succ[i]])
  }

  lemma CallLooked(s: Snap, t: Snap, succ: seq<string>, v: string, l: nat, m: nat, k: nat)
    requires v in s.index && k < |succ| && Looked(s, succ, v, l, k) && Extends(s, t) && m <= l && s.index[v] < s.idx
    requires succ[k] in t.index && t.index[succ[k]] == s.idx
    ensures Looked(t, succ, v, m, k + 1)
  {
  }

  lemma VisitCall(E: Edges, s: Snap, t: Snap, succ: seq<string>, active: set<string>,
                  v: string, l: nat, lw: nat, k: nat, m: nat)
    requires Visiting(E, s, succ, active, v, l, k) && k < |succ| && succ[k] !in s.index && (v, succ[k]) in E
    requires Returned(E, s, t, succ[k], lw, active + {v})
    requires m == if lw < l then lw else l
    ensures Visiting(E, t, succ, active, v, m, k + 1)
  {
    StackIndexed(E, s, active + {v}, v);
    hide Inv, Reach, Looked;
    ReachEdge(E, v, succ[k]);
    CallLow(E, s, t, v, l, succ[k], lw);
    CallNoneBelow(E, s, t, s.index[v] + 1, l, lw);
    CallLooked(s, t, succ, v, l, m, k);
    hide NoneBelow, LowReached;
  }

  lemma RootHolds(E: Edges, s: Snap, succ: seq<string>, active: set<string>, v: string)
    requires v in s.index && Visiting(E, s, succ, active, v, s.index[v], |succ|)
    requires forall w :: (v, w) in E && v != w ==> w in succ
    ensures Root(E, s, active, v)
  {
    StackIndexed(E, s, active + {v}, v);
    hide Inv, Reach, LowReached;
  }

  lemma FinishRoot(E: Edges, s0: Snap, s: Snap, succ: seq<string>, active: set<string>, v: string, l: nat)
    requires Visiting(E, s, succ, active, v, l, |succ|) && l == s.index[v]
    requires forall w :: (v, w) in E && v != w ==> w in succ
    requires Shape(s0) && Extends(s0, s) && s.index[v] == s0.idx && v in s.stack
    ensures Root(E, s, active, v)
    ensures Returned(E, s0, Pop(s, v), v, l, active)
    ensures Extends(s0, Pop(s, v)) && Inv(E, Pop(s, v), active) && Pop(s, v).index == s.index
  {
    RootHolds(E, s, succ, active, v);
    PopKeeps(E, s, active, v);
    StackApart(E, s, active + {v});
    hide Inv, Reach, Looked, LowReached, Root;
    assert Pop(s, v).stack == s0.stack;
  }

  lemma StackApart(E: Edges, s: Snap, active: set<string>)
    requires Inv(E, s, active)
    ensures active <= s.stack <= s.index.Keys && s.stack !! s.comp.Keys
    ensures forall x :: x in s.index ==> s.index[x] < s.idx
  {
  }

  lemma FinishInner(E: Edges, s0: Snap, s: Snap, succ: seq<string>, active: set<string>, v: string, l: nat)
    requires Visiting(E, s, succ, active, v, l, |succ|) && l != s.index[v] && v !in active
    requires forall w :: (v, w) in E && v != w ==> w in succ
    requires Extends(s0, s) && s.index[v] == s0.idx && s.stack <= s.index.Keys
    ensures Returned(E, s0, s, v, l, active) && Inv(E, s, active)
  {
    var y :| y in s.stack && y in s.index && s.index[y] == l && Reach(E, v, y);
    ReturnRooted(E, s, active, v, y);
    hide Rooted, Chain, Numbered, Reach;
  }
}
