/** editDistance: the two-row table, the recurrence it fills in, and the edit scripts it measures. */
module EditDistance {

  function Min(a: nat, b: nat): nat {
    if a <= b then a else b
  }

  function Cost(x: char, y: char): nat {
    if x == y then 0 else 1
  }

  /** The Levenshtein recurrence, on the last characters. */
  function Lev(a: string, b: string): nat
    decreases |a| + |b|
  {
    if a == "" then |b|
    else if b == "" then |a|
    else
      var a', b' := a[..|a| - 1], b[..|b| - 1];
      Min(Min(Lev(a', b) + 1, Lev(a, b') + 1), Lev(a', b') + Cost(a[|a| - 1], b[|b| - 1]))
  }

  lemma LevStep(a: string, b: string)
    requires a != "" && b != ""
    ensures var a', b' := a[..|a| - 1], b[..|b| - 1];
            Lev(a, b) == Min(Min(Lev(a', b) + 1, Lev(a, b') + 1), Lev(a', b') + Cost(a[|a| - 1], b[|b| - 1]))
  {
  }

  lemma LevPrefixes(a: string, b: string, i: nat, j: nat)
    requires 0 < i <= |a| && 0 < j <= |b|
    ensures Lev(a[..i], b[..j]) == Min(Min(Lev(a[..i - 1], b[..j]) + 1, Lev(a[..i], b[..j - 1]) + 1),
                                       Lev(a[..i - 1], b[..j - 1]) + Cost(a[i - 1], b[j - 1]))
  {
    hide Lev, Min, Cost;
    LevStep(a[..i], b[..j]);
    assert a[..i][..i - 1] == a[..i - 1] && b[..j][..j - 1] == b[..j - 1];
  }

  /** The row of the table for the first i characters of a. */
  ghost predicate Row(row: seq<nat>, a: string, b: string, i: nat)
    requires i <= |a|
  {
    |row| == |b| + 1 && forall k :: 0 <= k <= |b| ==> row[k] == Lev(a[..i], b[..k])
  }

  /** The inner loop: the row for i characters of a from the row for i - 1. */
  method FillRow(prev: array<nat>, cur: array<nat>, a: string, b: string, i: nat)
    requires 0 < i <= |a| && prev != cur && cur.Length == |b| + 1 && Row(prev[..], a, b, i - 1)
    modifies cur
    ensures Row(cur[..], a, b, i)
  {
    hide Lev;
    assert Lev(a[..i], b[..0]) == i by {
      EmptyRight(a[..i]);
    }
    cur[0] := i;
    for j := 1 to |b| + 1
      invariant forall k :: 0 <= k < j ==> cur[k] == Lev(a[..i], b[..k])
    {
      LevPrefixes(a, b, i, j);
      assert prev[..][j] == prev[j] && prev[..][j - 1] == prev[j - 1];
      var cost := 1;
      if a[i - 1] == b[j - 1] {
        cost := 0;
      }
      cur[j] := Min(Min(prev[j] + 1, cur[j - 1] + 1), prev[j - 1] + cost);
    }
  }

  lemma EmptyRight(a: string)
    ensures Lev(a, "") == |a|
  {
  }

  /** editDistance, with its two rows swapped after every character of a. */
  method Distance(a: string, b: string) returns (d: nat)
    ensures d == Lev(a, b)
  {
    var la, lb := |a|, |b|;
    var prev := new nat[lb + 1];
    var cur := new nat[lb + 1];
    for j := 0 to lb + 1
      invariant forall k :: 0 <= k < j ==> prev[k] == k
    {
      prev[j] := j;
    }
    assert Row(prev[..], a, b, 0);
    hide Lev;
    for i := 1 to la + 1
      invariant prev != cur && prev.Length == cur.Length == lb + 1 && fresh(prev) && fresh(cur)
      invariant Row(prev[..], a, b, i - 1)
    {
      FillRow(prev, cur, a, b, i);
      prev, cur := cur, prev;
    }
    assert a[..la] == a && b[..lb] == b;
    assert prev[..][lb] == prev[lb];
    d := prev[lb];
  }

  // ---------- edit scripts

  /** t arises from s by inserting, deleting or substituting one character. */
  ghost predicate Edit(s: string, t: string) {
    exists u, v, x, y :: IsEdit(s, t, u, v, x, y)
  }

  /** x is what stands between u and v in s, y what stands there in t: at most a character each. */
  ghost predicate IsEdit(s: string, t: string, u: string, v: string, x: string, y: string) {
    s == u + x + v && t == u + y + v && |x| <= 1 && |y| <= 1 && |x| + |y| > 0
  }

  /** A script: a chain of strings, each an edit of the one before. */
  ghost predicate Script(c: seq<string>, a: string, b: string) {
    c != [] && c[0] == a && c[|c| - 1] == b && forall i :: 0 < i < |c| ==> Edit(c[i - 1], c[i])
  }

  lemma Snoc(s: string, x: char)
    ensures (s + [x])[..|s|] == s && (s + [x])[|s|] == x
  {
  }

  /** One character more on the right changes the distance by at most one. */
  lemma {:induction false} OneMore(a: string, b: string, x: char)
    ensures Lev(a, b + [x]) <= Lev(a, b) + 1
    ensures Lev(a, b) <= Lev(a, b + [x]) + 1
    decreases |a|
  {
    Snoc(b, x);
    if a != "" {
      var a' := a[..|a| - 1];
      OneMore(a', b, x);
      LevNear(a, b);
    }
  }

  /** One character less on the left changes the distance by at most one. */
  lemma {:induction false} LevNear(a: string, b: string)
    requires a != ""
    ensures Lev(a, b) <= Lev(a[..|a| - 1], b) + 1
    ensures Lev(a[..|a| - 1], b) <= Lev(a, b) + 1
    decreases |b|
  {
    if b != "" {
      LevNear(a, b[..|b| - 1]);
    }
  }

  lemma LastOf(u: string, x: string, v: string)
    ensures v != "" ==> (u + x + v)[..|u + x + v| - 1] == u + x + v[..|v| - 1]
    ensures v != "" ==> (u + x + v)[|u + x + v| - 1] == v[|v| - 1]
  {
  }

  /** An edit of b changes the distance from a by at most one, wherever in b it happens. */
  lemma {:induction false} EditMoves(a: string, u: string, v: string, x: string, y: string)
    requires |x| <= 1 && |y| <= 1
    ensures Lev(a, u + y + v) <= Lev(a, u + x + v) + 1
    decreases |a| + |v|
  {
    if v == "" {
      assert u + x + v == u + x && u + y + v == u + y;
      EditLast(a, u, x, y);
    } else if a != "" {
      var a', v' := a[..|a| - 1], v[..|v| - 1];
      LastOf(u, x, v);
      LastOf(u, y, v);
      EditMoves(a', u, v, x, y);
      EditMoves(a, u, v', x, y);
      EditMoves(a', u, v', x, y);
    }
  }

  lemma {:induction false} EditLast(a: string, u: string, x: string, y: string)
    requires |x| <= 1 && |y| <= 1
    ensures Lev(a, u + y) <= Lev(a, u + x) + 1
    decreases |a|
  {
    if x == "" && y == "" {
      assert u + x == u && u + y == u;
    } else if x == "" {
      assert u + x == u;
      OneMore(a, u, y[0]);
      assert u + y == u + [y[0]];
    } else if y == "" {
      assert u + y == u;
      OneMore(a, u, x[0]);
      assert u + x == u + [x[0]];
    } else if a != "" {
      EditLast(a[..|a| - 1], u, x, y);
      assert (u + x)[..|u|] == u && (u + y)[..|u|] == u;
    }
  }

  lemma {:induction false} LevSelf(a: string)
    ensures Lev(a, a) == 0
  {
    if a != "" {
      LevSelf(a[..|a| - 1]);
    }
  }

  /** No script is shorter than the distance. */
  lemma {:induction false} ScriptAtLeast(c: seq<string>, a: string, b: string)
    requires Script(c, a, b)
    ensures Lev(a, b) <= |c| - 1
    decreases |c|
  {
    if |c| == 1 {
      LevSelf(a);
    } else {
      var m := |c| - 1;
      ScriptAtLeast(c[..m], a, c[m - 1]);
      assert Edit(c[m - 1], c[m]);
      var u, v, x, y :| IsEdit(c[m - 1], c[m], u, v, x, y);
      EditMoves(a, u, v, x, y);
    }
  }

  lemma EditAt(u: string, v: string, x: string, y: string)
    requires |x| <= 1 && |y| <= 1 && |x| + |y| > 0
    ensures Edit(u + x + v, u + y + v)
  {
    assert IsEdit(u + x + v, u + y + v, u, v, x, y);
  }

  /** Edits at the end of a string: one character appended, dropped or replaced. */
  lemma EditEnd(s: string, p: char, q: char)
    ensures Edit(s, s + [p]) && Edit(s + [p], s) && Edit(s + [p], s + [q])
  {
    EditAt(s, "", "", [p]);
    EditAt(s, "", [p], "");
    EditAt(s, "", [p], [q]);
    assert s + "" + "" == s && s + [p] + "" == s + [p] && s + [q] + "" == s + [q];
  }

  lemma EditBefore(s: string, t: string, p: char)
    requires Edit(s, t)
    ensures Edit(s + [p], t + [p])
  {
    var u, v, x, y :| IsEdit(s, t, u, v, x, y);
    EditAt(u, v + [p], x, y);
    assert s + [p] == u + x + (v + [p]) && t + [p] == u + y + (v + [p]);
  }

  /** The script that leaves the last character p alone. */
  function Lifted(c: seq<string>, p: char): seq<string> {
    seq(|c|, i requires 0 <= i < |c| => c[i] + [p])
  }

  lemma LiftScript(c: seq<string>, a: string, b: string, p: char)
    requires Script(c, a, b)
    ensures Script(Lifted(c, p), a + [p], b + [p])
  {
    var d := Lifted(c, p);
    forall i | 0 < i < |d| ensures Edit(d[i - 1], d[i]) {
      EditBefore(c[i - 1], c[i], p);
    }
  }

  lemma DeleteFirst(a: string, c: seq<string>, b: string)
    requires a != "" && Script(c, a[..|a| - 1], b)
    ensures Script([a] + c, a, b)
  {
    var a' := a[..|a| - 1];
    EditEnd(a', a[|a| - 1], a[|a| - 1]);
    assert a == a' + [a[|a| - 1]];
  }

  lemma InsertLast(a: string, c: seq<string>, b: string)
    requires b != "" && Script(c, a, b[..|b| - 1])
    ensures Script(c + [b], a, b)
  {
    var b' := b[..|b| - 1];
    EditEnd(b', b[|b| - 1], b[|b| - 1]);
    assert b == b' + [b[|b| - 1]];
  }

  lemma KeepOrReplaceLast(a: string, c: seq<string>, b: string)
    requires a != "" && b != "" && Script(c, a[..|a| - 1], b[..|b| - 1])
    ensures var d := Lifted(c, a[|a| - 1]); Script(if a[|a| - 1] == b[|b| - 1] then d else d + [b], a, b)
  {
    var a', p, b', q := a[..|a| - 1], a[|a| - 1], b[..|b| - 1], b[|b| - 1];
    assert a == a' + [p] && b == b' + [q];
    LiftScript(c, a', b', p);
    EditEnd(b', p, q);
  }

  /** Some script is as short as the distance. */
  lemma {:induction false} ShortestScript(a: string, b: string) returns (c: seq<string>)
    ensures Script(c, a, b) && |c| - 1 == Lev(a, b)
    decreases |a| + |b|
  {
    if a == "" && b == "" {
      return [a];
    }
    hide Edit, Script;
    if a != "" && (b == "" || Lev(a, b) == Lev(a[..|a| - 1], b) + 1) {
      c := ShortestScript(a[..|a| - 1], b);
      DeleteFirst(a, c, b);
      c := [a] + c;
    } else if a == "" || Lev(a, b) == Lev(a, b[..|b| - 1]) + 1 {
      c := ShortestScript(a, b[..|b| - 1]);
      InsertLast(a, c, b);
      c := c + [b];
    } else {
      c := ShortestScript(a[..|a| - 1], b[..|b| - 1]);
      KeepOrReplaceLast(a, c, b);
      c := Lifted(c, a[|a| - 1]);
      if a[|a| - 1] != b[|b| - 1] {
        c := c + [b];
      }
    }
  }

  /** The distance is the number of edits in a shortest script. */
  lemma DistanceIsShortest(a: string, b: string)
    ensures exists c :: Script(c, a, b) && |c| - 1 == Lev(a, b)
    ensures forall c :: Script(c, a, b) ==> Lev(a, b) <= |c| - 1
  {
    var c := ShortestScript(a, b);
    forall c' | Script(c', a, b) ensures Lev(a, b) <= |c'| - 1 {
      ScriptAtLeast(c', a, b);
    }
  }

  /** The distance is a metric. */
  lemma {:induction false} ZeroIffEqual(a: string, b: string)
    ensures Lev(a, b) == 0 <==> a == b
  {
    LevSelf(a);
    var c := ShortestScript(a, b);
  }

  lemma EditBack(s: string, t: string)
    requires Edit(s, t)
    ensures Edit(t, s)
  {
    var u, v, x, y :| IsEdit(s, t, u, v, x, y);
    assert IsEdit(t, s, u, v, y, x);
  }

  lemma AtMostSwapped(a: string, b: string)
    ensures Lev(b, a) <= Lev(a, b)
  {
    var c := ShortestScript(a, b);
    var d := seq(|c|, i requires 0 <= i < |c| => c[|c| - 1 - i]);
    forall i | 0 < i < |d| ensures Edit(d[i - 1], d[i]) {
      EditBack(c[|c| - 1 - i], c[|c| - i]);
    }
    ScriptAtLeast(d, b, a);
  }

  lemma {:induction false} Symmetric(a: string, b: string)
    ensures Lev(a, b) == Lev(b, a)
  {
    AtMostSwapped(a, b);
    AtMostSwapped(b, a);
  }

  lemma {:induction false} Triangle(a: string, b: string, c: string)
    ensures Lev(a, c) <= Lev(a, b) + Lev(b, c)
  {
    var s := ShortestScript(a, b);
    var t := ShortestScript(b, c);
    var r := s + t[1..];
    forall i | 0 < i < |r| ensures Edit(r[i - 1], r[i]) {
      if i >= |s| {
        assert r[i] == t[i - |s| + 1] && r[i - 1] == t[i - |s|];
      }
    }
    ScriptAtLeast(r, a, c);
  }
}
