/** Finding compose interpolation tokens in a string: $$, $NAME, and ${...} with nested braces. */
module VarScan {

  predicate NameStart(c: char) {
    c == '_' || 'a' <= c <= 'z' || 'A' <= c <= 'Z'
  }

  predicate NameChar(c: char) {
    NameStart(c) || '0' <= c <= '9'
  }

  /** The characters of a variable name by their codes: an underscore, the letters, and after the first the digits. */
  lemma NameCodes(c: char)
    ensures NameStart(c) <==> c as int == 95 || 65 <= c as int <= 90 || 97 <= c as int <= 122
    ensures NameChar(c) <==> c as int == 95 || 65 <= c as int <= 90 || 97 <= c as int <= 122 || 48 <= c as int <= 57
  {
  }

  /** Opening minus closing braces in s[a..j]. */
  ghost function Depth(s: string, a: nat, j: nat): int
    requires a <= j <= |s|
    decreases j - a
  {
    if j == a then 0
    else Depth(s, a, j - 1) + if s[j - 1] == '{' then 1 else if s[j - 1] == '}' then -1 else 0
  }

  /** The brace at a is closed just before e: the depth returns to zero there for the first time. */
  ghost predicate ClosedBy(s: string, a: nat, e: nat) {
    a < e <= |s| && Depth(s, a, e) == 0 && forall k :: a < k < e ==> Depth(s, a, k) > 0
  }

  /** s[i..e] is an interpolation token. */
  ghost predicate IsToken(s: string, i: nat, e: nat) {
    && i + 1 < |s| && i + 2 <= e <= |s| && s[i] == '$'
    && if s[i + 1] == '$' then e == i + 2
       else if s[i + 1] == '{' then ClosedBy(s, i + 1, e)
       else NameStart(s[i + 1]) && (forall k :: i < k < e ==> NameChar(s[k])) && (e < |s| ==> !NameChar(s[e]))
  }

  ghost predicate NoToken(s: string, i: nat) {
    forall e: nat :: !IsToken(s, i, e)
  }

  lemma TokenUnique(s: string, i: nat, e: nat, f: nat)
    requires IsToken(s, i, e) && IsToken(s, i, f)
    ensures e == f
  {
  }

  /** Spans in order, each a token, and no token starts outside of them. */
  ghost predicate IsScan(s: string, spans: seq<(nat, nat)>, upTo: nat) {
    && (forall k :: 0 <= k < |spans| ==> IsToken(s, spans[k].0, spans[k].1) && spans[k].1 <= upTo)
    && (forall j, k :: 0 <= j < k < |spans| ==> spans[j].1 <= spans[k].0)
    && (forall p: nat :: p < upTo && !Inside(spans, p) ==> NoToken(s, p))
  }

  ghost predicate Inside(spans: seq<(nat, nat)>, p: nat) {
    exists k :: 0 <= k < |spans| && spans[k].0 <= p < spans[k].1
  }

  lemma AddSpan(s: string, spans: seq<(nat, nat)>, i: nat, e: nat)
    requires IsScan(s, spans, i) && IsToken(s, i, e)
    ensures IsScan(s, spans + [(i, e)], e)
  {
    forall p: nat | p < e && !Inside(spans + [(i, e)], p) ensures NoToken(s, p) {
      InsideMore(spans, (i, e), p);
    }
  }

  lemma InsideMore(spans: seq<(nat, nat)>, x: (nat, nat), p: nat)
    ensures Inside(spans + [x], p) <==> Inside(spans, p) || x.0 <= p < x.1
  {
    var more := spans + [x];
    assert more[|spans|] == x;
    if Inside(spans, p) {
      var k :| 0 <= k < |spans| && spans[k].0 <= p < spans[k].1;
      assert more[k] == spans[k];
    }
  }

  lemma InsideTail(spans: seq<(nat, nat)>, p: nat)
    requires spans != []
    ensures Inside(spans, p) <==> Inside(spans[1..], p) || spans[0].0 <= p < spans[0].1
  {
    if Inside(spans, p) {
      var k :| 0 <= k < |spans| && spans[k].0 <= p < spans[k].1;
      assert k > 0 ==> spans[1..][k - 1] == spans[k];
    }
    if Inside(spans[1..], p) {
      var k :| 0 <= k < |spans[1..]| && spans[1..][k].0 <= p < spans[1..][k].1;
      assert spans[k + 1] == spans[1..][k];
    }
  }

  lemma AddGap(s: string, spans: seq<(nat, nat)>, i: nat)
    requires IsScan(s, spans, i) && NoToken(s, i)
    ensures IsScan(s, spans, i + 1)
  {
  }

  /** The brace matcher of varTokenSpans, started at the brace s[a]. */
  method MatchBrace(s: string, a: nat) returns (closed: bool, e: nat)
    requires a < |s| && s[a] == '{'
    ensures closed ==> ClosedBy(s, a, e)
    ensures !closed ==> forall f: nat :: !ClosedBy(s, a, f)
  {
    var depth, j := 0, a;
    while j < |s|
      invariant a <= j <= |s| && depth == Depth(s, a, j)
      invariant forall k :: a < k <= j ==> Depth(s, a, k) > 0
    {
      if s[j] == '{' {
        depth := depth + 1;
      } else if s[j] == '}' {
        depth := depth - 1;
        if depth == 0 {
          return true, j + 1;
        }
      }
      j := j + 1;
    }
    return false, j;
  }

  /** varTokenSpans */
  method VarTokenSpans(s: string) returns (spans: seq<(nat, nat)>)
    ensures IsScan(s, spans, |s|)
  {
    spans := [];
    var i := 0;
    while i < |s|
      invariant i <= |s| && IsScan(s, spans, i)
    {
      if s[i] != '$' || i + 1 >= |s| {
        AddGap(s, spans, i);
        i := i + 1;
        continue;
      }
      var c := s[i + 1];
      if c == '$' {
        AddSpan(s, spans, i, i + 2);
        spans := spans + [(i, i + 2)];
        i := i + 2;
      } else if c == '{' {
        var closed, j := MatchBrace(s, i + 1);
        if !closed {
          AddGap(s, spans, i);
          AddGap(s, spans, i + 1);
          i := i + 2;
          continue;
        }
        Brace(s, i + 1, j);
        AddSpan(s, spans, i, j);
        spans := spans + [(i, j)];
        i := j;
      } else if NameStart(c) {
        var j := i + 1;
        while j < |s| && NameChar(s[j])
          invariant i + 1 <= j <= |s| && forall k :: i < k < j ==> NameChar(s[k])
        {
          j := j + 1;
        }
        AddSpan(s, spans, i, j);
        spans := spans + [(i, j)];
        i := j;
      } else {
        AddGap(s, spans, i);
        i := i + 1;
      }
    }
  }

  /** A closed brace group has at least its two braces, and ends with one. */
  lemma Brace(s: string, a: nat, e: nat)
    requires a < |s| && s[a] == '{' && ClosedBy(s, a, e)
    ensures a + 2 <= e && s[e - 1] == '}'
  {
    assert Depth(s, a, a + 1) == 1;
    if e > a + 1 {
      assert Depth(s, a, e - 1) > 0;
    }
  }

  // ---------- the tokens of a string, from the left

  /** The tokens that a reader meets going from left to right, starting at i. */
  ghost function Toks(s: string, i: nat): (toks: seq<string>)
    requires i <= |s|
    ensures TotalLen(toks) <= |s| - i
    ensures forall t :: t in toks ==> 2 <= |t| <= |s| - i && IsToken(t, 0, |t|)
    decreases |s| - i
  {
    if i == |s| then []
    else if e: nat :| IsToken(s, i, e) then
      TokenAlone(s, i, e);
      [s[i..e]] + Toks(s, e)
    else Toks(s, i + 1)
  }

  function TotalLen(toks: seq<string>): nat {
    if toks == [] then 0 else |toks[0]| + TotalLen(toks[1..])
  }

  lemma {:induction false} DepthAlone(s: string, i: nat, e: nat, a: nat, j: nat)
    requires i <= a <= j <= e <= |s|
    ensures Depth(s[i..e], a - i, j - i) == Depth(s, a, j)
    decreases j - a
  {
    if a < j {
      DepthAlone(s, i, e, a, j - 1);
    }
  }

  /** A token taken out of its string is a token. */
  lemma TokenAlone(s: string, i: nat, e: nat)
    requires IsToken(s, i, e)
    ensures IsToken(s[i..e], 0, e - i)
  {
    var t := s[i..e];
    if s[i + 1] == '{' {
      DepthAlone(s, i, e, i + 1, e);
      forall k | 1 < k < e - i ensures Depth(t, 1, k) > 0 {
        DepthAlone(s, i, e, i + 1, i + k);
      }
    }
  }

  /** The substrings that a scan cuts out. */
  ghost function Cut(s: string, spans: seq<(nat, nat)>): seq<string>
    requires forall k :: 0 <= k < |spans| ==> spans[k].0 <= spans[k].1 <= |s|
  {
    seq(|spans|, k requires 0 <= k < |spans| => s[spans[k].0..spans[k].1])
  }

  /** The spans of a scan from position i on; no token starts before the first of them. */
  ghost predicate Ahead(s: string, spans: seq<(nat, nat)>, i: nat) {
    && i <= |s|
    && (forall k :: 0 <= k < |spans| ==> IsToken(s, spans[k].0, spans[k].1) && i <= spans[k].0)
    && (forall j, k :: 0 <= j < k < |spans| ==> spans[j].1 <= spans[k].0)
    && (forall p: nat :: i <= p < |s| && !Inside(spans, p) ==> NoToken(s, p))
  }

  lemma AheadNext(s: string, spans: seq<(nat, nat)>, i: nat)
    requires Ahead(s, spans, i) && i < |s|
    ensures spans != [] && spans[0].0 == i ==> Ahead(s, spans[1..], spans[0].1)
    ensures spans == [] || spans[0].0 != i ==> NoToken(s, i) && Ahead(s, spans, i + 1)
  {
    if spans != [] && spans[0].0 == i {
      forall p: nat | spans[0].1 <= p < |s| && !Inside(spans[1..], p) ensures NoToken(s, p) {
        InsideTail(spans, p);
      }
    } else {
      assert !Inside(spans, i);
    }
  }

  lemma ToksAt(s: string, i: nat, e: nat)
    requires i < |s|
    ensures IsToken(s, i, e) ==> Toks(s, i) == [s[i..e]] + Toks(s, e)
    ensures NoToken(s, i) ==> Toks(s, i) == Toks(s, i + 1)
  {
    if IsToken(s, i, e) {
      var f: nat :| IsToken(s, i, f) && Toks(s, i) == [s[i..f]] + Toks(s, f);
      TokenUnique(s, i, e, f);
    }
  }

  lemma AheadBounds(s: string, spans: seq<(nat, nat)>, i: nat)
    requires Ahead(s, spans, i)
    ensures i <= |s| && forall k :: 0 <= k < |spans| ==> spans[k].0 <= spans[k].1 <= |s|
    ensures spans != [] ==> IsToken(s, spans[0].0, spans[0].1) && i <= spans[0].0 < spans[0].1
    ensures i == |s| ==> spans == []
  {
    assert forall k :: 0 <= k < |spans| ==> IsToken(s, spans[k].0, spans[k].1);
  }

  lemma CutFirst(s: string, spans: seq<(nat, nat)>)
    requires spans != [] && forall k :: 0 <= k < |spans| ==> spans[k].0 <= spans[k].1 <= |s|
    ensures Cut(s, spans) == [s[spans[0].0..spans[0].1]] + Cut(s, spans[1..])
  {
  }

  lemma CutNone(s: string)
    ensures Cut(s, []) == [] && Toks(s, |s|) == []
  {
  }

  /** A scan cuts out exactly the tokens met from left to right. */
  lemma {:induction false} ScanCutsToks(s: string, spans: seq<(nat, nat)>, i: nat)
    requires Ahead(s, spans, i)
    ensures Cut(s, spans) == Toks(s, i)
    decreases |s| - i
  {
    hide *;
    AheadBounds(s, spans, i);
    if i == |s| {
      CutNone(s);
    } else {
      AheadNext(s, spans, i);
      if spans != [] && spans[0].0 == i {
        ToksAt(s, i, spans[0].1);
        ScanCutsToks(s, spans[1..], spans[0].1);
        CutFirst(s, spans);
      } else {
        ToksAt(s, i, 0);
        ScanCutsToks(s, spans, i + 1);
      }
    }
  }

  lemma StartsAlike(s: string, a: seq<(nat, nat)>, b: seq<(nat, nat)>, i: nat)
    requires Ahead(s, a, i) && Ahead(s, b, i) && i < |s|
    ensures a != [] && a[0].0 == i ==> b != [] && b[0] == a[0]
  {
    AheadNext(s, b, i);
    if a != [] && a[0].0 == i {
      assert IsToken(s, i, a[0].1);
      TokenUnique(s, i, a[0].1, b[0].1);
    }
  }

  /** There is one scan of a string. */
  lemma {:induction false} ScanUnique(s: string, a: seq<(nat, nat)>, b: seq<(nat, nat)>, i: nat)
    requires Ahead(s, a, i) && Ahead(s, b, i)
    ensures a == b
    decreases |s| - i
  {
    if i < |s| {
      StartsAlike(s, a, b, i);
      StartsAlike(s, b, a, i);
      AheadNext(s, a, i);
      AheadNext(s, b, i);
      if a != [] && a[0].0 == i {
        ScanUnique(s, a[1..], b[1..], a[0].1);
        assert a == [a[0]] + a[1..] && b == [b[0]] + b[1..];
      } else {
        ScanUnique(s, a, b, i + 1);
      }
    }
  }
}
