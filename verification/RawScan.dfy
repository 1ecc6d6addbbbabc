/** scanRawVariables: the worklist over nested tokens, and what it reports of each variable. */
module RawScan {
  import opened Wrappers
  import opened VarScan
  import opened VarTokens
  import opened Variables

  predicate Braced(tok: string) {
    "${" <= tok && |tok| >= 3 && tok[|tok| - 1] == '}'
  }

  /** The token t occurs in s, at whatever depth of nesting. */
  ghost predicate Occurs(s: string, t: string)
    decreases |s|
  {
    exists tok :: tok in Toks(s, 0) && Within(s, tok, t)
  }

  /** t is the token tok of s or occurs inside it. */
  ghost predicate Within(s: string, tok: string, t: string)
    requires tok in Toks(s, 0)
    decreases |s|, 0
  {
    tok == t || (Braced(tok) && Occurs(Body(tok), t))
  }

  /** t is the token tok or occurs inside it. */
  ghost predicate AtOrIn(tok: string, t: string) {
    tok == t || (Braced(tok) && Occurs(Body(tok), t))
  }

  /** t is reached from one of the tokens from position i on. */
  ghost predicate Pending(toks: seq<string>, i: nat, t: string) {
    exists k :: i <= k < |toks| && AtOrIn(toks[k], t)
  }

  /** The token names the variable n. */
  predicate Naming(t: string, n: string) {
    t != "$$" && Decodable(t) && n != "" && ParseVarToken(t).name == n
  }

  function HasDefault(t: string): bool
    requires Decodable(t)
  {
    ParseVarToken(t).hasDefault
  }

  /** found reports the variables named by the tokens in done: true when all of those have a default. */
  ghost predicate Reports(found: map<string, bool>, done: set<string>) {
    && (forall n :: n in found <==> exists t :: t in done && Naming(t, n))
    && (forall n :: n in found ==> (found[n] <==> forall t :: t in done && Naming(t, n) ==> HasDefault(t)))
  }

  lemma ReportsSkip(found: map<string, bool>, done: set<string>, tok: string)
    requires Reports(found, done) && forall n :: !Naming(tok, n)
    ensures Reports(found, done + {tok})
  {
    hide Naming, HasDefault;
  }

  lemma ReportsAdd(found: map<string, bool>, done: set<string>, tok: string, n: string)
    requires Reports(found, done) && Naming(tok, n)
    ensures Reports(found[n := (n in found ==> found[n]) && HasDefault(tok)], done + {tok})
  {
    assert forall m :: Naming(tok, m) ==> m == n;
    hide Naming, HasDefault;
    var found' := found[n := (n in found ==> found[n]) && HasDefault(tok)];
    forall m ensures m in found' <==> exists t :: t in done + {tok} && Naming(t, m) {
      if m in found {
        var t :| t in done && Naming(t, m);
        assert t in done + {tok};
      }
      assert m == n ==> tok in done + {tok} && Naming(tok, m);
    }
    forall m | m in found' ensures found'[m] <==> forall t :: t in done + {tok} && Naming(t, m) ==> HasDefault(t) {
      if m == n {
        assert tok in done + {tok};
        if found'[m] {
          forall t | t in done + {tok} && Naming(t, m) ensures HasDefault(t) {
          }
        }
      }
    }
  }

  /** The tokens of a token's body. */
  ghost function Inner(tok: string): seq<string> {
    if Braced(tok) then Toks(Body(tok), 0) else []
  }

  lemma OccursIff(s: string, t: string)
    ensures Occurs(s, t) <==> exists tok :: tok in Toks(s, 0) && AtOrIn(tok, t)
  {
    if Occurs(s, t) {
      var tok :| tok in Toks(s, 0) && Within(s, tok, t);
      assert AtOrIn(tok, t);
    }
    if tok :| tok in Toks(s, 0) && AtOrIn(tok, t) {
      assert Within(s, tok, t);
    }
  }

  /** What occurs in a text: its tokens, and what occurs between the braces of one of them. */
  lemma OccursUnfolds(s: string, t: string)
    ensures Occurs(s, t) <==>
            || t in Toks(s, 0)
            || exists tok :: tok in Toks(s, 0) && "${" <= tok && |tok| >= 3 && Occurs(tok[2..|tok| - 1], t)
  {
    hide Occurs, IsToken;
    OccursIff(s, t);
    forall tok | tok in Toks(s, 0) ensures Braced(tok) <==> "${" <= tok && |tok| >= 3 {
      if "${" <= tok {
        TokenEnds(tok);
      }
    }
    if tok :| tok in Toks(s, 0) && "${" <= tok && |tok| >= 3 && Occurs(tok[2..|tok| - 1], t) {
      assert AtOrIn(tok, t);
    }
    if t in Toks(s, 0) {
      assert AtOrIn(t, t);
    }
  }

  lemma AtOrInIff(tok: string, t: string)
    ensures AtOrIn(tok, t) <==> tok == t || exists x :: x in Inner(tok) && AtOrIn(x, t)
  {
    if Braced(tok) {
      OccursIff(Body(tok), t);
    }
  }

  /** Taking a token off the worklist and adding the tokens of its body reaches the same tokens. */
  lemma PendingNext(toks: seq<string>, i: nat, t: string)
    requires i < |toks|
    ensures Pending(toks, i, t) <==> toks[i] == t || Pending(toks + Inner(toks[i]), i + 1, t)
  {
    var more := toks + Inner(toks[i]);
    AtOrInIff(toks[i], t);
    hide AtOrIn;
    if Pending(toks, i, t) {
      var k :| i <= k < |toks| && AtOrIn(toks[k], t);
      if k == i && toks[i] != t {
        var x :| x in Inner(toks[i]) && AtOrIn(x, t);
        var j :| 0 <= j < |Inner(toks[i])| && Inner(toks[i])[j] == x;
        assert more[|toks| + j] == x;
      } else if k > i {
        assert more[k] == toks[k];
      }
    }
    if Pending(more, i + 1, t) {
      var k :| i + 1 <= k < |more| && AtOrIn(more[k], t);
      if k >= |toks| {
        assert more[k] in Inner(toks[i]);
      }
    }
    if toks[i] == t {
      assert AtOrIn(toks[i], t);
    }
  }

  lemma {:induction false} TotalLenConcat(a: seq<string>, b: seq<string>)
    ensures TotalLen(a + b) == TotalLen(a) + TotalLen(b)
  {
    if a == [] {
      assert a + b == b;
    } else {
      TotalLenConcat(a[1..], b);
      assert (a + b)[1..] == a[1..] + b;
    }
  }

  /** The nested tokens together are shorter than the token they are in. */
  lemma InnerShorter(tok: string)
    requires |tok| >= 1
    ensures TotalLen(Inner(tok)) < |tok|
  {
  }

  method Substrings(s: string, spans: seq<(nat, nat)>) returns (parts: seq<string>)
    requires forall k :: 0 <= k < |spans| ==> spans[k].0 <= spans[k].1 <= |s|
    ensures |parts| == |spans| && forall k :: 0 <= k < |spans| ==> parts[k] == s[spans[k].0..spans[k].1]
  {
    parts := [];
    for k := 0 to |spans|
      invariant |parts| == k && forall j :: 0 <= j < k ==> parts[j] == s[spans[j].0..spans[j].1]
    {
      parts := parts + [s[spans[k].0..spans[k].1]];
    }
  }

  /** The tokens that a scan of s finds. */
  method TokensOf(s: string) returns (toks: seq<string>)
    ensures toks == Toks(s, 0)
  {
    hide *;
    var spans := VarTokenSpans(s);
    ghost var all := ScanToks(s, spans);
    toks := Substrings(s, spans);
    assert toks == all;
  }

  /** The name that a token adds to the report: none for a doubled dollar and for an empty name. */
  method Add(found: map<string, bool>, tok: string, ghost done: set<string>) returns (found': map<string, bool>)
    requires Reports(found, done) && IsToken(tok, 0, |tok|)
    ensures Reports(found', done + {tok})
  {
    TokenDecodable(tok);
    if tok == "$$" || ParseVarToken(tok).name == "" {
      ReportsSkip(found, done, tok);
      return found;
    }
    var p := ParseVarToken(tok);
    ReportsAdd(found, done, tok, p.name);
    if p.name in found {
      found' := found[p.name := found[p.name] && p.hasDefault];
    } else {
      found' := found[p.name := p.hasDefault];
    }
  }

  /** The worklist for one file. */
  method ScanText(s: string, found: map<string, bool>, ghost done: set<string>)
    returns (found': map<string, bool>, ghost done': set<string>)
    requires Reports(found, done)
    ensures Reports(found', done') && forall t :: t in done' <==> t in done || Occurs(s, t)
  {
    found', done' := found, done;
    var toks := TokensOf(s);
    PendingStart(s, toks);
    hide *;
    var i := 0;
    while i < |toks|
      invariant i <= |toks| && Reports(found', done')
      invariant forall k :: i <= k < |toks| ==> IsToken(toks[k], 0, |toks[k]|)
      invariant forall t :: t in done || Occurs(s, t) <==> t in done' || Pending(toks, i, t)
      decreases TotalLen(toks[i..])
    {
      var tok := toks[i];
      TokenShape(tok);
      var inner := [];
      if tok != "$$" && "${" <= tok && tok[|tok| - 1] == '}' {
        inner := TokensOf(tok[2..|tok| - 1]);
      }
      InnerIs(tok, inner);
      found' := Add(found', tok, done');
      Shrinks(toks, i, inner);
      forall t ensures Pending(toks, i, t) <==> tok == t || Pending(toks + inner, i + 1, t) {
        PendingNext(toks, i, t);
      }
      done' := done' + {tok};
      toks := toks + inner;
      i := i + 1;
    }
    PendingNone(toks, i);
  }

  lemma TokenShape(tok: string)
    requires IsToken(tok, 0, |tok|)
    ensures |tok| >= 2 && ("${" <= tok ==> |tok| >= 3)
    ensures tok == "$$" ==> !("${" <= tok)
  {
    TokenDecodable(tok);
  }

  lemma InnerIs(tok: string, inner: seq<string>)
    requires |tok| >= 2 && ("${" <= tok ==> |tok| >= 3)
    requires inner == if tok != "$$" && "${" <= tok && tok[|tok| - 1] == '}' then Toks(tok[2..|tok| - 1], 0) else []
    ensures inner == Inner(tok) && TotalLen(inner) < |tok|
    ensures forall x :: x in inner ==> IsToken(x, 0, |x|)
  {
    InnerShorter(tok);
  }

  lemma Shrinks(toks: seq<string>, i: nat, inner: seq<string>)
    requires i < |toks| && TotalLen(inner) < |toks[i]|
    ensures 0 <= TotalLen((toks + inner)[i + 1..]) < TotalLen(toks[i..])
  {
    assert (toks + inner)[i + 1..] == toks[i + 1..] + inner;
    TotalLenConcat(toks[i + 1..], inner);
    assert toks[i..][1..] == toks[i + 1..];
  }

  lemma PendingStart(s: string, toks: seq<string>)
    requires toks == Toks(s, 0)
    ensures forall t :: Occurs(s, t) <==> Pending(toks, 0, t)
    ensures forall k :: 0 <= k < |toks| ==> IsToken(toks[k], 0, |toks[k]|)
  {
    forall t ensures Occurs(s, t) <==> Pending(toks, 0, t) {
      OccursIff(s, t);
      hide AtOrIn, Occurs;
      if Pending(toks, 0, t) {
        var k :| 0 <= k < |toks| && AtOrIn(toks[k], t);
        assert toks[k] in toks;
      }
    }
    forall k | 0 <= k < |toks| ensures IsToken(toks[k], 0, |toks[k]|) {
      assert toks[k] in toks;
    }
  }

  lemma PendingNone(toks: seq<string>, i: nat)
    requires i >= |toks|
    ensures forall t :: !Pending(toks, i, t)
  {
  }

  /** The token occurs in one of the files that could be read. */
  ghost predicate OccursInSome(raws: seq<Option<string>>, t: string) {
    exists i :: 0 <= i < |raws| && raws[i].Some? && Occurs(raws[i].value, t)
  }

  lemma {:induction false} OccursToken(s: string, t: string)
    requires Occurs(s, t)
    ensures IsToken(t, 0, |t|)
    decreases |s|
  {
    hide IsToken;
    var tok :| tok in Toks(s, 0) && Within(s, tok, t);
    if tok != t {
      OccursToken(Body(tok), t);
    }
  }

  /** The token is for the variable. */
  ghost predicate For(t: string, n: string) {
    t != "$$" && n != "" && ForName(t, n)
  }

  /** It is ${n:-d} or ${n-d} for some d. */
  ghost predicate Defaulted(t: string, n: string) {
    exists d :: WithDefault(t, n, d)
  }

  lemma FormsOf(raws: seq<Option<string>>, t: string, n: string)
    requires OccursInSome(raws, t)
    ensures Naming(t, n) <==> For(t, n)
    ensures Naming(t, n) ==> (HasDefault(t) <==> Defaulted(t, n))
  {
    var i :| 0 <= i < |raws| && raws[i].Some? && Occurs(raws[i].value, t);
    OccursToken(raws[i].value, t);
    hide Occurs, IsToken, ParseVarToken, WithDefault, ForName, Contains;
    ParsedName(t, n);
    ParsedDefault(t, n, ParseVarToken(t).def);
    if d :| WithDefault(t, n, d) {
      ParsedDefault(t, n, d);
    }
    if HasDefault(t) {
      DefaultShape(t);
    }
  }

  lemma DefaultShape(t: string)
    requires Decodable(t) && ParseVarToken(t).hasDefault
    ensures var p := ParseVarToken(t); p == Parsed(p.name, p.def, true, false, Contains(p.def, "${"))
  {
    hide Contains, OperatorAt;
  }

  /** scanRawVariables over the contents of the files, None being a file that cannot be read: a variable is
      reported exactly when some token at some depth is for it, and as true exactly when all of those have a default. */
  method ScanRawVariables(raws: seq<Option<string>>) returns (found: map<string, bool>)
    ensures forall n :: n in found <==> exists t :: OccursInSome(raws, t) && For(t, n)
    ensures forall n :: n in found ==>
        (found[n] <==> forall t :: OccursInSome(raws, t) && For(t, n) ==> Defaulted(t, n))
  {
    found := map[];
    ghost var done := {};
    for i := 0 to |raws|
      invariant Reports(found, done) && forall t :: t in done <==> OccursInSome(raws[..i], t)
    {
      SomeNextFile(raws, i);
      if raws[i].Some? {
        found, done := ScanText(raws[i].value, found, done);
      }
    }
    assert raws[..|raws|] == raws;
    ReportedForms(raws, found, done);
  }

  lemma ReportedForms(raws: seq<Option<string>>, found: map<string, bool>, done: set<string>)
    requires Reports(found, done) && forall t :: t in done <==> OccursInSome(raws, t)
    ensures forall n :: n in found <==> exists t :: OccursInSome(raws, t) && For(t, n)
    ensures forall n :: n in found ==>
        (found[n] <==> forall t :: OccursInSome(raws, t) && For(t, n) ==> Defaulted(t, n))
  {
    hide ParseVarToken, HasDefault, OccursInSome, For, Defaulted;
    forall t, n | OccursInSome(raws, t)
      ensures Naming(t, n) <==> For(t, n)
      ensures Naming(t, n) ==> (HasDefault(t) <==> Defaulted(t, n))
    {
      FormsOf(raws, t, n);
    }
    forall n ensures n in found <==> exists t :: OccursInSome(raws, t) && For(t, n) {
      if n in found {
        var t :| t in done && Naming(t, n);
        assert OccursInSome(raws, t) && For(t, n);
      }
    }
    forall n | n in found
      ensures found[n] <==> forall t :: OccursInSome(raws, t) && For(t, n) ==> Defaulted(t, n)
    {
      if found[n] {
        forall t | OccursInSome(raws, t) && For(t, n) ensures Defaulted(t, n) {
          assert t in done && Naming(t, n);
        }
      } else {
        var t :| t in done && Naming(t, n) && !HasDefault(t);
        assert OccursInSome(raws, t) && For(t, n);
      }
    }
  }

  lemma SomeNextFile(raws: seq<Option<string>>, i: nat)
    requires i < |raws|
    ensures forall t :: OccursInSome(raws[..i + 1], t) <==>
                        OccursInSome(raws[..i], t) || (raws[i].Some? && Occurs(raws[i].value, t))
  {
    hide Occurs;
    forall t
      ensures OccursInSome(raws[..i + 1], t) <==>
              OccursInSome(raws[..i], t) || (raws[i].Some? && Occurs(raws[i].value, t))
    {
      if OccursInSome(raws[..i], t) {
        var k :| 0 <= k < |raws[..i]| && raws[..i][k].Some? && Occurs(raws[..i][k].value, t);
        assert raws[..i + 1][k] == raws[k];
      }
      if raws[i].Some? && Occurs(raws[i].value, t) {
        assert raws[..i + 1][i] == raws[i];
      }
    }
  }
}
