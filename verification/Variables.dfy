/** Lifting compose variables: decoding tokens, recording occurrences, rewriting strings, and the scan for
    variables without a default. */
module Variables {
  import opened Wrappers
  import opened VarScan
  import opened VarTokens
  import opened CueString

  // ---------- recording occurrences

  datatype Occ = Occ(name: string, def: string, hasDefault: bool)

  datatype EnvVar = EnvVar(def: string, hasDefault: bool, bare: bool, warned: bool)

  /** The names of the occurrences, by first appearance. */
  function Names(log: seq<Occ>): seq<string> {
    if log == [] then []
    else
      var before, o := Names(log[..|log| - 1]), log[|log| - 1];
      if o.name in before then before else before + [o.name]
  }

  /** Some occurrence of the name has no default. */
  ghost predicate SomeBare(log: seq<Occ>, name: string) {
    exists i :: 0 <= i < |log| && log[i].name == name && !log[i].hasDefault
  }

  ghost predicate SomeDefault(log: seq<Occ>, name: string) {
    exists i :: 0 <= i < |log| && log[i].name == name && log[i].hasDefault
  }

  /** The default of the first occurrence of the name is d. */
  ghost predicate FirstDefault(log: seq<Occ>, name: string, d: string) {
    exists i :: 0 <= i < |log| && log[i] == Occ(name, d, true) && forall j :: 0 <= j < i ==> log[j].name != name
  }

  /** v is what the occurrences of the name add up to: a default exactly when none is bare, and then the first. */
  ghost predicate Summary(log: seq<Occ>, name: string, v: EnvVar) {
    && v.bare == SomeBare(log, name)
    && v.hasDefault == (SomeDefault(log, name) && !v.bare)
    && v.warned == (SomeDefault(log, name) && v.bare)
    && (if v.hasDefault then FirstDefault(log, name, v.def) else v.def == "")
  }

  lemma NamesHold(log: seq<Occ>, name: string)
    ensures name in Names(log) <==> SomeBare(log, name) || SomeDefault(log, name)
  {
    if log != [] {
      var before, o := log[..|log| - 1], log[|log| - 1];
      NamesHold(before, name);
      SomeNext(before, o, name);
      assert before + [o] == log;
    }
  }

  lemma SomeNext(log: seq<Occ>, o: Occ, name: string)
    ensures SomeBare(log + [o], name) <==> SomeBare(log, name) || (o.name == name && !o.hasDefault)
    ensures SomeDefault(log + [o], name) <==> SomeDefault(log, name) || (o.name == name && o.hasDefault)
  {
    var l := log + [o];
    assert l[|log|] == o;
    if SomeBare(log, name) {
      var i :| 0 <= i < |log| && log[i].name == name && !log[i].hasDefault;
      assert l[i] == log[i];
    }
    if SomeDefault(log, name) {
      var i :| 0 <= i < |log| && log[i].name == name && log[i].hasDefault;
      assert l[i] == log[i];
    }
  }

  lemma FirstNext(log: seq<Occ>, o: Occ, name: string, d: string)
    requires FirstDefault(log, name, d) || (o == Occ(name, d, true) && !SomeBare(log, name) && !SomeDefault(log, name))
    ensures FirstDefault(log + [o], name, d)
  {
    var l := log + [o];
    if FirstDefault(log, name, d) {
      var i :| 0 <= i < |log| && log[i] == Occ(name, d, true) && forall j :: 0 <= j < i ==> log[j].name != name;
      assert l[i] == Occ(name, d, true);
    } else {
      assert l[|log|] == Occ(name, d, true);
    }
  }

  /** envSet: the fields collected so far. The ghost log holds every occurrence recorded. */
  class EnvSet {
    var order: seq<string>
    var vars: map<string, EnvVar>
    const resolved: bool
    ghost var log: seq<Occ>

    ghost predicate Valid()
      reads this
    {
      && order == Names(log)
      && (forall name :: name in vars <==> name in order)
      && (forall name :: name in vars ==> Summary(log, name, vars[name]))
    }

    constructor (resolved: bool)
      ensures Valid() && log == [] && this.resolved == resolved
    {
      order, vars, log := [], map[], [];
      this.resolved := resolved;
    }

    /** record: registers an occurrence and returns the reference to its env field. */
    method Record(name: string, def: string, hasDefault: bool) returns (ref: string)
      requires Valid()
      modifies this
      ensures Valid() && log == old(log) + [Occ(name, def, hasDefault)] && ref == Selector(name)
    {
      ghost var o := Occ(name, def, hasDefault);
      NamesHold(log, name);
      if name !in vars {
        vars := vars[name := EnvVar("", false, false, false)];
        order := order + [name];
      }
      var v := vars[name];
      ghost var before := v;
      if !hasDefault {
        v := v.(bare := true);
      } else if !v.hasDefault && !v.bare {
        v := v.(def := def, hasDefault := true);
      }
      if v.bare && (v.hasDefault || hasDefault) && !v.warned {
        v := v.(warned := true, hasDefault := false, def := "");
      }
      vars := vars[name := v];
      RecordSummary(log, o, before, v);
      forall other | other in old(vars) && other != name ensures Summary(log + [o], other, vars[other]) {
        OthersKeep(log, o, other, vars[other]);
      }
      log := log + [o];
      assert log[..|log| - 1] == old(log);
      ref := Selector(name);
    }

    /** fields: a required string, or one with a default. */
    method Fields() returns (out: seq<(string, Option<string>)>)
      requires Valid()
      ensures |out| == |Names(log)|
      ensures forall i :: 0 <= i < |out| ==> out[i].0 == Names(log)[i]
      ensures forall i :: 0 <= i < |out| ==> (out[i].1.None? <==> SomeBare(log, out[i].0))
      ensures forall i :: 0 <= i < |out| && out[i].1.Some? ==> FirstDefault(log, out[i].0, out[i].1.value)
    {
      out := [];
      for i := 0 to |order|
        invariant |out| == i
        invariant forall j :: 0 <= j < i ==> out[j].0 == order[j]
        invariant forall j :: 0 <= j < i ==> (out[j].1.None? <==> SomeBare(log, out[j].0))
        invariant forall j :: 0 <= j < i && out[j].1.Some? ==> FirstDefault(log, out[j].0, out[j].1.value)
      {
        assert order[i] in order;
        var v := vars[order[i]];
        NamesHold(log, order[i]);
        out := out + [(order[i], if v.hasDefault then Some(v.def) else None)];
      }
    }
  }

  // ---------- what a compose string means

  /** A variable token stands for its env field, a doubled dollar for a dollar. */
  function TokenPieces(tok: string): seq<Piece>
    requires Decodable(tok)
  {
    if tok == "$$" then [Lit('$')] else [Ref(ParseVarToken(tok).name)]
  }

  /** The meaning of s from position i on: tokens from the left, everything else literally. */
  ghost function Meaning(s: string, i: nat): seq<Piece>
    requires i <= |s|
    decreases |s| - i
  {
    if i == |s| then []
    else if e: nat :| IsToken(s, i, e) then
      TokenAlone(s, i, e);
      TokenDecodable(s[i..e]);
      TokenPieces(s[i..e]) + Meaning(s, e)
    else [Lit(s[i])] + Meaning(s, i + 1)
  }

  /** The occurrence that a token records: a default that itself holds a token is not kept. */
  function TokenOcc(tok: string): Occ
    requires Decodable(tok)
  {
    var p := ParseVarToken(tok);
    if p.nested then Occ(p.name, "", false) else Occ(p.name, p.def, p.hasDefault)
  }

  /** The occurrences that a list of tokens records. */
  function Occs(toks: seq<string>): seq<Occ>
    requires forall t :: t in toks ==> Decodable(t)
  {
    if toks == [] then []
    else
      var tok := toks[|toks| - 1];
      Occs(toks[..|toks| - 1]) + if tok == "$$" then [] else [TokenOcc(tok)]
  }

  /** The occurrences that the tokens of s record, from the left. */
  ghost function TokenLog(s: string): seq<Occ> {
    ToksDecodable(s);
    Occs(Toks(s, 0))
  }

  lemma ToksDecodable(s: string)
    ensures forall t :: t in Toks(s, 0) ==> Decodable(t)
  {
    forall t | t in Toks(s, 0) ensures Decodable(t) {
      TokenDecodable(t);
    }
  }

  lemma MeaningAt(s: string, i: nat, e: nat)
    requires IsToken(s, i, e)
    ensures Decodable(s[i..e]) && Meaning(s, i) == TokenPieces(s[i..e]) + Meaning(s, e)
  {
    TokenAlone(s, i, e);
    TokenDecodable(s[i..e]);
    forall f: nat | IsToken(s, i, f) ensures f == e {
      TokenUnique(s, i, e, f);
    }
    hide Decodable, TokenPieces, ClosedBy, NameStart, NameChar;
  }

  /** A token means a dollar, or a reference to the variable that it is for. */
  lemma MeaningOfToken(s: string, i: nat, e: nat, n: string)
    requires IsToken(s, i, e) && (s[i..e] == "$$" || ForName(s[i..e], n))
    ensures Meaning(s, i) == (if s[i..e] == "$$" then [Lit('$')] else [Ref(n)]) + Meaning(s, e)
  {
    MeaningAt(s, i, e);
    TokenAlone(s, i, e);
    assert e - i == |s[i..e]|;
    hide Meaning, IsToken, ForName, ParseVarToken;
    ParsedName(s[i..e], n);
  }

  lemma MeaningNoToken(s: string, i: nat)
    requires i < |s| && NoToken(s, i)
    ensures Meaning(s, i) == [Lit(s[i])] + Meaning(s, i + 1)
  {
  }

  /** A stretch in which no token starts means its characters. */
  lemma {:induction false} MeaningOfGap(s: string, i: nat, e: nat)
    requires i <= e <= |s| && forall p: nat :: i <= p < e ==> NoToken(s, p)
    ensures Meaning(s, i) == Lits(s[i..e]) + Meaning(s, e)
    decreases e - i
  {
    hide Meaning, NoToken;
    if i == e {
      assert Lits(s[i..e]) == [];
    } else {
      MeaningOfGap(s, i + 1, e);
      MeaningNoToken(s, i);
      assert s[i..e] == [s[i]] + s[i + 1..e];
      assert Lits(s[i..e]) == [Lit(s[i])] + Lits(s[i + 1..e]);
    }
  }

  lemma SayableToken(tok: string)
    requires Decodable(tok) && NoBytes(tok)
    ensures AllSayable(TokenPieces(tok))
  {
    OneSayable(TokenPieces(tok)[0]);
    if tok != "$$" {
      var name := ParseVarToken(tok).name;
      forall i | 0 <= i < |name| ensures name[i] in tok {
        assert "${" <= tok ==> name[i] == tok[i + 2];
      }
      hide IsByte, ParseVarToken;
      assert forall c :: c in tok ==> !IsByte(c);
    }
  }

  /** In a string without such characters there is nothing that would not read back. */
  lemma {:induction false} SayableMeaning(s: string, i: nat)
    requires i <= |s| && NoBytes(s)
    ensures AllSayable(Meaning(s, i))
    decreases |s| - i
  {
    hide IsByte, Sayable, Decodable, TokenPieces;
    if i < |s| {
      if e: nat :| IsToken(s, i, e) {
        MeaningAt(s, i, e);
        TokenAlone(s, i, e);
        assert NoBytes(s[i..e]);
        SayableToken(s[i..e]);
        SayableMeaning(s, e);
        hide Meaning, AllSayable;
        BothSayable(TokenPieces(s[i..e]), Meaning(s, e));
      } else {
        assert Meaning(s, i) == [Lit(s[i])] + Meaning(s, i + 1);
        SayableMeaning(s, i + 1);
        hide Meaning;
        SayableLits([s[i]]);
        assert Lits([s[i]]) == [Lit(s[i])];
        BothSayable([Lit(s[i])], Meaning(s, i + 1));
      }
    }
  }

  /** Between two spans of a scan no token starts. */
  lemma GapBetween(s: string, spans: seq<(nat, nat)>, k: nat, p: nat)
    requires IsScan(s, spans, |s|) && k <= |spans| && p < |s|
    requires (k > 0 ==> spans[k - 1].1 <= p) && (k < |spans| ==> p < spans[k].0)
    ensures NoToken(s, p)
  {
    forall j | 0 <= j < |spans| ensures !(spans[j].0 <= p < spans[j].1) {
      assert IsToken(s, spans[j].0, spans[j].1);
      if j < k {
        assert j < k - 1 ==> spans[j].1 <= spans[k - 1].0;
        assert IsToken(s, spans[k - 1].0, spans[k - 1].1);
      } else {
        assert k < j ==> spans[k].1 <= spans[j].0;
        assert IsToken(s, spans[k].0, spans[k].1);
      }
    }
    assert !Inside(spans, p);
  }

  /** Rewriting has reached position last, after k spans: the pieces so far and the rest make up the meaning. */
  ghost predicate Reached(s: string, spans: seq<(nat, nat)>, k: nat, last: nat, pieces: seq<Piece>) {
    && IsScan(s, spans, |s|) && k <= |spans| && last <= |s|
    && last == (if k == 0 then 0 else spans[k - 1].1)
    && pieces + Meaning(s, last) == Meaning(s, 0)
  }

  lemma ReachedStart(s: string, spans: seq<(nat, nat)>)
    requires IsScan(s, spans, |s|)
    ensures Reached(s, spans, 0, 0, [])
  {
    assert [] + Meaning(s, 0) == Meaning(s, 0);
  }

  lemma SpanAfter(s: string, spans: seq<(nat, nat)>, k: nat, last: nat, pieces: seq<Piece>)
    requires Reached(s, spans, k, last, pieces) && k < |spans|
    ensures last <= spans[k].0 < spans[k].1 <= |s| && IsToken(s, spans[k].0, spans[k].1)
    ensures Decodable(s[spans[k].0..spans[k].1])
  {
    assert IsToken(s, spans[k].0, spans[k].1);
    MeaningAt(s, spans[k].0, spans[k].1);
    if k > 0 {
      assert spans[k - 1].1 <= spans[k].0;
    }
  }

  lemma ReachedNext(s: string, spans: seq<(nat, nat)>, k: nat, last: nat, pieces: seq<Piece>)
    requires Reached(s, spans, k, last, pieces) && k < |spans|
    requires last <= spans[k].0 < spans[k].1 <= |s| && IsToken(s, spans[k].0, spans[k].1)
    requires Decodable(s[spans[k].0..spans[k].1])
    ensures Reached(s, spans, k + 1, spans[k].1,
        pieces + Lits(s[last..spans[k].0]) + TokenPieces(s[spans[k].0..spans[k].1]))
  {
    var i, e := spans[k].0, spans[k].1;
    forall p: nat | last <= p < i ensures NoToken(s, p) {
      GapBetween(s, spans, k, p);
    }
    MeaningOfGap(s, last, i);
    MeaningAt(s, i, e);
    hide IsScan, Meaning, TokenPieces;
    var gap, tok := Lits(s[last..i]), TokenPieces(s[i..e]);
    assert pieces + (gap + (tok + Meaning(s, e))) == pieces + gap + tok + Meaning(s, e);
  }

  lemma ReachedEnd(s: string, spans: seq<(nat, nat)>, last: nat, pieces: seq<Piece>)
    requires Reached(s, spans, |spans|, last, pieces)
    ensures pieces + Lits(s[last..]) == Meaning(s, 0)
  {
    hide Meaning, NoToken, IsScan, Lits;
    forall p: nat | last <= p < |s| ensures NoToken(s, p) {
      GapBetween(s, spans, |spans|, p);
    }
    MeaningOfGap(s, last, |s|);
    assert s[last..|s|] == s[last..];
    MeaningEnd(s);
    assert Lits(s[last..]) + [] == Lits(s[last..]);
  }

  lemma MeaningEnd(s: string)
    ensures Meaning(s, |s|) == []
  {
  }

  /** Without a dollar there is no token. */
  lemma NoDollar(s: string)
    requires '$' !in s
    ensures Meaning(s, 0) == Lits(s) && TokenLog(s) == []
  {
    forall p: nat | p < |s| ensures NoToken(s, p) {
    }
    MeaningOfGap(s, 0, |s|);
    assert s[0..|s|] == s;
    NoDollarToks(s, 0);
  }

  lemma {:induction false} NoDollarToks(s: string, i: nat)
    requires i <= |s| && '$' !in s
    ensures Toks(s, i) == []
    decreases |s| - i
  {
    if i < |s| {
      NoDollarToks(s, i + 1);
      ToksAt(s, i, 0);
    }
  }

  lemma ScanToks(s: string, spans: seq<(nat, nat)>) returns (toks: seq<string>)
    requires IsScan(s, spans, |s|)
    ensures toks == Toks(s, 0) && |toks| == |spans| && forall t :: t in toks ==> Decodable(t)
    ensures forall k :: 0 <= k < |spans| ==> spans[k].0 <= spans[k].1 <= |s| && toks[k] == s[spans[k].0..spans[k].1]
  {
    assert Ahead(s, spans, 0);
    ScanCutsToks(s, spans, 0);
    ToksDecodable(s);
    toks := Cut(s, spans);
  }

  ghost function OccsUpTo(toks: seq<string>, k: nat): seq<Occ>
    requires k <= |toks| && forall t :: t in toks ==> Decodable(t)
  {
    Occs(toks[..k])
  }

  lemma OccsEnds(s: string, toks: seq<string>)
    requires toks == Toks(s, 0) && forall t :: t in toks ==> Decodable(t)
    ensures OccsUpTo(toks, 0) == [] && OccsUpTo(toks, |toks|) == TokenLog(s)
  {
    assert toks[..|toks|] == toks;
  }

  lemma OccsNext(toks: seq<string>, k: nat)
    requires k < |toks| && forall t :: t in toks ==> Decodable(t)
    ensures Decodable(toks[k])
    ensures OccsUpTo(toks, k + 1) == OccsUpTo(toks, k) + if toks[k] == "$$" then [] else [TokenOcc(toks[k])]
  {
    assert toks[k] in toks && toks[..k + 1][..k] == toks[..k];
  }

  /** The occurrence is the one of the token, by its form: the default of ${name:-d} or ${name-d}, unless a token opens
      in it, and else the bare name. */
  ghost predicate Records(tok: string, o: Occ) {
    if o.hasDefault then WithDefault(tok, o.name, o.def) && forall i: nat :: !Opening(o.def, i)
    else o.def == "" && ForName(tok, o.name)
         && forall d :: WithDefault(tok, o.name, d) ==> exists i: nat :: Opening(d, i)
  }

  lemma TokenRecords(tok: string)
    requires IsToken(tok, 0, |tok|) && tok != "$$"
    ensures Decodable(tok) && Records(tok, TokenOcc(tok))
  {
    TokenDecodable(tok);
    var p, o := ParseVarToken(tok), TokenOcc(tok);
    hide IsToken, ParseVarToken, WithDefault, ForName, Opening, Contains;
    ParsedName(tok, p.name);
    ParsedDefault(tok, p.name, p.def);
    ContainsOpening(p.def);
    if !o.hasDefault {
      forall d | WithDefault(tok, o.name, d) ensures exists i: nat :: Opening(d, i) {
        ParsedDefault(tok, o.name, d);
        ContainsOpening(d);
      }
    }
  }

  /** The tokens that are for a variable. */
  function VarTokensOf(toks: seq<string>): seq<string> {
    if toks == [] then []
    else
      var tok := toks[|toks| - 1];
      VarTokensOf(toks[..|toks| - 1]) + if tok == "$$" then [] else [tok]
  }

  /** One occurrence for each token that is for a variable, in order. */
  ghost predicate Recorded(toks: seq<string>, log: seq<Occ>) {
    |log| == |VarTokensOf(toks)| && forall i :: 0 <= i < |log| ==> Records(VarTokensOf(toks)[i], log[i])
  }

  lemma {:induction false} OccsRecorded(toks: seq<string>)
    requires forall t :: t in toks ==> IsToken(t, 0, |t|)
    ensures forall t :: t in toks ==> Decodable(t)
    ensures Recorded(toks, Occs(toks))
  {
    hide IsToken, Records;
    forall t | t in toks ensures Decodable(t) {
      TokenDecodable(t);
    }
    if toks != [] {
      var before, tok := toks[..|toks| - 1], toks[|toks| - 1];
      OccsRecorded(before);
      hide TokenOcc, Decodable;
      if tok != "$$" {
        TokenRecords(tok);
      }
    }
  }

  lemma LogRecorded(s: string, log: seq<Occ>)
    requires log == TokenLog(s)
    ensures Recorded(Toks(s, 0), log)
  {
    OccsRecorded(Toks(s, 0));
  }

  lemma EmitsToken(tok: string)
    requires Decodable(tok)
    ensures Emits(if tok == "$$" then "$" else "\\(" + Selector(ParseVarToken(tok).name) + ")", TokenPieces(tok))
  {
    hide Emits, ParseVarToken;
    if tok == "$$" {
      EmitsChar('$');
    } else {
      EmitsRef(ParseVarToken(tok).name);
    }
  }

  /** The part of rewrite for one token: a dollar, or an interpolation of the recorded variable. */
  method RewriteToken(env: EnvSet, tok: string) returns (text: string)
    requires env.Valid() && Decodable(tok)
    modifies env
    ensures env.Valid() && Emits(text, TokenPieces(tok))
    ensures env.log == old(env.log) + if tok == "$$" then [] else [TokenOcc(tok)]
  {
    EmitsToken(tok);
    if tok == "$$" {
      return "$";
    }
    hide Emits, TokenPieces, EnvSet.Valid;
    var p := ParseVarToken(tok);
    var def, hasDefault := p.def, p.hasDefault;
    if p.nested {
      def, hasDefault := "", false;
    }
    var ref := env.Record(p.name, def, hasDefault);
    text := "\\(" + ref + ")";
  }

  /** The text b written so far, up to position last, emits the pieces that the tokens and gaps there mean. */
  ghost predicate Written(s: string, spans: seq<(nat, nat)>, k: nat, last: nat, b: string) {
    exists pieces :: Emits(b, pieces) && Reached(s, spans, k, last, pieces)
  }

  lemma WrittenStart(s: string, spans: seq<(nat, nat)>)
    requires IsScan(s, spans, |s|)
    ensures Written(s, spans, 0, 0, "")
  {
    EmitsNothing();
    ReachedStart(s, spans);
  }

  lemma WrittenBounds(s: string, spans: seq<(nat, nat)>, k: nat, last: nat, b: string)
    requires Written(s, spans, k, last, b)
    ensures last <= |s|
    ensures k < |spans| ==> last <= spans[k].0 < spans[k].1 <= |s| && Decodable(s[spans[k].0..spans[k].1])
  {
    var pieces :| Emits(b, pieces) && Reached(s, spans, k, last, pieces);
    if k < |spans| {
      SpanAfter(s, spans, k, last, pieces);
    }
  }

  lemma WrittenNext(s: string, spans: seq<(nat, nat)>, k: nat, last: nat, b: string, text: string)
    requires Written(s, spans, k, last, b) && k < |spans| && last <= spans[k].0 < spans[k].1 <= |s|
    requires Decodable(s[spans[k].0..spans[k].1]) && Emits(text, TokenPieces(s[spans[k].0..spans[k].1]))
    ensures Written(s, spans, k + 1, spans[k].1, b + QuoteInner(s[last..spans[k].0]) + text)
  {
    hide Emits, Reached, TokenPieces, Decodable;
    var pieces :| Emits(b, pieces) && Reached(s, spans, k, last, pieces);
    var gap, tok := s[last..spans[k].0], s[spans[k].0..spans[k].1];
    SpanAfter(s, spans, k, last, pieces);
    ReachedNext(s, spans, k, last, pieces);
    EmitsInner(gap);
    EmitsConcat(b, pieces, QuoteInner(gap), Lits(gap));
    EmitsConcat(b + QuoteInner(gap), pieces + Lits(gap), text, TokenPieces(tok));
  }

  lemma WrittenEnd(s: string, spans: seq<(nat, nat)>, last: nat, b: string)
    requires Written(s, spans, |spans|, last, b) && last <= |s|
    ensures ReadString("\"" + (b + QuoteInner(s[last..])) + "\"")
            == if AllSayable(Meaning(s, 0)) then Some(Meaning(s, 0)) else None
  {
    hide Emits, Reached, Meaning;
    var pieces :| Emits(b, pieces) && Reached(s, spans, |spans|, last, pieces);
    ReachedEnd(s, spans, last, pieces);
    EmitsInner(s[last..]);
    EmitsConcat(b, pieces, QuoteInner(s[last..]), Lits(s[last..]));
    EmitsString(b + QuoteInner(s[last..]), Meaning(s, 0));
  }

  /** The part of rewrite that walks the spans. */
  method Interpolate(env: EnvSet, s: string) returns (out: string)
    requires env.Valid()
    modifies env
    ensures env.Valid() && ReadString(out) == if AllSayable(Meaning(s, 0)) then Some(Meaning(s, 0)) else None
    ensures env.log == old(env.log) + TokenLog(s)
  {
    hide *;
    var spans := VarTokenSpans(s);
    ghost var toks := ScanToks(s, spans);
    WrittenStart(s, spans);
    OccsEnds(s, toks);
    var b := "";
    var last: nat := 0;
    for k := 0 to |spans|
      invariant env.Valid() && Written(s, spans, k, last, b)
      invariant env.log == old(env.log) + OccsUpTo(toks, k)
    {
      var loc := spans[k];
      WrittenBounds(s, spans, k, last, b);
      OccsNext(toks, k);
      var gap, tok := s[last..loc.0], s[loc.0..loc.1];
      var text := RewriteToken(env, tok);
      WrittenNext(s, spans, k, last, b, text);
      b := b + QuoteInner(gap) + text;
      last := loc.1;
    }
    WrittenBounds(s, spans, |spans|, last, b);
    WrittenEnd(s, spans, last, b);
    out := "\"" + (b + QuoteInner(s[last..])) + "\"";
  }

  /** rewrite: the CUE string literal for a compose string. */
  method Rewrite(env: EnvSet, s: string) returns (out: string)
    requires env.Valid()
    modifies env
    ensures env.Valid()
    ensures var means := if env.resolved then Lits(s) else Meaning(s, 0);
            ReadString(out) == if AllSayable(means) then Some(means) else None
    ensures env.log == if env.resolved then old(env.log) else old(env.log) + TokenLog(s)
    ensures Recorded(Toks(s, 0), TokenLog(s))
  {
    LogRecorded(s, TokenLog(s));
    hide Recorded;
    if env.resolved || '$' !in s {
      EmitsInner(s);
      EmitsString(QuoteInner(s), Lits(s));
      if '$' !in s {
        NoDollar(s);
      }
      return Quote(s);
    }
    out := Interpolate(env, s);
  }

  /** What Record makes of the variable: before is its entry, fresh or found, v the entry after. */
  lemma RecordSummary(log: seq<Occ>, o: Occ, before: EnvVar, v: EnvVar)
    requires Summary(log, o.name, before)
    requires var w := if !o.hasDefault then before.(bare := true)
                      else if !before.hasDefault && !before.bare then before.(def := o.def, hasDefault := true)
                      else before;
             v == if w.bare && (w.hasDefault || o.hasDefault) && !w.warned
                 then w.(warned := true, hasDefault := false, def := "") else w
    ensures Summary(log + [o], o.name, v)
  {
    SomeNext(log, o, o.name);
    if v.hasDefault {
      FirstNext(log, o, o.name, v.def);
    }
  }

  lemma OthersKeep(log: seq<Occ>, o: Occ, name: string, v: EnvVar)
    requires Summary(log, name, v) && o.name != name
    ensures Summary(log + [o], name, v)
  {
    SomeNext(log, o, name);
    if v.hasDefault {
      FirstNext(log, o, name, v.def);
    }
  }
}
