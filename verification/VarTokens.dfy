/** Decoding an interpolation token, and the forms it has: name, default, alternate value. */
module VarTokens {
  import opened VarScan

  datatype Parsed = Parsed(name: string, def: string, hasDefault: bool, alt: bool, nested: bool)

  /** Where the operator of a token body starts, or its length. */
  function OperatorAt(body: string): (n: nat)
    ensures n <= |body|
  {
    if body == "" || body[0] in {':', '-', '?', '+'} then 0 else 1 + OperatorAt(body[1..])
  }

  /** The body of a braced token. */
  function Body(tok: string): string
    requires |tok| >= 3
  {
    tok[2..|tok| - 1]
  }

  predicate Contains(s: string, t: string) {
    t <= s || (s != "" && Contains(s[1..], t))
  }

  /** Long enough to decode: a dollar and a name, or a brace pair. */
  predicate Decodable(tok: string) {
    |tok| >= 2 && ("${" <= tok ==> |tok| >= 3)
  }

  /** parseVarToken */
  function ParseVarToken(tok: string): Parsed
    requires Decodable(tok)
  {
    if !("${" <= tok) then Parsed(tok[1..], "", false, false, false)
    else
      var body := Body(tok);
      var n := OperatorAt(body);
      var plain := Parsed(body[..n], "", false, false, false);
      if n == |body| then plain
      else
        var rest := if body[n] == ':' then body[n + 1..] else body[n..];
        if rest == "" then plain
        else if rest[0] == '-' then Parsed(body[..n], rest[1..], true, false, Contains(rest[1..], "${"))
        else if rest[0] == '+' then plain.(alt := true)
        else plain
  }

  lemma TokenDecodable(tok: string)
    requires IsToken(tok, 0, |tok|)
    ensures Decodable(tok)
  {
    if "${" <= tok {
      assert tok[1] == '{';
      Brace(tok, 1, |tok|);
    }
  }

  // ---------- the forms of tokens

  predicate PlainName(name: string) {
    forall i :: 0 <= i < |name| ==> name[i] != ':' && name[i] != '-' && name[i] != '?' && name[i] != '+'
  }

  /** The token is that of a name, with what follows the name in the braces. */
  ghost predicate Form(tok: string, name: string, rest: string) {
    && PlainName(name) && tok == "${" + (name + rest) + "}"
    && (rest != "" ==> rest[0] == ':' || rest[0] == '-' || rest[0] == '?' || rest[0] == '+')
  }

  /** ${name:-d} or ${name-d} */
  ghost predicate WithDefault(tok: string, name: string, d: string) {
    Form(tok, name, ":-" + d) || Form(tok, name, "-" + d)
  }

  /** ${name:+d} or ${name+d} */
  ghost predicate WithAlternate(tok: string, name: string, d: string) {
    Form(tok, name, ":+" + d) || Form(tok, name, "+" + d)
  }

  /** $name, or any braced form of the name. */
  ghost predicate ForName(tok: string, name: string) {
    (tok == "$" + name && !("${" <= tok)) || exists rest :: Form(tok, name, rest)
  }

  /** A token opens in d. */
  predicate Opening(d: string, i: nat) {
    i + 1 < |d| && d[i] == '$' && d[i + 1] == '{'
  }

  lemma {:induction false} ContainsOpening(d: string)
    ensures Contains(d, "${") <==> exists i: nat :: Opening(d, i)
  {
    if d != "" {
      ContainsOpening(d[1..]);
      if i: nat :| Opening(d, i) {
        assert i > 0 ==> Opening(d[1..], i - 1);
      }
      if i: nat :| Opening(d[1..], i) {
        assert Opening(d, i + 1);
      }
      if "${" <= d {
        assert Opening(d, 0);
      }
    }
  }

  lemma {:induction false} OperatorIs(name: string, rest: string)
    requires PlainName(name)
    requires rest != "" ==> rest[0] == ':' || rest[0] == '-' || rest[0] == '?' || rest[0] == '+'
    ensures OperatorAt(name + rest) == |name|
  {
    if name == "" {
      assert name + rest == rest;
    } else {
      OperatorIs(name[1..], rest);
      assert (name + rest)[1..] == name[1..] + rest && (name + rest)[0] == name[0];
    }
  }

  lemma {:induction false} OperatorSplits(body: string)
    ensures PlainName(body[..OperatorAt(body)])
    ensures var rest := body[OperatorAt(body)..];
            rest != "" ==> rest[0] == ':' || rest[0] == '-' || rest[0] == '?' || rest[0] == '+'
  {
    if body != "" && body[0] !in {':', '-', '?', '+'} {
      OperatorSplits(body[1..]);
      var n := OperatorAt(body);
      assert body[..n] == [body[0]] + body[1..][..n - 1] && body[n..] == body[1..][n - 1..];
    }
  }

  lemma BodyOf(tok: string, name: string, rest: string)
    requires Form(tok, name, rest)
    ensures "${" <= tok && |tok| >= 3 && Body(tok) == name + rest && OperatorAt(Body(tok)) == |name|
    ensures (name + rest)[..|name|] == name && (name + rest)[|name|..] == rest
  {
    OperatorIs(name, rest);
    assert tok[2..|tok| - 1] == name + rest;
  }

  /** What a braced form decodes to. */
  lemma FormParsed(tok: string, name: string, rest: string)
    requires Form(tok, name, rest)
    ensures Decodable(tok) && ParseVarToken(tok).name == name
    ensures var p := ParseVarToken(tok);
            var op := if rest != "" && rest[0] == ':' then rest[1..] else rest;
            && p.hasDefault == (op != "" && op[0] == '-') && p.alt == (op != "" && op[0] == '+')
            && p.def == (if p.hasDefault then op[1..] else "") && p.nested == (p.hasDefault && Contains(op[1..], "${"))
  {
    BodyOf(tok, name, rest);
    hide Body, OperatorAt, Contains, PlainName;
    var body := name + rest;
    if rest != "" {
      assert body[|name|] == rest[0] && body[|name| + 1..] == rest[1..];
    }
  }

  lemma FormUnique(tok: string, name: string, rest: string, name': string, rest': string)
    requires Form(tok, name, rest) && Form(tok, name', rest')
    ensures name == name' && rest == rest'
  {
    BodyOf(tok, name, rest);
    BodyOf(tok, name', rest');
    hide Form, Body, OperatorAt;
  }

  /** A braced token has a form. */
  lemma BracedForm(tok: string) returns (name: string, rest: string)
    requires "${" <= tok && |tok| >= 3 && tok[|tok| - 1] == '}'
    ensures Form(tok, name, rest)
  {
    var body := Body(tok);
    var n := OperatorAt(body);
    name, rest := body[..n], body[n..];
    OperatorSplits(body);
    assert name + rest == body;
    assert tok == "${" + body + "}";
  }

  lemma TokenEnds(tok: string)
    requires IsToken(tok, 0, |tok|) && "${" <= tok
    ensures |tok| >= 3 && tok[|tok| - 1] == '}'
  {
    assert tok[1] == '{';
    Brace(tok, 1, |tok|);
  }

  lemma DollarForm(tok: string)
    requires IsToken(tok, 0, |tok|) && !("${" <= tok)
    ensures Decodable(tok) && ParseVarToken(tok) == Parsed(tok[1..], "", false, false, false) && tok == "$" + tok[1..]
    ensures forall n, r :: !Form(tok, n, r)
  {
    assert tok == "$" + tok[1..];
    forall n, r ensures !Form(tok, n, r) {
      if Form(tok, n, r) {
        BodyOf(tok, n, r);
      }
    }
  }

  lemma Pieces(d: string)
    ensures (":-" + d)[1..] == "-" + d && (":+" + d)[1..] == "+" + d && ("-" + d)[1..] == d && ("+" + d)[1..] == d
    ensures (":-" + d)[0] == ':' && (":+" + d)[0] == ':' && ("-" + d)[0] == '-' && ("+" + d)[0] == '+'
    ensures ":-" + d != "" && ":+" + d != "" && "-" + d != "" && "+" + d != ""
  {
  }

  lemma Rejoined(rest: string, op: string)
    requires op != "" && (rest == ":" + op || rest == op)
    ensures op[0] == '-' ==> rest == ":-" + op[1..] || rest == "-" + op[1..]
    ensures op[0] == '+' ==> rest == ":+" + op[1..] || rest == "+" + op[1..]
  {
    assert op == [op[0]] + op[1..];
  }

  lemma DefaultParsed(tok: string, n: string, d: string)
    requires WithDefault(tok, n, d)
    ensures Decodable(tok) && ParseVarToken(tok) == Parsed(n, d, true, false, Contains(d, "${"))
  {
    hide ParseVarToken, Form, Contains;
    var a, b := ":-" + d, "-" + d;
    Pieces(d);
    if Form(tok, n, a) {
      FormParsed(tok, n, a);
    } else {
      FormParsed(tok, n, b);
    }
  }

  lemma AlternateParsed(tok: string, n: string, d: string)
    requires WithAlternate(tok, n, d)
    ensures Decodable(tok) && ParseVarToken(tok) == Parsed(n, "", false, true, false)
  {
    hide ParseVarToken, Form, Contains;
    var a, b := ":+" + d, "+" + d;
    Pieces(d);
    if Form(tok, n, a) {
      FormParsed(tok, n, a);
    } else {
      FormParsed(tok, n, b);
    }
  }

  lemma AfterColon(rest: string) returns (op: string)
    ensures op == (if rest != "" && rest[0] == ':' then rest[1..] else rest) && (rest == ":" + op || rest == op)
  {
    op := if rest != "" && rest[0] == ':' then rest[1..] else rest;
  }

  /** What follows the name in a token that has more than a name. */
  lemma Operand(tok: string) returns (name: string, rest: string, op: string)
    requires IsToken(tok, 0, |tok|) && Decodable(tok) && (ParseVarToken(tok).hasDefault || ParseVarToken(tok).alt)
    ensures Form(tok, name, rest) && (rest == ":" + op || rest == op) && op != ""
    ensures var p := ParseVarToken(tok);
            && p.name == name && (p.hasDefault ==> op[0] == '-' && p == Parsed(name, op[1..], true, false, p.nested))
            && (p.hasDefault ==> p.nested == Contains(op[1..], "${")) && (p.alt ==> op[0] == '+')
  {
    hide IsToken, ParseVarToken, Form, Contains, Decodable;
    if !("${" <= tok) {
      DollarForm(tok);
      assert false;
    }
    TokenEnds(tok);
    name, rest := BracedForm(tok);
    FormParsed(tok, name, rest);
    op := AfterColon(rest);
  }

  /** ${n:-d} and ${n-d}, whatever n and d, and no other token: the name, the default, and whether a token opens in
      it. */
  lemma ParsedDefault(tok: string, n: string, d: string)
    requires IsToken(tok, 0, |tok|)
    ensures Decodable(tok)
    ensures WithDefault(tok, n, d) <==> ParseVarToken(tok) == Parsed(n, d, true, false, Contains(d, "${"))
  {
    TokenDecodable(tok);
    hide IsToken, ParseVarToken, Form, Contains;
    if ParseVarToken(tok).hasDefault {
      var name, rest, op := Operand(tok);
      Rejoined(rest, op);
    }
    if WithDefault(tok, n, d) {
      DefaultParsed(tok, n, d);
    }
  }

  /** ${n:+d} and ${n+d}, and no other token: the name, and no default. */
  lemma ParsedAlternate(tok: string, n: string, d: string)
    requires IsToken(tok, 0, |tok|)
    ensures Decodable(tok)
    ensures WithAlternate(tok, n, d) ==> ParseVarToken(tok) == Parsed(n, "", false, true, false)
    ensures ParseVarToken(tok).alt ==> exists m, e :: WithAlternate(tok, m, e)
  {
    TokenDecodable(tok);
    hide IsToken, ParseVarToken, Form, Contains;
    if ParseVarToken(tok).alt {
      var name, rest, op := Operand(tok);
      Rejoined(rest, op);
      assert WithAlternate(tok, name, op[1..]);
    }
    if WithAlternate(tok, n, d) {
      AlternateParsed(tok, n, d);
    }
  }

  /** Every token but the doubled dollar is for the one variable that it is decoded to. */
  lemma ParsedName(tok: string, n: string)
    requires IsToken(tok, 0, |tok|)
    ensures Decodable(tok) && (ForName(tok, n) <==> ParseVarToken(tok).name == n)
  {
    TokenDecodable(tok);
    hide IsToken, ParseVarToken, Form;
    if "${" <= tok {
      TokenEnds(tok);
      var name, rest := BracedForm(tok);
      FormParsed(tok, name, rest);
      if r :| Form(tok, n, r) {
        FormUnique(tok, name, rest, n, r);
      }
    } else {
      DollarForm(tok);
      assert ("$" + n)[1..] == n;
    }
  }
}
