/** CUE string literals with interpolated references to the env struct: printing, and reading back. */
module CueString {
  import opened Wrappers

  /** What a string is made of once read: characters, and references to env fields. */
  datatype Piece = Lit(c: char) | Ref(name: string)

  function Lits(s: string): seq<Piece> {
    seq(|s|, i requires 0 <= i < |s| => Lit(s[i]))
  }

  predicate IdentStart(c: char) {
    c == '_' || c == '$' || 'a' <= c <= 'z' || 'A' <= c <= 'Z'
  }

  predicate IdentChar(c: char) {
    IdentStart(c) || '0' <= c <= '9'
  }

  /** identRe */
  predicate IsIdent(s: string) {
    s != "" && IdentStart(s[0]) && forall i :: 0 <= i < |s| ==> IdentChar(s[i])
  }

  /** An identifier by the codes of its characters: letters, underscores and dollars, and after the first digits. */
  lemma IdentCodes(s: string)
    ensures IsIdent(s) <==>
            && s != "" && !(48 <= s[0] as int <= 57)
            && forall i :: 0 <= i < |s| ==>
                 var c := s[i] as int;
                 c == 36 || c == 95 || 48 <= c <= 57 || 65 <= c <= 90 || 97 <= c <= 122
  {
  }

  const BELL: char := 7 as char
  const BACKSPACE: char := 8 as char
  const VTAB: char := 11 as char
  const FORMFEED: char := 12 as char

  /** The escape letter of a character that is written with one. */
  function EscapeLetter(c: char): Option<char> {
    if c == '"' then Some('"')
    else if c == '\\' then Some('\\')
    else if c == '\n' then Some('n')
    else if c == '\t' then Some('t')
    else if c == '\r' then Some('r')
    else if c == BELL then Some('a')
    else if c == BACKSPACE then Some('b')
    else if c == VTAB then Some('v')
    else if c == FORMFEED then Some('f')
    else None
  }

  const DELETE: char := 127 as char

  /** Control characters without a letter, and delete: strconv.Quote writes them as bytes, with an x. */
  predicate IsByte(c: char) {
    EscapeLetter(c).None? && (c < ' ' || c == DELETE)
  }

  /** By their codes: below 32 without those from 7 to 13, and 127. */
  lemma ByteCodes(c: char)
    ensures IsByte(c) <==> c as int < 7 || 13 < c as int < 32 || c as int == 127
  {
    assert '\t' as int == 9 && '\n' as int == 10 && '\r' as int == 13;
  }

  /** The characters beyond ASCII that unicode.IsPrint takes. Nothing here depends on which they are. */
  const PRINTABLE: set<char>

  function Digit(d: nat): (c: char)
    requires d < 16
    ensures '0' <= c <= '9' || 'a' <= c <= 'f'
  {
    if d < 10 then '0' + d as char else 'a' + (d - 10) as char
  }

  /** n in w hexadecimal digits. */
  function Hex(n: nat, w: nat): (r: string)
    ensures |r| == w
  {
    if w == 0 then "" else Hex(n / 16, w - 1) + [Digit(n % 16)]
  }

  function Escape(c: char): string {
    match EscapeLetter(c)
    case Some(e) => ['\\', e]
    case None =>
      if IsByte(c) then "\\x" + Hex(c as int, 2)
      else if c < DELETE || c in PRINTABLE then [c]
      else if c as int < 0x10000 then "\\u" + Hex(c as int, 4)
      else "\\U" + Hex(c as int, 8)
  }

  /** quoteInner: strconv.Quote without the quotes. */
  function QuoteInner(s: string): string {
    if s == "" then "" else Escape(s[0]) + QuoteInner(s[1..])
  }

  function Quote(s: string): string {
    "\"" + QuoteInner(s) + "\""
  }

  /** sel("env", name): a field selection, or an index with a quoted name. */
  function Selector(name: string): string {
    if IsIdent(name) then "env." + name else "env[" + Quote(name) + "]"
  }

  // ---------- reading

  /** The character that an escape letter stands for. */
  function Unescape(e: char): Option<char> {
    if e == '"' then Some('"')
    else if e == '\\' then Some('\\')
    else if e == 'n' then Some('\n')
    else if e == 't' then Some('\t')
    else if e == 'r' then Some('\r')
    else if e == 'a' then Some(BELL)
    else if e == 'b' then Some(BACKSPACE)
    else if e == 'v' then Some(VTAB)
    else if e == 'f' then Some(FORMFEED)
    else if e == '/' then Some('/')
    else None
  }

  function DigitValue(c: char): Option<nat> {
    if '0' <= c <= '9' then Some((c - '0') as int)
    else if 'a' <= c <= 'f' then Some((c - 'a') as int + 10)
    else if 'A' <= c <= 'F' then Some((c - 'A') as int + 10)
    else None
  }

  /** The number that hexadecimal digits stand for. */
  function UnHex(s: string): Option<nat> {
    if s == "" then Some(0)
    else match (UnHex(s[..|s| - 1]), DigitValue(s[|s| - 1]))
      case (Some(n), Some(d)) => Some(16 * n + d)
      case _ => None
  }

  /** The character with that code, and the rest. */
  function ReadCode(digits: string, rest: string): (r: Option<(char, string)>)
    ensures r.Some? ==> r.value.1 == rest
  {
    match UnHex(digits)
    case None => None
    case Some(n) => if n < 0xD800 || 0xE000 <= n < 0x11_0000 then Some((n as char, rest)) else None
  }

  /** An escape after its backslash: a letter, or u or U with four or eight digits. An x is for byte literals, with
      single quotes (section "String and byte sequence literals" of the CUE language specification). */
  function ReadEscape(t: string): (r: Option<(char, string)>)
    ensures r.Some? ==> |r.value.1| < |t|
  {
    if t == "" then None
    else if Unescape(t[0]).Some? then Some((Unescape(t[0]).value, t[1..]))
    else if t[0] == 'u' && |t| >= 5 then ReadCode(t[1..5], t[5..])
    else if t[0] == 'U' && |t| >= 9 then ReadCode(t[1..9], t[9..])
    else None
  }

  /** How many identifier characters t starts with. */
  function IdentLen(t: string): (n: nat)
    ensures n <= |t|
  {
    if t == "" || !IdentChar(t[0]) then 0 else 1 + IdentLen(t[1..])
  }

  /** A quoted name up to its closing quote, and the rest. */
  function ReadQuoted(t: string): (r: Option<(string, string)>)
    ensures r.Some? ==> |r.value.1| < |t|
  {
    if t == "" || t[0] == '\n' then None
    else if t[0] == '"' then Some(("", t[1..]))
    else if t[0] == '\\' then
      match ReadEscape(t[1..])
      case None => None
      case Some(e) =>
        match ReadQuoted(e.1)
        case None => None
        case Some(r) => Some(([e.0] + r.0, r.1))
    else match ReadQuoted(t[1..])
      case None => None
      case Some(r) => Some(([t[0]] + r.0, r.1))
  }

  /** A reference into env up to the parenthesis that closes the interpolation, and the rest. */
  function ReadRef(t: string): (r: Option<(string, string)>)
    ensures r.Some? ==> |r.value.1| < |t|
  {
    if "env." <= t then
      var n := IdentLen(t[4..]);
      if IsIdent(t[4..][..n]) && 4 + n < |t| && t[4 + n] == ')' then Some((t[4..][..n], t[4 + n + 1..])) else None
    else if "env[\"" <= t then
      match ReadQuoted(t[5..])
      case None => None
      case Some(r) => if "])" <= r.1 then Some((r.0, r.1[2..])) else None
    else None
  }

  /** The body of a string literal up to its closing quote, which has to end the text. */
  function ReadBody(t: string): Option<seq<Piece>>
    decreases |t|
  {
    if t == "" || t[0] == '\n' then None
    else if t[0] == '"' then (if |t| == 1 then Some([]) else None)
    else if t[0] == '\\' then
      if |t| >= 2 && t[1] == '(' then
        match ReadRef(t[2..])
        case None => None
        case Some(r) => Prepend([Ref(r.0)], ReadBody(r.1))
      else
        match ReadEscape(t[1..])
        case None => None
        case Some(e) => Prepend([Lit(e.0)], ReadBody(e.1))
    else Prepend([Lit(t[0])], ReadBody(t[1..]))
  }

  function Prepend(ps: seq<Piece>, rest: Option<seq<Piece>>): Option<seq<Piece>> {
    if rest.Some? then Some(ps + rest.value) else None
  }

  /** A whole string literal. */
  function ReadString(t: string): Option<seq<Piece>> {
    if t != "" && t[0] == '"' then ReadBody(t[1..]) else None
  }

  // ---------- printing then reading

  lemma {:induction false} HexRound(n: nat, w: nat)
    requires n < Bound(w)
    ensures UnHex(Hex(n, w)) == Some(n)
  {
    if w > 0 {
      HexRound(n / 16, w - 1);
      var h := Hex(n, w);
      assert h[..w - 1] == Hex(n / 16, w - 1) && h[w - 1] == Digit(n % 16);
      assert DigitValue(Digit(n % 16)) == Some(n % 16);
    }
  }

  /** The numbers that w hexadecimal digits can stand for are below it. */
  function Bound(w: nat): nat {
    if w == 0 then 1 else 16 * Bound(w - 1)
  }

  lemma Bounds()
    ensures Bound(4) == 0x10000 && Bound(8) == 0x1_0000_0000
  {
    assert Bound(2) == 256;
    assert Bound(4) == 16 * (16 * Bound(2));
    assert Bound(6) == 16 * (16 * Bound(4));
    assert Bound(8) == 16 * (16 * Bound(6));
  }

  lemma CodeRound(c: char, w: nat, rest: string)
    requires c as int < Bound(w)
    ensures ReadCode(Hex(c as int, w), rest) == Some((c, rest))
  {
    HexRound(c as int, w);
  }

  lemma ReadU(digits: string, rest: string)
    ensures |digits| == 4 ==> ReadEscape("u" + digits + rest) == ReadCode(digits, rest)
    ensures |digits| == 8 ==> ReadEscape("U" + digits + rest) == ReadCode(digits, rest)
  {
    hide ReadCode;
    var t, v := "u" + digits + rest, "U" + digits + rest;
    if |digits| == 4 {
      assert t[1..5] == digits && t[5..] == rest;
    }
    if |digits| == 8 {
      assert v[1..9] == digits && v[9..] == rest;
    }
  }

  /** What follows the backslash of an escape reads as the character, unless it is a byte. */
  lemma EscapeRound(c: char, rest: string)
    requires Escape(c) != [c]
    ensures Escape(c)[0] == '\\' && |Escape(c)| > 1 && Escape(c)[1] != '('
    ensures ReadEscape((Escape(c) + rest)[1..]) == if IsByte(c) then None else Some((c, rest))
  {
    var t := (Escape(c) + rest)[1..];
    Bounds();
    if EscapeLetter(c).Some? {
      assert t[1..] == rest;
    } else if IsByte(c) {
      assert t[0] == 'x';
    } else {
      var w := if c as int < 0x10000 then 4 else 8;
      var digits := Hex(c as int, w);
      CodeRound(c, w, rest);
      ReadU(digits, rest);
      assert t == (if w == 4 then "u" else "U") + digits + rest;
      hide ReadEscape, Hex, ReadCode;
    }
  }

  lemma PlainChar(c: char)
    requires Escape(c) == [c]
    ensures c != '"' && c != '\\' && c != '\n' && !IsByte(c)
  {
  }

  predicate NoBytes(s: string) {
    forall i :: 0 <= i < |s| ==> !IsByte(s[i])
  }

  lemma NoBytesFirst(s: string)
    requires s != ""
    ensures NoBytes(s) <==> !IsByte(s[0]) && NoBytes(s[1..])
  {
    hide IsByte;
    assert forall i :: 1 <= i < |s| ==> s[i] == s[1..][i - 1];
  }

  lemma ReadEscaped(c: char, tail: string)
    ensures ReadQuoted(Escape(c) + tail) == match ReadQuoted(tail)
                                            case None => None
                                            case Some(r) => if IsByte(c) then None else Some(([c] + r.0, r.1))
  {
    var t := Escape(c) + tail;
    if Escape(c) == [c] {
      PlainChar(c);
      hide Escape, IsByte;
      assert t[0] == c && t[1..] == tail;
    } else {
      EscapeRound(c, tail);
      hide Escape, IsByte, ReadEscape;
    }
  }

  /** A quoted name reads back, unless a byte is in it: then the literal does not read at all. */
  lemma {:induction false} QuotedRound(s: string, rest: string)
    ensures ReadQuoted(QuoteInner(s) + "\"" + rest) == if NoBytes(s) then Some((s, rest)) else None
  {
    if s == "" {
      var t := "\"" + rest;
      assert QuoteInner(s) + "\"" + rest == t && t[1..] == rest;
    } else {
      QuotedRound(s[1..], rest);
      ReadEscaped(s[0], QuoteInner(s[1..]) + "\"" + rest);
      hide ReadQuoted, Escape, IsByte;
      assert QuoteInner(s) + "\"" + rest == Escape(s[0]) + (QuoteInner(s[1..]) + "\"" + rest);
      assert s == [s[0]] + s[1..];
      NoBytesFirst(s);
      hide NoBytes, QuoteInner;
    }
  }

  lemma {:induction false} IdentRound(name: string, rest: string)
    requires forall i :: 0 <= i < |name| ==> IdentChar(name[i])
    requires rest != "" && !IdentChar(rest[0])
    ensures IdentLen(name + rest) == |name|
  {
    if name == "" {
      assert name + rest == rest;
    } else {
      IdentRound(name[1..], rest);
      assert (name + rest)[1..] == name[1..] + rest;
    }
  }

  lemma FieldRound(name: string, rest: string)
    requires IsIdent(name)
    ensures ReadRef("env." + name + ")" + rest) == Some((name, rest))
  {
    IdentRound(name, ")" + rest);
    hide IdentLen, IsIdent;
    var t := "env." + name + ")" + rest;
    assert t[4..] == name + (")" + rest);
    assert t[4..][..|name|] == name;
    assert t[4 + |name| + 1..] == rest;
  }

  lemma IndexRound(name: string, rest: string)
    ensures ReadRef("env[" + Quote(name) + "]" + ")" + rest) == if NoBytes(name) then Some((name, rest)) else None
  {
    QuotedRound(name, "])" + rest);
    hide ReadQuoted, QuoteInner, NoBytes;
    var t := "env[" + Quote(name) + "]" + ")" + rest;
    assert t[5..] == QuoteInner(name) + "\"" + ("])" + rest);
    assert t[..5] == "env[\"";
    assert t[3] == '[';
  }

  lemma IdentNoBytes(name: string)
    requires IsIdent(name)
    ensures NoBytes(name)
  {
  }

  /** The selector of a name reads back as that name, unless a byte is in it. */
  lemma SelectorRound(name: string, rest: string)
    ensures ReadRef(Selector(name) + ")" + rest) == if NoBytes(name) then Some((name, rest)) else None
  {
    hide ReadRef, Quote, NoBytes;
    if IsIdent(name) {
      FieldRound(name, rest);
      IdentNoBytes(name);
    } else {
      IndexRound(name, rest);
    }
  }

  /** The piece has no character that is written as a byte. */
  predicate Sayable(p: Piece) {
    match p
    case Lit(c) => !IsByte(c)
    case Ref(name) => NoBytes(name)
  }

  predicate AllSayable(ps: seq<Piece>) {
    forall i :: 0 <= i < |ps| ==> Sayable(ps[i])
  }

  /** Text that, put before anything, reads as the pieces followed by whatever that reads as; if a piece has a
      character written as a byte, it does not read at all. */
  ghost predicate Emits(text: string, ps: seq<Piece>) {
    forall rest :: ReadBody(text + rest) == if AllSayable(ps) then Prepend(ps, ReadBody(rest)) else None
  }

  lemma OneSayable(p: Piece)
    ensures AllSayable([p]) <==> Sayable(p)
  {
    hide Sayable;
    assert [p][0] == p;
  }

  lemma EmitsNothing()
    ensures Emits("", [])
  {
    forall rest ensures ReadBody("" + rest) == Prepend([], ReadBody(rest)) {
      assert "" + rest == rest;
      if ReadBody(rest).Some? {
        assert [] + ReadBody(rest).value == ReadBody(rest).value;
      }
    }
  }

  lemma EmitsConcat(a: string, ps: seq<Piece>, b: string, qs: seq<Piece>)
    requires Emits(a, ps) && Emits(b, qs)
    ensures Emits(a + b, ps + qs)
  {
    hide ReadBody, Sayable;
    assert AllSayable(ps + qs) <==> AllSayable(ps) && AllSayable(qs) by {
      BothSayable(ps, qs);
    }
    hide AllSayable;
    forall rest
      ensures ReadBody(a + b + rest) == if AllSayable(ps + qs) then Prepend(ps + qs, ReadBody(rest)) else None
    {
      assert a + b + rest == a + (b + rest);
      assert ReadBody(b + rest) == if AllSayable(qs) then Prepend(qs, ReadBody(rest)) else None;
      if ReadBody(rest).Some? {
        assert ps + qs + ReadBody(rest).value == ps + (qs + ReadBody(rest).value);
      }
    }
  }

  lemma BothSayable(ps: seq<Piece>, qs: seq<Piece>)
    ensures AllSayable(ps + qs) <==> AllSayable(ps) && AllSayable(qs)
  {
    hide Sayable;
    assert forall i :: 0 <= i < |ps| ==> (ps + qs)[i] == ps[i];
    assert forall i :: 0 <= i < |qs| ==> (ps + qs)[|ps| + i] == qs[i];
  }

  lemma EmitsChar(c: char)
    ensures Emits(Escape(c), [Lit(c)])
  {
    forall rest ensures ReadBody(Escape(c) + rest) == if IsByte(c) then None else Prepend([Lit(c)], ReadBody(rest)) {
      ReadChar(c, rest);
    }
    hide IsByte, Escape, ReadBody, Prepend;
    OneSayable(Lit(c));
  }

  lemma ReadChar(c: char, rest: string)
    ensures ReadBody(Escape(c) + rest) == if IsByte(c) then None else Prepend([Lit(c)], ReadBody(rest))
  {
    var t := Escape(c) + rest;
    if Escape(c) == [c] {
      PlainChar(c);
      hide Escape, IsByte;
      assert t[0] == c && t[1..] == rest;
    } else {
      EscapeRound(c, rest);
      hide Escape, IsByte, ReadEscape;
    }
  }

  /** An escaped segment reads as its characters, whatever follows, unless one of them is a byte. */
  lemma {:induction false} EmitsInner(s: string)
    ensures Emits(QuoteInner(s), Lits(s))
  {
    hide Emits, Escape;
    if s == "" {
      EmitsNothing();
      assert QuoteInner(s) == "" && Lits(s) == [];
    } else {
      EmitsChar(s[0]);
      EmitsInner(s[1..]);
      EmitsConcat(Escape(s[0]), [Lit(s[0])], QuoteInner(s[1..]), Lits(s[1..]));
      assert QuoteInner(s) == Escape(s[0]) + QuoteInner(s[1..]);
      assert Lits(s) == [Lit(s[0])] + Lits(s[1..]);
    }
  }

  lemma ReadInterpolation(t: string, name: string)
    requires |t| >= 2 && t[0] == '\\' && t[1] == '('
    ensures ReadBody(t) == match ReadRef(t[2..])
                           case None => None
                           case Some(r) => Prepend([Ref(r.0)], ReadBody(r.1))
  {
    hide ReadRef, Prepend;
  }

  lemma EmitsRef(name: string)
    ensures Emits("\\(" + Selector(name) + ")", [Ref(name)])
  {
    hide ReadBody, ReadRef, Selector, Prepend, NoBytes;
    OneSayable(Ref(name));
    forall rest
      ensures ReadBody("\\(" + Selector(name) + ")" + rest)
              == if NoBytes(name) then Prepend([Ref(name)], ReadBody(rest)) else None
    {
      var t := "\\(" + Selector(name) + ")" + rest;
      assert t[2..] == Selector(name) + ")" + rest;
      SelectorRound(name, rest);
      ReadInterpolation(t, name);
    }
  }

  lemma EmitsString(text: string, ps: seq<Piece>)
    requires Emits(text, ps)
    ensures ReadString("\"" + text + "\"") == if AllSayable(ps) then Some(ps) else None
  {
    assert ("\"" + text + "\"")[1..] == text + "\"";
    assert ReadBody("\"") == Some([]);
    assert ps + [] == ps;
  }

  lemma SayableLits(s: string)
    ensures AllSayable(Lits(s)) <==> NoBytes(s)
  {
    assert forall i :: 0 <= i < |s| ==> Sayable(Lits(s)[i]) == !IsByte(s[i]);
  }

  /** A quoted string reads back exactly when none of its characters is written as a byte; else it is no literal. */
  lemma QuoteReads(s: string)
    ensures ReadString(Quote(s)) == if NoBytes(s) then Some(Lits(s)) else None
  {
    hide ReadString, QuoteInner, Emits, NoBytes, AllSayable;
    EmitsInner(s);
    EmitsString(QuoteInner(s), Lits(s));
    SayableLits(s);
  }
}
