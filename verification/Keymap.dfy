/** keymap: compose names to CUE map keys, stable per name and never shared by two names. */
module Keymap {
  import opened CueString

  function Digit(n: nat): char
    requires n < 10
  {
    ('0' as int + n) as char
  }

  /** A number in decimal. */
  function Itoa(n: nat): (s: string)
    ensures s != ""
  {
    if n < 10 then [Digit(n)] else Itoa(n / 10) + [Digit(n % 10)]
  }

  lemma {:induction false} ItoaInjective(m: nat, n: nat)
    requires Itoa(m) == Itoa(n)
    ensures m == n
  {
    var s := Itoa(m);
    assert s[|s| - 1] == Digit(m % 10) == Digit(n % 10);
    if m >= 10 && n >= 10 {
      assert Itoa(m / 10) == s[..|s| - 1] == Itoa(n / 10);
      ItoaInjective(m / 10, n / 10);
    }
  }

  predicate Decimal(s: string) {
    forall i :: 0 <= i < |s| ==> '0' <= s[i] <= '9'
  }

  function DecimalValue(s: string): nat
    requires Decimal(s)
  {
    if s == "" then 0 else 10 * DecimalValue(s[..|s| - 1]) + (s[|s| - 1] - '0') as int
  }

  /** It is the number in decimal: only digits, of that value, and no zero at the front of more than one. */
  lemma {:induction false} ItoaIs(n: nat)
    ensures Decimal(Itoa(n)) && DecimalValue(Itoa(n)) == n && (|Itoa(n)| > 1 ==> Itoa(n)[0] != '0')
  {
    if n >= 10 {
      ItoaIs(n / 10);
      var s := Itoa(n / 10) + [Digit(n % 10)];
      assert s[..|s| - 1] == Itoa(n / 10);
      FirstDigit(n / 10);
    } else {
      assert [Digit(n)][..0] == "";
    }
  }

  lemma {:induction false} FirstDigit(n: nat)
    requires n > 0
    ensures Itoa(n)[0] != '0'
  {
    if n >= 10 {
      FirstDigit(n / 10);
    }
  }

  /** The key with a number appended. */
  function Suffixed(base: string, i: nat): string {
    base + "_" + Itoa(i)
  }

  lemma SuffixedIs(base: string, i: nat)
    ensures var s := Suffixed(base, i); base < s && s[|base|] == '_' && s[|base| + 1..] == Itoa(i)
  {
  }

  lemma SuffixedInjective(base: string, i: nat, j: nat)
    requires Suffixed(base, i) == Suffixed(base, j)
    ensures i == j
  {
    assert Suffixed(base, i)[|base| + 1..] == Itoa(i) && Suffixed(base, j)[|base| + 1..] == Itoa(j);
    ItoaInjective(i, j);
  }

  /** Dashes and dots become underscores. */
  function Sanitized(name: string): string {
    seq(|name|, i requires 0 <= i < |name| => if name[i] == '-' || name[i] == '.' then '_' else name[i])
  }

  /** No dash or dot is left, and nothing else is changed. */
  lemma SanitizedIs(name: string, i: nat)
    ensures |Sanitized(name)| == |name| && '-' !in Sanitized(name) && '.' !in Sanitized(name)
    ensures i < |name| && (name[i] == '-' || name[i] == '.') ==> Sanitized(name)[i] == '_'
    ensures i < |name| && name[i] != '-' && name[i] != '.' ==> Sanitized(name)[i] == name[i]
  {
  }

  /** The key a name would like: itself if it is an identifier, else its sanitized form if that is a free one. */
  function Wanted(name: string, used: set<string>): string {
    if !IsIdent(name) && IsIdent(Sanitized(name)) && Sanitized(name) !in used then Sanitized(name) else name
  }

  /** The suffixes from 2 up to but not including n, all taken, are n - 2 different keys. */
  lemma {:induction false} TakenSuffixes(base: string, used: set<string>, n: nat)
    requires n >= 2 && forall i :: 2 <= i < n ==> Suffixed(base, i) in used
    ensures n - 2 <= |used|
  {
    CountSuffixes(base, n);
    Subset(Suffixes(base, n), used);
  }

  function Suffixes(base: string, n: nat): set<string> {
    set i: nat | 2 <= i < n :: Suffixed(base, i)
  }

  lemma {:induction false} CountSuffixes(base: string, n: nat)
    requires n >= 2
    ensures |Suffixes(base, n)| == n - 2
  {
    if n > 2 {
      CountSuffixes(base, n - 1);
      assert Suffixes(base, n) == Suffixes(base, n - 1) + {Suffixed(base, n - 1)};
      if Suffixed(base, n - 1) in Suffixes(base, n - 1) {
        var i: nat :| 2 <= i < n - 1 && Suffixed(base, i) == Suffixed(base, n - 1);
        SuffixedInjective(base, i, n - 1);
      }
    } else {
      assert Suffixes(base, n) == {};
    }
  }

  lemma Subset<T>(a: set<T>, b: set<T>)
    requires a <= b
    ensures |a| <= |b|
  {
    assert b == a + (b - a);
  }

  /** The suffix search of key, started when base itself is taken. */
  method FreeKey(base: string, used: set<string>) returns (key: string)
    ensures key !in used
    ensures exists i :: i >= 2 && key == Suffixed(base, i) && forall j :: 2 <= j < i ==> Suffixed(base, j) in used
  {
    var i := 2;
    TakenSuffixes(base, used, i);
    while true
      invariant i >= 2 && i - 2 <= |used| && forall j :: 2 <= j < i ==> Suffixed(base, j) in used
      decreases |used| + 2 - i
    {
      key := Suffixed(base, i);
      if key !in used {
        return;
      }
      i := i + 1;
      TakenSuffixes(base, used, i);
    }
  }

  class Keys {
    var byName: map<string, string>
    var used: set<string>

    ghost predicate Valid()
      reads this
    {
      && used == byName.Values
      && forall m, n :: m in byName && n in byName && byName[m] == byName[n] ==> m == n
    }

    constructor ()
      ensures Valid() && byName == map[]
    {
      byName, used := map[], {};
    }

    /** key */
    method Key(name: string) returns (key: string)
      requires Valid()
      modifies this
      ensures Valid() && name in byName && byName[name] == key
      ensures byName == if name in old(byName) then old(byName) else old(byName)[name := key]
      ensures name !in old(byName) ==> key !in old(used)
      ensures name !in old(byName) ==>
                var base := Wanted(name, old(used));
                if base !in old(used) then key == base
                else exists i :: i >= 2 && key == Suffixed(base, i)
                                 && forall j :: 2 <= j < i ==> Suffixed(base, j) in old(used)
    {
      if name in byName {
        return byName[name];
      }
      key := name;
      if !IsIdent(key) {
        var cand := Sanitized(name);
        if IsIdent(cand) && cand !in used {
          key := cand;
        }
      }
      if key in used {
        key := FreeKey(key, used);
      }
      NewValue(byName, name, key);
      byName := byName[name := key];
      used := used + {key};
    }
  }

  lemma NewValue(m: map<string, string>, name: string, key: string)
    requires name !in m
    ensures m[name := key].Values == m.Values + {key}
  {
    var m' := m[name := key];
    forall v ensures v in m'.Values <==> v in m.Values + {key} {
      if v in m.Values {
        var n :| n in m && m[n] == v;
        assert m'[n] == v;
      }
      assert m'[name] == key;
    }
  }

  /** Any sequence of requests gets equal keys for equal names and different keys for different names. */
  method KeyAll(keys: Keys, names: seq<string>) returns (out: seq<string>)
    requires keys.Valid()
    modifies keys
    ensures keys.Valid() && |out| == |names|
    ensures forall i, j :: 0 <= i < |names| && 0 <= j < |names| ==> (out[i] == out[j] <==> names[i] == names[j])
    ensures forall n :: n in old(keys.byName) ==> n in keys.byName && keys.byName[n] == old(keys.byName)[n]
  {
    out := [];
    for k := 0 to |names|
      invariant keys.Valid() && |out| == k
      invariant forall i :: 0 <= i < k ==> names[i] in keys.byName && out[i] == keys.byName[names[i]]
      invariant forall n :: n in old(keys.byName) ==> n in keys.byName && keys.byName[n] == old(keys.byName)[n]
    {
      var key := keys.Key(names[k]);
      out := out + [key];
    }
  }
}
