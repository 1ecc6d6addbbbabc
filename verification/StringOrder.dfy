/** The order of strings that sort.Strings uses, and sorting by an order. */
module StringOrder {

  predicate Le(a: string, b: string) {
    a == "" || (b != "" && (a[0] < b[0] || (a[0] == b[0] && Le(a[1..], b[1..]))))
  }

  lemma {:induction false} LeTotal(a: string, b: string)
    ensures Le(a, b) || Le(b, a)
  {
    if a != "" && b != "" {
      LeTotal(a[1..], b[1..]);
    }
  }

  lemma {:induction false} LeAntisymmetric(a: string, b: string)
    requires Le(a, b) && Le(b, a)
    ensures a == b
  {
    if a != "" {
      LeAntisymmetric(a[1..], b[1..]);
      assert a == [a[0]] + a[1..] && b == [b[0]] + b[1..];
    }
  }

  lemma {:induction false} LeTransitive(a: string, b: string, c: string)
    requires Le(a, b) && Le(b, c)
    ensures Le(a, c)
  {
    if a != "" && b[0] == a[0] == c[0] {
      LeTransitive(a[1..], b[1..], c[1..]);
    }
  }

  lemma PlusAssoc(a: string, b: string, c: string)
    ensures (a + b) + c == a + (b + c)
  {
  }

  lemma LeCons(c: char, x: string, y: string)
    requires Le(x, y)
    ensures Le([c] + x, [c] + y)
  {
    assert ([c] + x)[1..] == x && ([c] + y)[1..] == y;
  }

  lemma {:induction false} LeAfter(a: string, x: string, y: string)
    requires Le(x, y)
    ensures Le(a + x, a + y)
  {
    hide Le;
    if a == "" {
      assert a + x == x && a + y == y;
    } else {
      LeAfter(a[1..], x, y);
      LeCons(a[0], a[1..] + x, a[1..] + y);
      assert a == [a[0]] + a[1..];
      PlusAssoc([a[0]], a[1..], x);
      PlusAssoc([a[0]], a[1..], y);
    }
  }

  /** a and b agree before position i, and there a is smaller. */
  ghost predicate SmallerAt(a: string, b: string, i: nat) {
    i < |a| && i < |b| && a[i] < b[i] && forall j :: 0 <= j < i ==> a[j] == b[j]
  }

  /** The order of strings: a is a prefix of b, or smaller where they first differ. */
  lemma {:induction false} LeIff(a: string, b: string)
    ensures Le(a, b) <==> a <= b || exists i: nat :: SmallerAt(a, b, i)
  {
    if a != "" && b != "" {
      LeIff(a[1..], b[1..]);
      if a[0] == b[0] {
        assert a == [a[0]] + a[1..] && b == [b[0]] + b[1..];
        if i: nat :| SmallerAt(a[1..], b[1..], i) {
          assert SmallerAt(a, b, i + 1);
        }
        if i: nat :| SmallerAt(a, b, i) {
          assert SmallerAt(a[1..], b[1..], i - 1);
        }
      } else if a[0] < b[0] {
        assert SmallerAt(a, b, 0);
      }
    }
  }

  ghost predicate Total<T(!new)>(le: (T, T) -> bool) {
    forall x, y :: le(x, y) || le(y, x)
  }

  ghost predicate Transitive<T(!new)>(le: (T, T) -> bool) {
    forall x, y, z :: le(x, y) && le(y, z) ==> le(x, z)
  }

  lemma LeOrders()
    ensures Total(Le) && Transitive(Le)
  {
    forall a, b ensures Le(a, b) || Le(b, a) {
      LeTotal(a, b);
    }
    forall a, b, c | Le(a, b) && Le(b, c) ensures Le(a, c) {
      LeTransitive(a, b, c);
    }
  }

  ghost predicate Sorted<T>(s: seq<T>, le: (T, T) -> bool) {
    forall i, j :: 0 <= i < j < |s| ==> le(s[i], s[j])
  }

  function Insert<T(!new)>(x: T, s: seq<T>, le: (T, T) -> bool): (r: seq<T>)
    requires Total(le) && Transitive(le) && Sorted(s, le)
    ensures Sorted(r, le) && multiset(r) == multiset(s) + multiset{x}
  {
    if s == [] then [x]
    else if le(x, s[0]) then
      assert forall j :: 0 <= j < |s| ==> le(x, s[j]);
      [x] + s
    else
      var t := Insert(x, s[1..], le);
      assert s == [s[0]] + s[1..];
      assert forall j :: 0 <= j < |t| ==> le(s[0], t[j]) by {
        forall j | 0 <= j < |t| ensures le(s[0], t[j]) {
          assert t[j] in multiset(t);
        }
      }
      [s[0]] + t
  }

  function Sort<T(!new)>(s: seq<T>, le: (T, T) -> bool): (r: seq<T>)
    requires Total(le) && Transitive(le)
    ensures Sorted(r, le) && multiset(r) == multiset(s)
  {
    if s == [] then [] else
      assert s == [s[0]] + s[1..];
      Insert(s[0], Sort(s[1..], le), le)
  }

  function SortStrings(s: seq<string>): (r: seq<string>)
    ensures Sorted(r, Le) && multiset(r) == multiset(s)
  {
    LeOrders();
    Sort(s, Le)
  }

  lemma SameElems<T>(r: seq<T>, s: seq<T>)
    requires multiset(r) == multiset(s)
    ensures forall x :: x in r <==> x in s
  {
    forall x ensures x in r <==> x in s {
      assert x in multiset(r) <==> x in multiset(s);
    }
  }

  ghost predicate Distinct<T>(s: seq<T>) {
    forall i, j :: 0 <= i < j < |s| ==> s[i] != s[j]
  }

  lemma {:induction false} DistinctCount<T>(s: seq<T>)
    ensures Distinct(s) <==> forall x :: x in s ==> multiset(s)[x] == 1
  {
    if s != [] {
      var t := s[..|s| - 1];
      var x := s[|s| - 1];
      assert s == t + [x];
      DistinctCount(t);
      if Distinct(s) {
        assert x !in t;
        assert Distinct(t);
        forall y | y in s ensures multiset(s)[y] == 1 {
        }
      } else if forall y :: y in s ==> multiset(s)[y] == 1 {
        assert multiset(s)[x] == multiset(t)[x] + 1;
        forall y | y in t ensures multiset(t)[y] == 1 {
          assert multiset(s)[y] == 1;
        }
      }
    }
  }

  lemma DistinctPermutation<T>(r: seq<T>, s: seq<T>)
    requires multiset(r) == multiset(s) && Distinct(s)
    ensures Distinct(r)
  {
    DistinctCount(r);
    DistinctCount(s);
    SameElems(r, s);
  }

  /** In strictly increasing order. */
  ghost predicate StrictlySorted<T>(s: seq<T>, le: (T, T) -> bool) {
    Sorted(s, le) && Distinct(s)
  }

  lemma FirstIsLeast<T(!new)>(s: seq<T>, x: T, le: (T, T) -> bool)
    requires StrictlySorted(s, le) && x in s && Total(le)
    ensures le(s[0], x) && (x in s[1..] <==> x != s[0])
  {
    assert le(x, x);
  }

  lemma SameEmpty<T>(a: seq<T>, b: seq<T>)
    requires forall x :: x in a ==> x in b
    ensures b == [] ==> a == []
  {
    assert a != [] ==> a[0] in a;
  }

  lemma StrictDistinct<T>(s: seq<T>, le: (T, T) -> bool)
    requires StrictlySorted(s, le)
    ensures Distinct(s)
  {
  }

  lemma {:induction false} DistinctSize<T>(s: seq<T>)
    requires Distinct(s)
    ensures |set x | x in s| == |s|
  {
    if s != [] {
      var t, x := s[..|s| - 1], s[|s| - 1];
      DistinctSize(t);
      assert x !in t && (set y | y in s) == (set y | y in t) + {x};
    }
  }

  /** A strictly increasing sequence is fixed by its elements. */
  lemma {:induction false} StrictUnique<T(!new)>(a: seq<T>, b: seq<T>, le: (T, T) -> bool)
    requires Total(le) && forall x, y :: x in a && y in a && le(x, y) && le(y, x) ==> x == y
    requires StrictlySorted(a, le) && StrictlySorted(b, le) && forall x :: x in a <==> x in b
    ensures a == b
  {
    SameEmpty(a, b);
    SameEmpty(b, a);
    if a != [] && b != [] {
      assert a[0] in a && b[0] in b;
      FirstIsLeast(a, b[0], le);
      FirstIsLeast(b, a[0], le);
      assert a[0] == b[0];
      forall x ensures x in a[1..] <==> x in b[1..] {
        if x in a {
          FirstIsLeast(a, x, le);
          FirstIsLeast(b, x, le);
        }
      }
      StrictUnique(a[1..], b[1..], le);
      assert a == [a[0]] + a[1..] && b == [b[0]] + b[1..];
    }
  }

  lemma NamesUnique(a: seq<string>, b: seq<string>)
    requires StrictlySorted(a, Le) && StrictlySorted(b, Le) && forall id :: id in a <==> id in b
    ensures a == b
  {
    LeOrders();
    forall x, y | Le(x, y) && Le(y, x) ensures x == y {
      LeAntisymmetric(x, y);
    }
    StrictUnique(a, b, Le);
  }

  /** The elements of a set in increasing order. */
  method SortedSet<T(==, !new)>(s: set<T>, le: (T, T) -> bool) returns (elems: seq<T>)
    requires Total(le) && Transitive(le)
    ensures StrictlySorted(elems, le) && |elems| == |s| && forall x :: x in elems <==> x in s
  {
    var left := s;
    var unsorted := [];
    while left != {}
      invariant left <= s && |unsorted| == |s - left| && forall x :: x in unsorted <==> x in s - left
      invariant Distinct(unsorted)
      decreases left
    {
      var x :| x in left;
      assert x !in unsorted && s - (left - {x}) == (s - left) + {x};
      unsorted, left := unsorted + [x], left - {x};
    }
    elems := Sort(unsorted, le);
    SameElems(elems, unsorted);
    DistinctPermutation(elems, unsorted);
    assert |elems| == |multiset(elems)| == |unsorted|;
  }

  /** The keys of a map, as the source collects and sorts them. */
  method SortedNames(s: set<string>) returns (names: seq<string>)
    ensures StrictlySorted(names, Le) && |names| == |s| && forall x :: x in names <==> x in s
  {
    LeOrders();
    names := SortedSet(s, Le);
  }
}
