/** Stable sorting, as Python's `sorted` and JavaScript's `sort` do it, and when its result does not
    depend on the order of the input. */
module Sorting {
  type Order<!T(!new)> = (T, T) -> bool

  /** A total preorder: ties are possible. */
  ghost predicate Total<T(!new)>(le: Order<T>) {
    && (forall x, y :: le(x, y) || le(y, x))
    && (forall x, y, z :: le(x, y) && le(y, z) ==> le(x, z))
  }

  function Insert<T(!new)>(le: Order<T>, x: T, s: seq<T>): seq<T> {
    if s == [] || le(x, s[0]) then [x] + s else [s[0]] + Insert(le, x, s[1..])
  }

  function Sort<T(!new)>(le: Order<T>, s: seq<T>): seq<T> {
    if s == [] then [] else Insert(le, s[0], Sort(le, s[1..]))
  }

  ghost predicate Sorted<T(!new)>(le: Order<T>, s: seq<T>) {
    forall i, j :: 0 <= i < j < |s| ==> le(s[i], s[j])
  }

  lemma {:induction false} InsertIsPermutation<T(!new)>(le: Order<T>, x: T, s: seq<T>)
    ensures multiset(Insert(le, x, s)) == multiset([x] + s)
  {
    if s != [] && !le(x, s[0]) {
      InsertIsPermutation(le, x, s[1..]);
      assert s == [s[0]] + s[1..];
      assert multiset([x] + s) == multiset{x} + multiset{s[0]} + multiset(s[1..]);
    }
  }

  lemma {:induction false} SortIsPermutation<T(!new)>(le: Order<T>, s: seq<T>)
    ensures multiset(Sort(le, s)) == multiset(s)
  {
    if s != [] {
      SortIsPermutation(le, s[1..]);
      InsertIsPermutation(le, s[0], Sort(le, s[1..]));
      assert s == [s[0]] + s[1..];
    }
  }

  lemma SameElements<T>(a: seq<T>, b: seq<T>)
    requires multiset(a) == multiset(b)
    ensures |a| == |b|
    ensures forall x :: x in a <==> x in b
  {
    assert |multiset(a)| == |a| && |multiset(b)| == |b|;
    assert forall x :: x in a <==> x in multiset(a);
    assert forall x :: x in b <==> x in multiset(b);
  }

  lemma InsertElements<T(!new)>(le: Order<T>, x: T, s: seq<T>, y: T)
    ensures y in Insert(le, x, s) <==> y == x || y in s
  {
  }

  lemma SortElements<T(!new)>(le: Order<T>, s: seq<T>, y: T)
    ensures y in Sort(le, s) <==> y in s
  {
    SortIsPermutation(le, s);
    SameElements(Sort(le, s), s);
  }

  lemma {:induction false} InsertIsSorted<T(!new)>(le: Order<T>, x: T, s: seq<T>)
    requires Total(le) && Sorted(le, s)
    ensures Sorted(le, Insert(le, x, s))
  {
    if s != [] && !le(x, s[0]) {
      InsertIsSorted(le, x, s[1..]);
      InsertIsPermutation(le, x, s[1..]);
      var rest := Insert(le, x, s[1..]);
      SameElements(rest, [x] + s[1..]);
      forall j | 0 <= j < |rest|
        ensures le(s[0], rest[j])
      {
        assert rest[j] in [x] + s[1..];
      }
    }
  }

  lemma {:induction false} SortIsSorted<T(!new)>(le: Order<T>, s: seq<T>)
    requires Total(le)
    ensures Sorted(le, Sort(le, s))
  {
    if s != [] {
      SortIsSorted(le, s[1..]);
      InsertIsSorted(le, s[0], Sort(le, s[1..]));
    }
  }

  /** No two different elements of `s` tie. */
  ghost predicate NoTies<T(!new)>(le: Order<T>, s: seq<T>) {
    forall x, y :: x in s && y in s && le(x, y) && le(y, x) ==> x == y
  }

  lemma HeadsAgree<T(!new)>(le: Order<T>, a: seq<T>, b: seq<T>)
    requires Sorted(le, a) && Sorted(le, b) && a != [] && b != [] && a[0] in b && b[0] in a && NoTies(le, a)
    ensures a[0] == b[0]
  {
  }

  lemma TailPart<T>(s: seq<T>)
    requires s != []
    ensures multiset(s[1..]) == multiset(s) - multiset{s[0]}
  {
    assert s == [s[0]] + s[1..];
  }

  /** Without ties there is only one sorted arrangement. */
  lemma {:induction false} SortedIsUnique<T(!new)>(le: Order<T>, a: seq<T>, b: seq<T>)
    requires Sorted(le, a) && Sorted(le, b) && multiset(a) == multiset(b) && NoTies(le, a)
    ensures a == b
  {
    SameElements(a, b);
    if a != [] {
      HeadsAgree(le, a, b);
      TailPart(a);
      TailPart(b);
      SortedIsUnique(le, a[1..], b[1..]);
    }
  }

  /** Without ties sorting gives the same result for every arrangement of the input. */
  lemma SortIsCanonical<T(!new)>(le: Order<T>, a: seq<T>, b: seq<T>)
    requires Total(le) && multiset(a) == multiset(b) && NoTies(le, a)
    ensures Sort(le, a) == Sort(le, b)
  {
    SortIsPermutation(le, a);
    SortIsPermutation(le, b);
    SortIsSorted(le, a);
    SortIsSorted(le, b);
    SameElements(a, Sort(le, a));
    SortedIsUnique(le, Sort(le, a), Sort(le, b));
  }

  function Filter<T>(p: T -> bool, s: seq<T>): seq<T> {
    if s == [] then [] else (if p(s[0]) then [s[0]] else []) + Filter(p, s[1..])
  }

  lemma {:induction false} FilterIsSubset<T>(p: T -> bool, s: seq<T>)
    ensures forall x :: x in Filter(p, s) <==> x in s && p(x)
  {
    if s != [] {
      FilterIsSubset(p, s[1..]);
      assert forall x :: x in s <==> x == s[0] || x in s[1..];
    }
  }

  /** All elements that `p` picks tie with each other. */
  ghost predicate Class<T(!new)>(le: Order<T>, p: T -> bool) {
    forall x, y :: p(x) && p(y) ==> le(x, y)
  }

  lemma {:induction false} InsertIsStable<T(!new)>(le: Order<T>, p: T -> bool, x: T, s: seq<T>)
    requires Class(le, p)
    ensures Filter(p, Insert(le, x, s)) == Filter(p, [x] + s)
  {
    assert ([x] + s)[1..] == s;
    if s != [] && !le(x, s[0]) {
      InsertIsStable(le, p, x, s[1..]);
      assert ([x] + s[1..])[1..] == s[1..];
      assert ([s[0]] + Insert(le, x, s[1..]))[1..] == Insert(le, x, s[1..]);
    }
  }

  /** Stability: elements that tie keep their order. */
  lemma {:induction false} SortIsStable<T(!new)>(le: Order<T>, p: T -> bool, s: seq<T>)
    requires Class(le, p)
    ensures Filter(p, Sort(le, s)) == Filter(p, s)
  {
    if s != [] {
      SortIsStable(le, p, s[1..]);
      InsertIsStable(le, p, s[0], Sort(le, s[1..]));
      assert ([s[0]] + Sort(le, s[1..]))[1..] == Sort(le, s[1..]);
    }
  }

  // ----- Orders on strings

  /** Python's order on str: by code point, a prefix first. */
  predicate StringLe(a: string, b: string) {
    a == [] || (b != [] && (a[0] < b[0] || (a[0] == b[0] && StringLe(a[1..], b[1..]))))
  }

  lemma {:induction false} StringLeTotal(a: string, b: string)
    ensures StringLe(a, b) || StringLe(b, a)
    ensures StringLe(a, b) && StringLe(b, a) ==> a == b
  {
    if a != [] && b != [] {
      StringLeTotal(a[1..], b[1..]);
      assert a == [a[0]] + a[1..] && b == [b[0]] + b[1..];
    }
  }

  lemma {:induction false} StringLeTransitive(a: string, b: string, c: string)
    requires StringLe(a, b) && StringLe(b, c)
    ensures StringLe(a, c)
  {
    if a != [] && a[0] == b[0] == c[0] {
      StringLeTransitive(a[1..], b[1..], c[1..]);
    }
  }

  /** Lexicographic order: the first string is a prefix of the second, or smaller where they first differ. */
  lemma {:induction false} StringLeIsLexicographic(a: string, b: string)
    ensures StringLe(a, b)
            <==> a <= b || exists i :: 0 <= i < |a| && i < |b| && a[..i] == b[..i] && a[i] < b[i]
  {
    if a != [] && b != [] {
      StringLeIsLexicographic(a[1..], b[1..]);
      assert a == [a[0]] + a[1..] && b == [b[0]] + b[1..];
      if a[0] == b[0] {
        if i :| 0 <= i < |a| - 1 && i < |b| - 1 && a[1..][..i] == b[1..][..i] && a[1..][i] < b[1..][i] {
          assert a[..i + 1] == [a[0]] + a[1..][..i] && b[..i + 1] == [b[0]] + b[1..][..i];
        }
        if i :| 0 <= i < |a| && i < |b| && a[..i] == b[..i] && a[i] < b[i] {
          assert i > 0;
          assert a[1..][..i - 1] == a[..i][1..] && b[1..][..i - 1] == b[..i][1..];
          assert a[1..][i - 1] < b[1..][i - 1];
        }
      } else {
        assert a[..0] == b[..0];
        assert forall i :: 0 < i < |a| && i < |b| ==> a[..i][0] != b[..i][0];
      }
    }
  }

  lemma StringLeIsOrder(s: seq<string>)
    ensures Total(StringLe) && NoTies(StringLe, s)
  {
    forall x, y
      ensures StringLe(x, y) || StringLe(y, x)
      ensures StringLe(x, y) && StringLe(y, x) ==> x == y
    {
      StringLeTotal(x, y);
    }
    forall x, y, z | StringLe(x, y) && StringLe(y, z)
      ensures StringLe(x, z)
    {
      StringLeTransitive(x, y, z);
    }
  }

  /** The order on tuples of strings. */
  predicate TupleLe(a: seq<string>, b: seq<string>) {
    a == [] || (b != [] && (if a[0] == b[0] then TupleLe(a[1..], b[1..]) else StringLe(a[0], b[0])))
  }

  /** Tuples are compared at the first place where they differ. */
  lemma {:induction false} TupleLeIsLexicographic(a: seq<string>, b: seq<string>)
    ensures TupleLe(a, b)
            <==> a <= b || exists i ::
              0 <= i < |a| && i < |b| && a[..i] == b[..i] && a[i] != b[i] && StringLe(a[i], b[i])
  {
    if a != [] && b != [] {
      TupleLeIsLexicographic(a[1..], b[1..]);
      assert a == [a[0]] + a[1..] && b == [b[0]] + b[1..];
      if a[0] == b[0] {
        if i :| 0 <= i < |a| - 1 && i < |b| - 1 && a[1..][..i] == b[1..][..i]
                && a[1..][i] != b[1..][i] && StringLe(a[1..][i], b[1..][i]) {
          assert a[..i + 1] == [a[0]] + a[1..][..i] && b[..i + 1] == [b[0]] + b[1..][..i];
          assert a[i + 1] != b[i + 1] && StringLe(a[i + 1], b[i + 1]);
        }
        if i :| 0 <= i < |a| && i < |b| && a[..i] == b[..i] && a[i] != b[i] && StringLe(a[i], b[i]) {
          assert i > 0;
          assert a[1..][..i - 1] == a[..i][1..] && b[1..][..i - 1] == b[..i][1..];
          assert a[1..][i - 1] != b[1..][i - 1] && StringLe(a[1..][i - 1], b[1..][i - 1]);
        }
      } else {
        assert a[..0] == b[..0];
        assert forall i :: 0 < i < |a| && i < |b| ==> a[..i][0] != b[..i][0];
      }
    }
  }

  lemma {:induction false} TupleLeTotal(a: seq<string>, b: seq<string>)
    ensures TupleLe(a, b) || TupleLe(b, a)
    ensures TupleLe(a, b) && TupleLe(b, a) ==> a == b
  {
    if a != [] && b != [] {
      StringLeTotal(a[0], b[0]);
      TupleLeTotal(a[1..], b[1..]);
      assert a == [a[0]] + a[1..] && b == [b[0]] + b[1..];
    }
  }

  lemma {:induction false} TupleLeTransitive(a: seq<string>, b: seq<string>, c: seq<string>)
    requires TupleLe(a, b) && TupleLe(b, c)
    ensures TupleLe(a, c)
  {
    if a != [] {
      if a[0] == b[0] == c[0] {
        TupleLeTransitive(a[1..], b[1..], c[1..]);
      } else if a[0] != b[0] && b[0] != c[0] {
        StringLeTransitive(a[0], b[0], c[0]);
        StringLeTotal(a[0], b[0]);
      }
    }
  }

  /** `key=` sorting by a tuple of strings. */
  function ByKey<T(!new)>(key: T -> seq<string>): Order<T> {
    (x, y) => TupleLe(key(x), key(y))
  }

  lemma ByKeyIsTotal<T(!new)>(key: T -> seq<string>)
    ensures Total(ByKey(key))
  {
    var le := ByKey(key);
    forall x, y
      ensures le(x, y) || le(y, x)
    {
      TupleLeTotal(key(x), key(y));
    }
    forall x, y, z | le(x, y) && le(y, z)
      ensures le(x, z)
    {
      TupleLeTransitive(key(x), key(y), key(z));
    }
  }

  lemma ByKeyTies<T(!new)>(key: T -> seq<string>, x: T, y: T)
    ensures ByKey(key)(x, y) && ByKey(key)(y, x) <==> key(x) == key(y)
  {
    TupleLeTotal(key(x), key(y));
    TupleLeTotal(key(x), key(x));
  }
}
