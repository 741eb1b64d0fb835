/** Sort, pick and render: how one list of a compiled document is made from stored records, and exactly
    when the result does not depend on the order in which the records were stored. */
module Selection {
  import opened OrderedDict
  import opened Sorting

  /** A list comprehension with a condition. */
  function Section<R, C>(s: seq<R>, wanted: R -> bool, render: R -> C): seq<C> {
    if s == [] then []
    else (if wanted(s[0]) then [render(s[0])] else []) + Section(s[1..], wanted, render)
  }

  lemma Associative<C>(x: seq<C>, y: seq<C>, z: seq<C>)
    ensures x + (y + z) == (x + y) + z
  {
  }

  lemma {:induction false} SectionConcat<R, C>(a: seq<R>, b: seq<R>, wanted: R -> bool, render: R -> C)
    ensures Section(a + b, wanted, render) == Section(a, wanted, render) + Section(b, wanted, render)
  {
    if a == [] {
      assert a + b == b;
    } else {
      var first := if wanted(a[0]) then [render(a[0])] else [];
      SectionConcat(a[1..], b, wanted, render);
      assert (a + b)[1..] == a[1..] + b;
      Associative(first, Section(a[1..], wanted, render), Section(b, wanted, render));
    }
  }

  /** One step of the comprehension's loop. */
  lemma SectionStep<R, C>(s: seq<R>, i: nat, wanted: R -> bool, render: R -> C)
    requires i < |s|
    ensures Section(s[..i + 1], wanted, render)
         == Section(s[..i], wanted, render) + (if wanted(s[i]) then [render(s[i])] else [])
  {
    SectionConcat(s[..i], [s[i]], wanted, render);
    assert s[..i + 1] == s[..i] + [s[i]];
  }

  /** What the elements contribute, in order. */
  function Flat<R, C>(s: seq<R>, f: R -> seq<C>): seq<C> {
    if s == [] then [] else Flat(s[..|s| - 1], f) + f(s[|s| - 1])
  }

  lemma {:induction false} FlatElements<R, C>(s: seq<R>, f: R -> seq<C>, c: C)
    ensures c in Flat(s, f) <==> exists r :: r in s && c in f(r)
  {
    if s != [] {
      var n := |s| - 1;
      FlatElements(s[..n], f, c);
      assert forall r :: r in s <==> r in s[..n] || r == s[n];
    }
  }

  /** Contributions follow each other in the order of the elements. */
  lemma {:induction false} FlatIsConcatenation<R, C>(a: seq<R>, b: seq<R>, f: R -> seq<C>, r: R)
    ensures Flat(a + b, f) == Flat(a, f) + Flat(b, f)
    ensures Flat([r], f) == f(r)
    decreases |b|
  {
    assert [r][..0] == [];
    if b == [] {
      assert a + b == a;
    } else {
      var n := |b| - 1;
      assert (a + b)[..|a + b| - 1] == a + b[..n];
      FlatIsConcatenation(a, b[..n], f, r);
      Associative(Flat(a, f), Flat(b[..n], f), f(b[n]));
    }
  }

  lemma FlatIsEmpty<R, C>(s: seq<R>, f: R -> seq<C>)
    ensures Flat(s, f) == [] <==> forall r :: r in s ==> f(r) == []
  {
  }

  lemma {:induction false} FlatIsPointwise<R, C>(s: seq<R>, f: R -> seq<C>, g: R -> seq<C>)
    requires forall r :: r in s ==> f(r) == g(r)
    ensures Flat(s, f) == Flat(s, g)
  {
    if s != [] {
      FlatIsPointwise(s[..|s| - 1], f, g);
    }
  }

  lemma FlatLast<R, C>(s: seq<R>, f: R -> seq<C>)
    requires s != []
    ensures multiset(Flat(s, f)) == multiset(Flat(s[..|s| - 1], f)) + multiset(f(s[|s| - 1]))
  {
  }

  lemma SumsAgree<C>(a: multiset<C>, b: multiset<C>, c: multiset<C>, d: multiset<C>,
                     w: multiset<C>, x: multiset<C>, y: multiset<C>, z: multiset<C>)
    requires a + b == c + d && w + x == y + z
    ensures (a + w) + (b + x) == (c + y) + (d + z)
  {
    forall e: C
      ensures ((a + w) + (b + x))[e] == ((c + y) + (d + z))[e]
    {
      assert (a + b)[e] == (c + d)[e] && (w + x)[e] == (y + z)[e];
    }
  }

  /** What is only moved between two lists stays in their sum. */
  lemma {:induction false} FlatConserves<R, C>(s: seq<R>, f: R -> seq<C>, g: R -> seq<C>, h: R -> seq<C>,
                                               k: R -> seq<C>)
    requires forall r :: r in s ==> multiset(f(r)) + multiset(g(r)) == multiset(h(r)) + multiset(k(r))
    ensures multiset(Flat(s, f)) + multiset(Flat(s, g)) == multiset(Flat(s, h)) + multiset(Flat(s, k))
  {
    if s != [] {
      var n := |s| - 1;
      FlatConserves(s[..n], f, g, h, k);
      FlatLast(s, f);
      FlatLast(s, g);
      FlatLast(s, h);
      FlatLast(s, k);
      assert s[n] in s;
      SumsAgree(multiset(Flat(s[..n], f)), multiset(Flat(s[..n], g)), multiset(Flat(s[..n], h)),
                multiset(Flat(s[..n], k)),
                multiset(f(s[n])), multiset(g(s[n])), multiset(h(s[n])), multiset(k(s[n])));
    }
  }

  function Without<R>(s: seq<R>, i: nat): seq<R>
    requires i < |s|
  {
    s[..i] + s[i + 1..]
  }

  lemma SplitAt<R>(s: seq<R>, i: nat)
    requires i < |s|
    ensures s == s[..i] + ([s[i]] + s[i + 1..])
    ensures multiset(Without(s, i)) == multiset(s) - multiset{s[i]}
  {
  }

  /** Element k moved to place i. */
  function Moved<R>(s: seq<R>, k: nat, i: nat): seq<R>
    requires k < |s| && i < |s|
  {
    Without(s, k)[..i] + [s[k]] + Without(s, k)[i..]
  }

  lemma Inserted<R>(s: seq<R>, i: nat, x: R)
    requires i <= |s|
    ensures multiset(s[..i] + [x] + s[i..]) == multiset(s) + multiset{x}
  {
    assert s == s[..i] + s[i..];
  }

  lemma MovedIsPermutation<R>(s: seq<R>, k: nat, i: nat)
    requires k < |s| && i < |s|
    ensures multiset(Moved(s, k, i)) == multiset(s)
    ensures |Moved(s, k, i)| == |s| && Moved(s, k, i)[i] == s[k]
  {
    Inserted(Without(s, k), i, s[k]);
    Inserted(Without(s, k), k, s[k]);
    assert Without(s, k)[..k] + [s[k]] + Without(s, k)[k..] == s;
  }

  lemma SectionWithout<R, C>(s: seq<R>, i: nat, wanted: R -> bool, render: R -> C)
    requires i < |s|
    ensures multiset(Section(s, wanted, render))
         == multiset(Section([s[i]], wanted, render)) + multiset(Section(Without(s, i), wanted, render))
  {
    SplitAt(s, i);
    SectionConcat(s[..i], [s[i]] + s[i + 1..], wanted, render);
    SectionConcat([s[i]], s[i + 1..], wanted, render);
    SectionConcat(s[..i], s[i + 1..], wanted, render);
  }

  /** The entries and their number do not depend on the order of the records. */
  lemma {:induction false} SectionOfPermutation<R, C>(a: seq<R>, b: seq<R>, wanted: R -> bool, render: R -> C)
    requires multiset(a) == multiset(b)
    ensures multiset(Section(a, wanted, render)) == multiset(Section(b, wanted, render))
  {
    SameElements(a, b);
    if a != [] {
      assert a[0] in b;
      var i :| 0 <= i < |b| && b[i] == a[0];
      SplitAt(a, 0);
      SplitAt(b, i);
      assert Without(a, 0) == a[1..];
      SectionOfPermutation(a[1..], Without(b, i), wanted, render);
      SectionWithout(a, 0, wanted, render);
      SectionWithout(b, i, wanted, render);
    }
  }

  lemma {:induction false} SectionMembership<R, C>(s: seq<R>, wanted: R -> bool, render: R -> C, c: C)
    ensures c in Section(s, wanted, render) <==> exists r :: r in s && wanted(r) && render(r) == c
  {
    if s != [] {
      SectionMembership(s[1..], wanted, render, c);
      assert forall r :: r in s <==> r == s[0] || r in s[1..];
    }
  }

  /** The sort key of a wanted record can be read off its entry. */
  ghost predicate Keyed<R(!new), C(!new)>(wanted: R -> bool, render: R -> C, key: R -> seq<string>,
                                          mark: C -> seq<string>)
  {
    forall r :: wanted(r) ==> mark(render(r)) == key(r)
  }

  /** Wanted records with one sort key have one entry. */
  ghost predicate Clear<R(!new), C>(s: seq<R>, wanted: R -> bool, render: R -> C, key: R -> seq<string>) {
    forall x, y :: x in s && y in s && wanted(x) && wanted(y) && key(x) == key(y) ==> render(x) == render(y)
  }

  lemma {:induction false} SectionIsSorted<R(!new), C(!new)>(s: seq<R>, wanted: R -> bool, render: R -> C,
                                                              key: R -> seq<string>, mark: C -> seq<string>)
    requires Keyed(wanted, render, key, mark) && Sorted(ByKey(key), s)
    ensures Sorted(ByKey(mark), Section(s, wanted, render))
  {
    if s != [] {
      SectionIsSorted(s[1..], wanted, render, key, mark);
      var rest := Section(s[1..], wanted, render);
      if wanted(s[0]) {
        forall j | 0 <= j < |rest|
          ensures ByKey(mark)(render(s[0]), rest[j])
        {
          SectionMembership(s[1..], wanted, render, rest[j]);
          var r :| r in s[1..] && wanted(r) && render(r) == rest[j];
          var i :| 0 <= i < |s| - 1 && s[1..][i] == r;
          assert ByKey(key)(s[0], s[i + 1]);
        }
      }
    }
  }

  lemma ClearHasNoTies<R(!new), C(!new)>(s: seq<R>, wanted: R -> bool, render: R -> C,
                                         key: R -> seq<string>, mark: C -> seq<string>)
    requires Keyed(wanted, render, key, mark) && Clear(s, wanted, render, key)
    ensures NoTies(ByKey(mark), Section(s, wanted, render))
  {
    var all, le := Section(s, wanted, render), ByKey(mark);
    forall c, d | c in all && d in all && le(c, d) && le(d, c)
      ensures c == d
    {
      SectionMembership(s, wanted, render, c);
      SectionMembership(s, wanted, render, d);
      var x :| x in s && wanted(x) && render(x) == c;
      var y :| y in s && wanted(y) && render(y) == d;
      ByKeyTies(mark, c, d);
    }
  }

  ghost predicate DistinctKeys<R>(s: seq<R>, key: R -> seq<string>) {
    forall i, j :: 0 <= i < j < |s| ==> key(s[i]) != key(s[j])
  }

  /** Records with distinct sort keys have entries with distinct ones. */
  lemma {:induction false} SectionIsDistinct<R(!new), C(!new)>(s: seq<R>, wanted: R -> bool, render: R -> C,
                                                                key: R -> seq<string>, mark: C -> seq<string>)
    requires Keyed(wanted, render, key, mark) && DistinctKeys(s, key)
    ensures DistinctKeys(Section(s, wanted, render), mark)
  {
    if s != [] {
      SectionIsDistinct(s[1..], wanted, render, key, mark);
      var rest := Section(s[1..], wanted, render);
      forall j | 0 <= j < |rest| && wanted(s[0])
        ensures mark(rest[j]) != mark(render(s[0]))
      {
        SectionMembership(s[1..], wanted, render, rest[j]);
        var r :| r in s[1..] && wanted(r) && render(r) == rest[j];
        var i :| 0 <= i < |s| - 1 && s[1..][i] == r;
        assert key(s[i + 1]) != key(s[0]);
      }
    }
  }

  function Every<C>(): C -> bool { (c: C) => true }

  lemma {:induction false} MarksAt<C>(s: seq<C>, mark: C -> seq<string>)
    ensures |Section(s, Every(), mark)| == |s|
    ensures forall i :: 0 <= i < |s| ==> Section(s, Every(), mark)[i] == mark(s[i])
  {
    if s != [] {
      MarksAt(s[1..], mark);
    }
  }

  lemma DistinctKeysStay<C>(a: seq<C>, b: seq<C>, mark: C -> seq<string>)
    requires multiset(a) == multiset(b) && DistinctKeys(a, mark)
    ensures DistinctKeys(b, mark)
  {
    SectionOfPermutation(a, b, Every(), mark);
    MarksAt(a, mark);
    MarksAt(b, mark);
    DuplicatesStay(Section(a, Every(), mark), Section(b, Every(), mark));
    forall i, j | 0 <= i < j < |b|
      ensures mark(b[i]) != mark(b[j])
    {
      assert Section(b, Every(), mark)[i] != Section(b, Every(), mark)[j];
    }
  }

  /** The published list: sorted, picked, rendered. */
  function Published<R(!new), C>(s: seq<R>, wanted: R -> bool, render: R -> C, key: R -> seq<string>): seq<C> {
    Section(Sort(ByKey(key), s), wanted, render)
  }

  /** It lists every wanted record once, with repetitions kept, in the order of the sort key. */
  lemma PublishedIsExact<R(!new), C(!new)>(s: seq<R>, wanted: R -> bool, render: R -> C,
                                           key: R -> seq<string>, mark: C -> seq<string>)
    requires Keyed(wanted, render, key, mark)
    ensures multiset(Published(s, wanted, render, key)) == multiset(Section(s, wanted, render))
    ensures Sorted(ByKey(mark), Published(s, wanted, render, key))
  {
    SortIsPermutation(ByKey(key), s);
    SectionOfPermutation(Sort(ByKey(key), s), s, wanted, render);
    ByKeyIsTotal(key);
    SortIsSorted(ByKey(key), s);
    SectionIsSorted(Sort(ByKey(key), s), wanted, render, key, mark);
  }

  /** Records with distinct sort keys are published once each. */
  lemma PublishedOnce<R(!new), C(!new)>(s: seq<R>, wanted: R -> bool, render: R -> C,
                                        key: R -> seq<string>, mark: C -> seq<string>)
    requires Keyed(wanted, render, key, mark) && DistinctKeys(s, key)
    ensures DistinctKeys(Published(s, wanted, render, key), mark)
  {
    PublishedIsExact(s, wanted, render, key, mark);
    SectionIsDistinct(s, wanted, render, key, mark);
    DistinctKeysStay(Section(s, wanted, render), Published(s, wanted, render, key), mark);
  }

  lemma ClearIsCanonical<R(!new), C(!new)>(a: seq<R>, b: seq<R>, wanted: R -> bool, render: R -> C,
                                           key: R -> seq<string>, mark: C -> seq<string>)
    requires Keyed(wanted, render, key, mark) && Clear(a, wanted, render, key) && multiset(a) == multiset(b)
    ensures Published(a, wanted, render, key) == Published(b, wanted, render, key)
  {
    PublishedIsExact(a, wanted, render, key, mark);
    PublishedIsExact(b, wanted, render, key, mark);
    SectionOfPermutation(a, b, wanted, render);
    SameElements(Published(a, wanted, render, key), Section(a, wanted, render));
    ClearHasNoTies(a, wanted, render, key, mark);
    SortedIsUnique(ByKey(mark), Published(a, wanted, render, key), Published(b, wanted, render, key));
  }

  // ----- Without Clear the stored order shows

  lemma {:induction false} FilterConcat<T>(p: T -> bool, a: seq<T>, b: seq<T>)
    ensures Filter(p, a + b) == Filter(p, a) + Filter(p, b)
  {
    if a == [] {
      assert a + b == b;
    } else {
      var first := if p(a[0]) then [a[0]] else [];
      FilterConcat(p, a[1..], b);
      assert (a + b)[1..] == a[1..] + b;
      Associative(first, Filter(p, a[1..]), Filter(p, b));
    }
  }

  lemma FilterCons<T>(p: T -> bool, x: T, s: seq<T>)
    ensures Filter(p, [x] + s) == (if p(x) then [x] else []) + Filter(p, s)
  {
  }

  /** The wanted records with sort key `k`. */
  function Tied<R>(wanted: R -> bool, key: R -> seq<string>, k: seq<string>): R -> bool {
    (r: R) => wanted(r) && key(r) == k
  }

  function Marked<C>(mark: C -> seq<string>, k: seq<string>): C -> bool {
    (c: C) => mark(c) == k
  }

  /** The entries marked `k` come from the records tied at `k`, in their order. */
  lemma {:induction false} EntriesOfTied<R(!new), C(!new)>(s: seq<R>, wanted: R -> bool, render: R -> C,
                                                           key: R -> seq<string>, mark: C -> seq<string>,
                                                           k: seq<string>)
    requires Keyed(wanted, render, key, mark)
    ensures Filter(Marked(mark, k), Section(s, wanted, render))
            == Section(Filter(Tied(wanted, key, k), s), wanted, render)
  {
    if s != [] {
      EntriesOfTied(s[1..], wanted, render, key, mark, k);
      var rest, tied := Section(s[1..], wanted, render), Filter(Tied(wanted, key, k), s[1..]);
      if wanted(s[0]) {
        FilterCons(Marked(mark, k), render(s[0]), rest);
        assert Section(s, wanted, render) == [render(s[0])] + rest;
        if key(s[0]) == k {
          assert Filter(Tied(wanted, key, k), s) == [s[0]] + tied;
          assert ([s[0]] + tied)[1..] == tied;
        } else {
          assert Filter(Tied(wanted, key, k), s) == [] + tied == tied;
        }
      } else {
        assert Section(s, wanted, render) == [] + rest == rest;
        assert Filter(Tied(wanted, key, k), s) == [] + tied == tied;
      }
    }
  }

  /** The stored order that puts record `i` last. */
  function PutLast<R>(s: seq<R>, i: nat): seq<R>
    requires i < |s|
  {
    Without(s, i) + [s[i]]
  }

  lemma PutLastIsPermutation<R>(s: seq<R>, i: nat)
    requires i < |s|
    ensures multiset(PutLast(s, i)) == multiset(s)
  {
    SplitAt(s, i);
  }

  /** Among the records tied with it, the one stored last is published last. */
  lemma LastStaysLast<R(!new)>(s: seq<R>, i: nat, wanted: R -> bool, key: R -> seq<string>)
    requires i < |s| && wanted(s[i])
    ensures var tied := Filter(Tied(wanted, key, key(s[i])), Sort(ByKey(key), PutLast(s, i)));
            tied != [] && tied[|tied| - 1] == s[i]
  {
    var k := key(s[i]);
    var p := Tied(wanted, key, k);
    TupleLeTotal(k, k);
    assert Class(ByKey(key), p);
    SortIsStable(ByKey(key), p, PutLast(s, i));
    FilterConcat(p, Without(s, i), [s[i]]);
    assert Filter(p, [s[i]]) == [s[i]];
  }

  lemma LastEntry<R(!new), C(!new)>(s: seq<R>, i: nat, wanted: R -> bool, render: R -> C,
                                    key: R -> seq<string>, mark: C -> seq<string>)
    requires Keyed(wanted, render, key, mark) && i < |s| && wanted(s[i])
    ensures var same := Filter(Marked(mark, key(s[i])), Published(PutLast(s, i), wanted, render, key));
            same != [] && same[|same| - 1] == render(s[i])
  {
    LastStaysLast(s, i, wanted, key);
    var sorted := Sort(ByKey(key), PutLast(s, i));
    var tied := Filter(Tied(wanted, key, key(s[i])), sorted);
    EntriesOfTied(sorted, wanted, render, key, mark, key(s[i]));
    assert tied == tied[..|tied| - 1] + [s[i]];
    SectionConcat(tied[..|tied| - 1], [s[i]], wanted, render);
  }

  /** Whether the stored order leaves the published list alone. */
  ghost predicate OrderFree<R(!new), C>(s: seq<R>, wanted: R -> bool, render: R -> C, key: R -> seq<string>) {
    forall b: seq<R> :: multiset(b) == multiset(s) ==>
      Published(b, wanted, render, key) == Published(s, wanted, render, key)
  }

  /** The published list does not depend on the stored order exactly when wanted records with one sort
      key have one entry. */
  lemma OrderFreeExactlyWhen<R(!new), C(!new)>(s: seq<R>, wanted: R -> bool, render: R -> C,
                                               key: R -> seq<string>, mark: C -> seq<string>)
    requires Keyed(wanted, render, key, mark)
    ensures OrderFree(s, wanted, render, key) <==> Clear(s, wanted, render, key)
  {
    if Clear(s, wanted, render, key) {
      forall b: seq<R> | multiset(b) == multiset(s)
        ensures Published(b, wanted, render, key) == Published(s, wanted, render, key)
      {
        ClearIsCanonical(s, b, wanted, render, key, mark);
      }
    }
    if OrderFree(s, wanted, render, key) {
      forall x, y | x in s && y in s && wanted(x) && wanted(y) && key(x) == key(y)
        ensures render(x) == render(y)
      {
        var i :| 0 <= i < |s| && s[i] == x;
        var j :| 0 <= j < |s| && s[j] == y;
        PutLastIsPermutation(s, i);
        PutLastIsPermutation(s, j);
        LastEntry(s, i, wanted, render, key, mark);
        LastEntry(s, j, wanted, render, key, mark);
      }
    }
  }
}
