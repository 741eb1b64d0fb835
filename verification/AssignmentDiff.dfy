/** The diff that a publish approval shows (`diffAssignments` in apps/console/src/pages/Approvals.tsx).

    An assignment is any value with an id; `text` is JSON.stringify, by which the source compares, and
    `locale` is the order of localeCompare, under which different ids may tie. */
module AssignmentDiff {
  import opened Wrappers
  import opened OrderedDict
  import opened Sorting

  datatype Kind = Added | Removed | Changed

  datatype Entry<A> = Entry(id: string, kind: Kind, live: Option<A>, working: Option<A>)

  /** The list as a map by id; of entries with one id the last one counts. */
  function ById<A>(list: seq<A>, id: A -> string): Dict<A> {
    FromPairs(seq(|list|, i requires 0 <= i < |list| => (id(list[i]), list[i])))
  }

  /** What the diff says about one id, if anything. */
  function Expected<A>(a: map<string, A>, b: map<string, A>, text: A -> string, id: string): Option<Entry<A>> {
    if id in b then
      if id !in a then Some(Entry(id, Added, None, Some(b[id])))
      else if text(a[id]) != text(b[id]) then Some(Entry(id, Changed, Some(a[id]), Some(b[id])))
      else None
    else if id in a then Some(Entry(id, Removed, Some(a[id]), None))
    else None
  }

  /** The entries for the given ids, in order. */
  function Entries<A>(ids: seq<string>, a: map<string, A>, b: map<string, A>, text: A -> string): seq<Entry<A>> {
    if ids == [] then []
    else
      var last := Expected(a, b, text, ids[|ids| - 1]);
      Entries(ids[..|ids| - 1], a, b, text) + (if last.Some? then [last.value] else [])
  }

  function Without(ids: seq<string>, m: set<string>): seq<string> {
    if ids == [] then []
    else Without(ids[..|ids| - 1], m) + (if ids[|ids| - 1] in m then [] else [ids[|ids| - 1]])
  }

  function IdOrder<A(!new)>(locale: (string, string) -> bool): Order<Entry<A>> {
    (x: Entry<A>, y: Entry<A>) => locale(x.id, y.id)
  }

  /** The ids in the order in which the two loops meet them. */
  function Visited<A>(a: Dict<A>, b: Dict<A>): seq<string> {
    b.keys + Without(a.keys, b.values.Keys)
  }

  function Diff<A(!new)>(base: seq<A>, next: seq<A>, id: A -> string, text: A -> string,
                         locale: (string, string) -> bool): seq<Entry<A>>
  {
    var a, b := ById(base, id), ById(next, id);
    Sort(IdOrder(locale), Entries(Visited(a, b), a.values, b.values, text))
  }

  method DiffAssignments<A(!new)>(base: seq<A>, next: seq<A>, id: A -> string, text: A -> string,
                                  locale: (string, string) -> bool) returns (out: seq<Entry<A>>)
    ensures out == Diff(base, next, id, text, locale)
  {
    var a, b := ById(base, id), ById(next, id);
    FromPairsValid(seq(|base|, i requires 0 <= i < |base| => (id(base[i]), base[i])));
    FromPairsValid(seq(|next|, i requires 0 <= i < |next| => (id(next[i]), next[i])));
    out := Scan(a, b, text);
    out := Sort(IdOrder(locale), out);
  }

  /** The two loops that push the entries. */
  method Scan<A>(a: Dict<A>, b: Dict<A>, text: A -> string) returns (out: seq<Entry<A>>)
    requires Valid(a) && Valid(b)
    ensures out == Entries(Visited(a, b), a.values, b.values, text)
  {
    out := ScanNext(a, b, text);
    out := ScanBase(a, b, text, out);
  }

  method ScanNext<A>(a: Dict<A>, b: Dict<A>, text: A -> string) returns (out: seq<Entry<A>>)
    requires Valid(b)
    ensures out == Entries(b.keys, a.values, b.values, text)
  {
    out := [];
    var i := 0;
    while i < |b.keys|
      invariant 0 <= i <= |b.keys| && out == Entries(b.keys[..i], a.values, b.values, text)
    {
      var id := b.keys[i];
      var w := b.values[id];
      assert b.keys[..i + 1][..i] == b.keys[..i];
      if id !in a.values {
        out := out + [Entry(id, Added, None, Some(w))];
      } else if text(a.values[id]) != text(w) {
        out := out + [Entry(id, Changed, Some(a.values[id]), Some(w))];
      }
      i := i + 1;
    }
    assert b.keys[..i] == b.keys;
  }

  method ScanBase<A>(a: Dict<A>, b: Dict<A>, text: A -> string, before: seq<Entry<A>>) returns (out: seq<Entry<A>>)
    requires Valid(a) && before == Entries(b.keys, a.values, b.values, text)
    ensures out == Entries(Visited(a, b), a.values, b.values, text)
  {
    out := before;
    var j := 0;
    ghost var seen := b.keys;
    assert seen == b.keys + Without(a.keys[..0], b.values.Keys);
    while j < |a.keys|
      invariant 0 <= j <= |a.keys|
      invariant seen == b.keys + Without(a.keys[..j], b.values.Keys)
      invariant out == Entries(seen, a.values, b.values, text)
    {
      var id := a.keys[j];
      assert a.keys[..j + 1][..j] == a.keys[..j];
      if id !in b.values {
        out := out + [Entry(id, Removed, Some(a.values[id]), None)];
        assert (seen + [id])[..|seen|] == seen;
        seen := seen + [id];
      }
      j := j + 1;
    }
    assert a.keys[..j] == a.keys;
  }

  // ----- What the diff contains

  lemma {:induction false} EntriesMembership<A>(ids: seq<string>, a: map<string, A>, b: map<string, A>,
                                                text: A -> string, e: Entry<A>)
    ensures e in Entries(ids, a, b, text) <==> e.id in ids && Expected(a, b, text, e.id) == Some(e)
  {
    if ids != [] {
      EntriesMembership(ids[..|ids| - 1], a, b, text, e);
      assert ids == ids[..|ids| - 1] + [ids[|ids| - 1]];
    }
  }

  lemma {:induction false} WithoutMembership(ids: seq<string>, m: set<string>, id: string)
    ensures id in Without(ids, m) <==> id in ids && id !in m
  {
    if ids != [] {
      WithoutMembership(ids[..|ids| - 1], m, id);
      assert ids == ids[..|ids| - 1] + [ids[|ids| - 1]];
    }
  }

  /** For every pair of lists: an entry is in the diff exactly when it is what should be said about its
      id. In particular the diff is empty exactly when the lists agree as maps. */
  lemma DiffIsExact<A(!new)>(base: seq<A>, next: seq<A>, id: A -> string, text: A -> string,
                             locale: (string, string) -> bool, e: Entry<A>)
    ensures e in Diff(base, next, id, text, locale)
            <==> Expected(ById(base, id).values, ById(next, id).values, text, e.id) == Some(e)
  {
    var a, b := ById(base, id), ById(next, id);
    FromPairsValid(seq(|base|, i requires 0 <= i < |base| => (id(base[i]), base[i])));
    FromPairsValid(seq(|next|, i requires 0 <= i < |next| => (id(next[i]), next[i])));
    var entries := Entries(Visited(a, b), a.values, b.values, text);
    SortIsPermutation(IdOrder(locale), entries);
    SameElements(Sort(IdOrder(locale), entries), entries);
    EntriesMembership(Visited(a, b), a.values, b.values, text, e);
    WithoutMembership(a.keys, b.values.Keys, e.id);
  }

  /** The two maps agree: same ids, and values that print the same. */
  ghost predicate Agree<A>(a: map<string, A>, b: map<string, A>, text: A -> string) {
    a.Keys == b.Keys && forall k :: k in a && k in b ==> text(a[k]) == text(b[k])
  }

  lemma EmptyExactlyWhenAgree<A(!new)>(base: seq<A>, next: seq<A>, id: A -> string, text: A -> string,
                                       locale: (string, string) -> bool)
    ensures Diff(base, next, id, text, locale) == [] <==> Agree(ById(base, id).values, ById(next, id).values, text)
  {
    var a, b := ById(base, id).values, ById(next, id).values;
    var d := Diff(base, next, id, text, locale);
    if d == [] {
      forall k
        ensures Expected(a, b, text, k) == None
      {
        if Expected(a, b, text, k).Some? {
          DiffIsExact(base, next, id, text, locale, Expected(a, b, text, k).value);
        }
      }
      forall k
        ensures k in a <==> k in b
      {
        assert Expected(a, b, text, k) == None;
      }
      forall k | k in a && k in b
        ensures text(a[k]) == text(b[k])
      {
        assert Expected(a, b, text, k) == None;
      }
    } else {
      DiffIsExact(base, next, id, text, locale, d[0]);
      assert d[0] in d;
    }
  }

  predicate DistinctIds<A>(d: seq<Entry<A>>) {
    forall i, j :: 0 <= i < j < |d| ==> d[i].id != d[j].id
  }

  lemma {:induction false} EntriesHaveDistinctIds<A>(ids: seq<string>, a: map<string, A>, b: map<string, A>,
                                                     text: A -> string)
    requires NoDuplicates(ids)
    ensures DistinctIds(Entries(ids, a, b, text))
  {
    if ids != [] {
      var rest, last := ids[..|ids| - 1], ids[|ids| - 1];
      EntriesHaveDistinctIds(rest, a, b, text);
      var front := Entries(rest, a, b, text);
      forall i | 0 <= i < |front|
        ensures front[i].id != last
      {
        assert front[i] in front;
        EntriesMembership(rest, a, b, text, front[i]);
      }
    }
  }

  lemma {:induction false} WithoutNoDuplicates(ids: seq<string>, m: set<string>)
    requires NoDuplicates(ids)
    ensures NoDuplicates(Without(ids, m))
  {
    if ids != [] {
      var rest, last := ids[..|ids| - 1], ids[|ids| - 1];
      WithoutNoDuplicates(rest, m);
      WithoutMembership(rest, m, last);
    }
  }

  lemma VisitedOnce<A>(a: Dict<A>, b: Dict<A>)
    requires Valid(a) && Valid(b)
    ensures NoDuplicates(Visited(a, b))
  {
    WithoutNoDuplicates(a.keys, b.values.Keys);
    var rest := Without(a.keys, b.values.Keys);
    forall i, j | 0 <= i < |b.keys| && 0 <= j < |rest|
      ensures b.keys[i] != rest[j]
    {
      WithoutMembership(a.keys, b.values.Keys, rest[j]);
      assert b.keys[i] in b.keys;
    }
  }

  lemma IdOrderIsTotal<A(!new)>(locale: (string, string) -> bool)
    requires Total(locale)
    ensures Total(IdOrder<A>(locale))
  {
    var le := IdOrder<A>(locale);
    forall x, y
      ensures le(x, y) || le(y, x)
    {
      assert locale(x.id, y.id) || locale(y.id, x.id);
    }
    forall x, y, z | le(x, y) && le(y, z)
      ensures le(x, z)
    {
      assert locale(x.id, y.id) && locale(y.id, z.id);
    }
  }

  /** The same, element by element. */
  ghost predicate OneEach<A(!new)>(d: seq<Entry<A>>) {
    d == [] || ((forall e :: e in d[1..] ==> e.id != d[0].id) && OneEach(d[1..]))
  }

  lemma {:induction false} DistinctIsOneEach<A(!new)>(d: seq<Entry<A>>)
    ensures DistinctIds(d) <==> OneEach(d)
  {
    if d != [] {
      DistinctIsOneEach(d[1..]);
      assert forall i :: 1 <= i < |d| ==> d[i] == d[1..][i - 1] && d[i] in d[1..];
      assert forall i :: 0 <= i < |d[1..]| ==> d[1..][i] == d[i + 1];
    }
  }

  lemma {:induction false} InsertKeepsOneEach<A(!new)>(le: Order<Entry<A>>, x: Entry<A>, s: seq<Entry<A>>)
    requires OneEach(s) && forall e :: e in s ==> e.id != x.id
    ensures OneEach(Insert(le, x, s))
  {
    if s == [] || le(x, s[0]) {
      assert ([x] + s)[1..] == s;
    } else {
      var rest := Insert(le, x, s[1..]);
      InsertKeepsOneEach(le, x, s[1..]);
      forall e | e in rest
        ensures e.id != s[0].id
      {
        InsertElements(le, x, s[1..], e);
      }
      assert ([s[0]] + rest)[1..] == rest;
    }
  }

  lemma {:induction false} SortKeepsOneEach<A(!new)>(le: Order<Entry<A>>, s: seq<Entry<A>>)
    requires OneEach(s)
    ensures OneEach(Sort(le, s))
  {
    if s != [] {
      var rest := Sort(le, s[1..]);
      SortKeepsOneEach(le, s[1..]);
      forall e | e in rest
        ensures e.id != s[0].id
      {
        SortElements(le, s[1..], e);
      }
      InsertKeepsOneEach(le, s[0], rest);
    }
  }

  /** Every id occurs at most once, and the ids come in locale order. */
  lemma DiffListsIdsOnce<A(!new)>(base: seq<A>, next: seq<A>, id: A -> string, text: A -> string,
                                  locale: (string, string) -> bool)
    requires Total(locale)
    ensures DistinctIds(Diff(base, next, id, text, locale))
    ensures Sorted(IdOrder(locale), Diff(base, next, id, text, locale))
    ensures var d := Diff(base, next, id, text, locale);
            forall i, j :: 0 <= i < j < |d| ==> locale(d[i].id, d[j].id)
  {
    var a, b := ById(base, id), ById(next, id);
    FromPairsValid(seq(|base|, i requires 0 <= i < |base| => (id(base[i]), base[i])));
    FromPairsValid(seq(|next|, i requires 0 <= i < |next| => (id(next[i]), next[i])));
    VisitedOnce(a, b);
    var entries := Entries(Visited(a, b), a.values, b.values, text);
    EntriesHaveDistinctIds(Visited(a, b), a.values, b.values, text);
    DistinctIsOneEach(entries);
    SortKeepsOneEach(IdOrder(locale), entries);
    DistinctIsOneEach(Sort(IdOrder(locale), entries));
    IdOrderIsTotal<A>(locale);
    SortIsSorted(IdOrder(locale), entries);
    var d := Diff(base, next, id, text, locale);
    forall i, j | 0 <= i < j < |d|
      ensures locale(d[i].id, d[j].id)
    {
      assert IdOrder<A>(locale)(d[i], d[j]);
    }
  }

  // ----- Applying a diff

  function Apply<A>(m: map<string, A>, d: seq<Entry<A>>): map<string, A> {
    if d == [] then m
    else
      var e := d[|d| - 1];
      var before := Apply(m, d[..|d| - 1]);
      if e.working.Some? then before[e.id := e.working.value] else before - {e.id}
  }

  lemma {:induction false} ApplyAt<A>(m: map<string, A>, d: seq<Entry<A>>, k: string)
    requires DistinctIds(d)
    ensures (forall i :: 0 <= i < |d| ==> d[i].id != k) ==>
              (k in Apply(m, d) <==> k in m) && (k in m ==> Apply(m, d)[k] == m[k])
    ensures forall i :: 0 <= i < |d| && d[i].id == k ==>
              (k in Apply(m, d) <==> d[i].working.Some?)
                  && (d[i].working.Some? ==> Apply(m, d)[k] == d[i].working.value)
  {
    if d != [] {
      ApplyAt(m, d[..|d| - 1], k);
    }
  }

  /** Diff and apply undo each other: applying the diff to the base gives the next list as a map, up to
      what JSON.stringify can tell apart; exactly, if it tells all values apart. */
  lemma ApplyDiffGivesNext<A(!new)>(base: seq<A>, next: seq<A>, id: A -> string, text: A -> string,
                                    locale: (string, string) -> bool)
    requires Total(locale)
    ensures var a, b := ById(base, id).values, ById(next, id).values;
            var r := Apply(a, Diff(base, next, id, text, locale));
            && Agree(r, b, text)
            && ((forall x, y :: text(x) == text(y) ==> x == y) ==> r == b)
  {
    var a, b := ById(base, id).values, ById(next, id).values;
    var d := Diff(base, next, id, text, locale);
    DiffListsIdsOnce(base, next, id, text, locale);
    forall k
      ensures k in Apply(a, d) <==> k in b
      ensures k in b ==> text(Apply(a, d)[k]) == text(b[k])
    {
      ApplyAt(a, d, k);
      var e := Expected(a, b, text, k);
      if e.Some? {
        DiffIsExact(base, next, id, text, locale, e.value);
      } else {
        forall i | 0 <= i < |d|
          ensures d[i].id != k
        {
          assert d[i] in d;
          DiffIsExact(base, next, id, text, locale, d[i]);
        }
      }
    }
  }

  /** The map by id: every listed id is in it, with the entry listed last under it. */
  lemma ByIdIsLast<A>(list: seq<A>, id: A -> string, k: string)
    ensures k in ById(list, id).values <==> exists i :: 0 <= i < |list| && id(list[i]) == k
    ensures forall i :: 0 <= i < |list| && id(list[i]) == k && (forall j :: i < j < |list| ==> id(list[j]) != k) ==>
      k in ById(list, id).values && ById(list, id).values[k] == list[i]
  {
    var pairs := seq(|list|, i requires 0 <= i < |list| => (id(list[i]), list[i]));
    FromPairsValid(pairs);
    assert forall i :: 0 <= i < |list| ==> pairs[i].0 == id(list[i]);
    forall i | 0 <= i < |list| && id(list[i]) == k && forall j :: i < j < |list| ==> id(list[j]) != k
      ensures k in ById(list, id).values && ById(list, id).values[k] == list[i]
    {
      LastValueWins(pairs, i);
    }
  }

  /** An entry says added for an id that only the next list has, removed for one that only the base has, and changed for
      one that both have; and it carries what each list has under the id. */
  lemma KindsAreRight<A(!new)>(base: seq<A>, next: seq<A>, id: A -> string, text: A -> string,
                               locale: (string, string) -> bool, e: Entry<A>)
    requires e in Diff(base, next, id, text, locale)
    ensures var a, b := ById(base, id).values, ById(next, id).values;
            && (e.kind == Added <==> e.id !in a && e.id in b)
            && (e.kind == Removed <==> e.id in a && e.id !in b)
            && (e.kind == Changed <==> e.id in a && e.id in b)
            && e.live == (if e.id in a then Some(a[e.id]) else None)
            && e.working == (if e.id in b then Some(b[e.id]) else None)
  {
    DiffIsExact(base, next, id, text, locale, e);
  }

  /** The diff read backwards. */
  function Swapped<A>(d: seq<Entry<A>>): (r: seq<Entry<A>>)
    ensures |r| == |d|
    ensures forall i :: 0 <= i < |d| ==> r[i].id == d[i].id && r[i].working == d[i].live && r[i].live == d[i].working
  {
    seq(|d|, i requires 0 <= i < |d| => Entry(d[i].id, d[i].kind, d[i].working, d[i].live))
  }

  /** Taking the diff back from the next list gives the base as a map, up to what JSON.stringify can tell apart. */
  lemma RevertDiffGivesBase<A(!new)>(base: seq<A>, next: seq<A>, id: A -> string, text: A -> string,
                                     locale: (string, string) -> bool)
    requires Total(locale)
    ensures Agree(Apply(ById(next, id).values, Swapped(Diff(base, next, id, text, locale))), ById(base, id).values,
                  text)
  {
    var a, b := ById(base, id).values, ById(next, id).values;
    var d := Diff(base, next, id, text, locale);
    var back := Swapped(d);
    DiffListsIdsOnce(base, next, id, text, locale);
    forall k
      ensures k in Apply(b, back) <==> k in a
      ensures k in a ==> text(Apply(b, back)[k]) == text(a[k])
    {
      ApplyAt(b, back, k);
      var e := Expected(a, b, text, k);
      if e.Some? {
        DiffIsExact(base, next, id, text, locale, e.value);
        var i :| 0 <= i < |d| && d[i] == e.value;
        assert back[i].id == k;
      } else {
        forall i | 0 <= i < |back|
          ensures back[i].id != k
        {
          assert d[i] in d;
          DiffIsExact(base, next, id, text, locale, d[i]);
        }
      }
    }
  }
}
