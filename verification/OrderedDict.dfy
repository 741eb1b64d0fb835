/** A dictionary that remembers insertion order, as a Python dict or a JavaScript Map does:
    setting an existing key replaces its value and keeps its place. */
module OrderedDict {
  datatype Dict<V> = Dict(keys: seq<string>, values: map<string, V>)

  function Empty<V>(): Dict<V> {
    Dict([], map[])
  }

  function Set<V>(d: Dict<V>, key: string, value: V): Dict<V> {
    Dict(if key in d.values then d.keys else d.keys + [key], d.values[key := value])
  }

  /** The dictionary built from pairs, in order. */
  function FromPairs<V>(pairs: seq<(string, V)>): Dict<V> {
    if pairs == [] then Empty()
    else
      var last := pairs[|pairs| - 1];
      Set(FromPairs(pairs[..|pairs| - 1]), last.0, last.1)
  }

  /** One step of the loop that builds the dictionary. */
  lemma FromPairsStep<V>(pairs: seq<(string, V)>, i: nat)
    requires i < |pairs|
    ensures FromPairs(pairs[..i + 1]) == Set(FromPairs(pairs[..i]), pairs[i].0, pairs[i].1)
  {
    assert pairs[..i + 1][..i] == pairs[..i];
  }

  predicate NoDuplicates<T(==)>(s: seq<T>) {
    forall i, j :: 0 <= i < j < |s| ==> s[i] != s[j]
  }

  lemma {:induction false} OncePerElement<T>(s: seq<T>, x: T)
    requires NoDuplicates(s)
    ensures multiset(s)[x] == (if x in s then 1 else 0)
  {
    if s != [] {
      OncePerElement(s[1..], x);
      assert s == [s[0]] + s[1..];
    }
  }

  lemma TwiceIn<T>(s: seq<T>, i: nat, j: nat)
    requires i < j < |s| && s[i] == s[j]
    ensures multiset(s)[s[i]] >= 2
  {
    assert s == s[..j] + s[j..];
    assert s[..j][i] == s[i] && s[j..][0] == s[j];
    assert s[i] in s[..j] && s[i] in s[j..];
    assert multiset(s) == multiset(s[..j]) + multiset(s[j..]);
  }

  /** Reordering neither makes nor removes duplicates. */
  lemma DuplicatesStay<T>(a: seq<T>, b: seq<T>)
    requires multiset(a) == multiset(b)
    ensures NoDuplicates(a) <==> NoDuplicates(b)
  {
    DuplicatesCarryOver(a, b);
    DuplicatesCarryOver(b, a);
  }

  lemma DuplicatesCarryOver<T>(a: seq<T>, b: seq<T>)
    requires multiset(a) == multiset(b)
    ensures NoDuplicates(a) ==> NoDuplicates(b)
  {
    if NoDuplicates(a) {
      forall i, j | 0 <= i < j < |b|
        ensures b[i] != b[j]
      {
        OncePerElement(a, b[i]);
        if b[i] == b[j] {
          TwiceIn(b, i, j);
        }
      }
    }
  }

  /** The keys are listed once each. */
  ghost predicate Valid<V>(d: Dict<V>) {
    NoDuplicates(d.keys) && forall k :: k in d.keys <==> k in d.values
  }

  lemma {:induction false} FromPairsValid<V>(pairs: seq<(string, V)>)
    ensures Valid(FromPairs(pairs))
    ensures forall k :: k in FromPairs(pairs).values <==> exists i :: 0 <= i < |pairs| && pairs[i].0 == k
    decreases |pairs|
  {
    if pairs != [] {
      var rest, last := pairs[..|pairs| - 1], pairs[|pairs| - 1];
      FromPairsValid(rest);
      forall k
        ensures k in FromPairs(pairs).values <==> exists i :: 0 <= i < |pairs| && pairs[i].0 == k
      {
        if k in FromPairs(rest).values {
          var i :| 0 <= i < |rest| && rest[i].0 == k;
          assert pairs[i].0 == k;
        }
        if i :| 0 <= i < |pairs| && pairs[i].0 == k && k != last.0 {
          assert rest[i].0 == k;
        }
        assert pairs[|pairs| - 1].0 == last.0;
      }
    }
  }

  /** A key maps to the value it was set to last. */
  lemma {:induction false} LastValueWins<V>(pairs: seq<(string, V)>, i: nat)
    requires i < |pairs| && forall j :: i < j < |pairs| ==> pairs[j].0 != pairs[i].0
    ensures pairs[i].0 in FromPairs(pairs).values && FromPairs(pairs).values[pairs[i].0] == pairs[i].1
    decreases |pairs|
  {
    if i < |pairs| - 1 {
      LastValueWins(pairs[..|pairs| - 1], i);
    }
  }

  /** Every value comes from the last pair with its key. */
  lemma {:induction false} ValueOrigin<V>(pairs: seq<(string, V)>, k: string) returns (i: nat)
    requires k in FromPairs(pairs).values
    ensures i < |pairs| && pairs[i] == (k, FromPairs(pairs).values[k])
    ensures forall j :: i < j < |pairs| ==> pairs[j].0 != k
    decreases |pairs|
  {
    if pairs[|pairs| - 1].0 == k {
      i := |pairs| - 1;
    } else {
      i := ValueOrigin(pairs[..|pairs| - 1], k);
    }
  }

  function Firsts<V>(pairs: seq<(string, V)>): seq<string> {
    seq(|pairs|, i requires 0 <= i < |pairs| => pairs[i].0)
  }

  /** Without duplicate keys the dictionary lists the pairs as they came. */
  lemma {:induction false} DistinctKeysKeepOrder<V>(pairs: seq<(string, V)>)
    requires NoDuplicates(Firsts(pairs))
    ensures FromPairs(pairs).keys == Firsts(pairs)
    decreases |pairs|
  {
    if pairs != [] {
      var rest := pairs[..|pairs| - 1];
      assert Firsts(rest) == Firsts(pairs)[..|rest|];
      DistinctKeysKeepOrder(rest);
      FromPairsValid(rest);
      assert Firsts(pairs)[|rest|] == pairs[|rest|].0;
      assert forall i :: 0 <= i < |rest| ==> Firsts(pairs)[i] == rest[i].0;
      assert Firsts(pairs) == Firsts(rest) + [pairs[|rest|].0];
    }
  }

  /** The keys are listed in the order in which they first come. */
  lemma {:induction false} KeysInFirstOrder<V>(pairs: seq<(string, V)>, i: nat, j: nat) returns (p: nat)
    requires i < j < |FromPairs(pairs).keys|
    ensures p < |pairs| && pairs[p].0 == FromPairs(pairs).keys[i]
    ensures forall q :: 0 <= q <= p ==> pairs[q].0 != FromPairs(pairs).keys[j]
    decreases |pairs|
  {
    var n := |pairs| - 1;
    var before := FromPairs(pairs[..n]);
    FromPairsValid(pairs[..n]);
    if j < |before.keys| {
      p := KeysInFirstOrder(pairs[..n], i, j);
    } else {
      assert before.keys[i] in before.keys;
      p :| 0 <= p < n && pairs[..n][p].0 == before.keys[i];
      forall q | 0 <= q <= p
        ensures pairs[q].0 != pairs[n].0
      {
        assert pairs[..n][q].0 in before.values;
      }
    }
  }
}
