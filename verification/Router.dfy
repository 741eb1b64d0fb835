/** The console's hash router (`parseHash` and `buildHash` in apps/console/src/lib/router.ts). */
module Router {
  import opened Wrappers
  import opened OrderedDict
  import opened UrlEncoded

  /** The query is a plain object. */
  datatype Route = Route(path: string, query: map<string, string>)

  /** An entry of the query given to `buildHash`; the value may be undefined or null. */
  type Entry = (string, Option<string>)

  /** Assigning a string to this key of a plain object goes to Object.prototype's setter, which
      ignores it: no entry is made. */
  const PROTO := "__proto__"

  function Assign(query: map<string, string>, name: string, value: string): map<string, string> {
    if name == PROTO then query else query[name := value]
  }

  function AssignAll(pairs: Pairs): map<string, string> {
    if pairs == [] then map[]
    else Assign(AssignAll(pairs[..|pairs| - 1]), pairs[|pairs| - 1].0, pairs[|pairs| - 1].1)
  }

  function TrimLeft(s: string): string {
    if s != [] && s[0] == '/' then TrimLeft(s[1..]) else s
  }

  function TrimRight(s: string): string {
    if s != [] && s[|s| - 1] == '/' then TrimRight(s[..|s| - 1]) else s
  }

  /** The hash without its '#', or "/" if nothing is left. */
  function Raw(hash: string): string {
    var s := if hash != [] && hash[0] == '#' then hash[1..] else hash;
    if s == "" then "/" else s
  }

  /** The parts before and after the first '?', the second ending at the next '?'. */
  function PathPart(raw: string): string {
    raw[..Find('?', raw)]
  }

  function QueryPart(raw: string): string {
    var n := Find('?', raw);
    if n == |raw| then "" else raw[n + 1..][..Find('?', raw[n + 1..])]
  }

  function Parsed(hash: string): Route {
    var raw := Raw(hash);
    Route("/" + TrimRight(TrimLeft(PathPart(raw))), AssignAll(Parse(QueryPart(raw))))
  }

  /** The entries that `buildHash` keeps: those with a value that is neither missing nor empty. */
  function Kept(entries: seq<Entry>): Pairs {
    if entries == [] then []
    else
      var e := entries[|entries| - 1];
      Kept(entries[..|entries| - 1])
      + (if e.1.Some? && e.1.value != "" then [(e.0, e.1.value)] else [])
  }

  /** URLSearchParams with the kept entries set one after the other. */
  function Params(entries: seq<Entry>): Pairs {
    var d := FromPairs(Kept(entries));
    FromPairsValid(Kept(entries));
    assert forall k :: k in d.keys ==> k in d.values;
    seq(|d.keys|, i requires 0 <= i < |d.keys| => assert d.keys[i] in d.keys; (d.keys[i], d.values[d.keys[i]]))
  }

  function Built(path: string, entries: seq<Entry>): string {
    var s := Serialize(Params(entries));
    "#" + path + (if s == "" then "" else "?" + s)
  }

  method ParseHash(hash: string) returns (route: Route)
    ensures route == Parsed(hash)
  {
    var raw := Raw(hash);
    var query := FillQuery(Parse(QueryPart(raw)));
    return Route("/" + TrimRight(TrimLeft(PathPart(raw))), query);
  }

  method FillQuery(pairs: Pairs) returns (query: map<string, string>)
    ensures query == AssignAll(pairs)
  {
    query := map[];
    var i := 0;
    while i < |pairs|
      invariant 0 <= i <= |pairs| && query == AssignAll(pairs[..i])
    {
      assert pairs[..i + 1][..i] == pairs[..i];
      if pairs[i].0 != PROTO {
        query := query[pairs[i].0 := pairs[i].1];
      }
      i := i + 1;
    }
    assert pairs[..i] == pairs;
  }

  method BuildHash(path: string, entries: seq<Entry>) returns (hash: string)
    ensures hash == Built(path, entries)
  {
    var q := SetAll(entries);
    FromPairsValid(Kept(entries));
    assert forall k :: k in q.keys ==> k in q.values;
    var pairs: Pairs := seq(|q.keys|, j requires 0 <= j < |q.keys| && q.keys[j] in q.values =>
      (q.keys[j], q.values[q.keys[j]]));
    assert pairs == Params(entries);
    var s := Serialize(pairs);
    return "#" + path + (if s == "" then "" else "?" + s);
  }

  method SetAll(entries: seq<Entry>) returns (q: Dict<string>)
    ensures q == FromPairs(Kept(entries))
  {
    q := Empty();
    var i := 0;
    while i < |entries|
      invariant 0 <= i <= |entries| && q == FromPairs(Kept(entries[..i]))
    {
      var (k, v) := entries[i];
      assert entries[..i + 1][..i] == entries[..i];
      if v.Some? && v.value != "" {
        assert Kept(entries[..i + 1]) == Kept(entries[..i]) + [(k, v.value)];
        FromPairsSnoc(Kept(entries[..i]), (k, v.value));
        q := Set(q, k, v.value);
      } else {
        assert Kept(entries[..i + 1]) == Kept(entries[..i]) + [] == Kept(entries[..i]);
      }
      i := i + 1;
    }
    assert entries[..i] == entries;
  }

  lemma FromPairsSnoc(pairs: Pairs, p: (string, string))
    ensures FromPairs(pairs + [p]) == Set(FromPairs(pairs), p.0, p.1)
  {
  }

  // ----- The path

  /** What `parseHash` returns as a path: one leading slash and none at the end. */
  predicate PlainPath(path: string) {
    && '?' !in path
    && (path == "/" || (|path| > 1 && path[0] == '/' && path[1] != '/' && path[|path| - 1] != '/'))
  }

  lemma {:induction false} TrimLeftFacts(s: string)
    ensures TrimLeft(s) == "" || TrimLeft(s)[0] != '/'
    ensures s == "" || s[0] != '/' ==> TrimLeft(s) == s
    ensures forall c :: c in TrimLeft(s) ==> c in s
  {
    if s != [] && s[0] == '/' {
      TrimLeftFacts(s[1..]);
    }
  }

  lemma {:induction false} TrimRightFacts(s: string)
    ensures TrimRight(s) == "" || TrimRight(s)[|TrimRight(s)| - 1] != '/'
    ensures TrimRight(s) <= s
    ensures s == "" || s[|s| - 1] != '/' ==> TrimRight(s) == s
    decreases |s|
  {
    if s != [] && s[|s| - 1] == '/' {
      TrimRightFacts(s[..|s| - 1]);
    }
  }

  lemma TrimmedIsPlain(p: string)
    requires '?' !in p
    ensures PlainPath("/" + TrimRight(TrimLeft(p)))
  {
    TrimLeftFacts(p);
    TrimRightFacts(TrimLeft(p));
    var t := TrimRight(TrimLeft(p));
    assert forall c :: c in t ==> c in TrimLeft(p);
  }

  /** Every parsed path is plain. */
  lemma ParsedPathIsPlain(hash: string)
    ensures PlainPath(Parsed(hash).path)
  {
    TrimmedIsPlain(PathPart(Raw(hash)));
  }

  lemma PartsOf(path: string, s: string)
    requires '?' !in path && path != "" && '?' !in s
    ensures var hash := "#" + path + (if s == "" then "" else "?" + s);
            PathPart(Raw(hash)) == path && QueryPart(Raw(hash)) == s
  {
    var hash := "#" + path + (if s == "" then "" else "?" + s);
    var raw := hash[1..];
    assert hash[0] == '#' && Raw(hash) == raw;
    FindAfter('?', path, s);
    if s == "" {
      assert raw == path;
    } else {
      FindAfter('?', s, "");
      assert raw == path + ['?'] + s;
      assert raw[..|path|] == path && raw[|path| + 1..] == s;
      assert s[..|s|] == s;
    }
  }

  lemma BuiltParts(path: string, entries: seq<Entry>)
    requires '?' !in path && path != ""
    ensures PathPart(Raw(Built(path, entries))) == path
    ensures QueryPart(Raw(Built(path, entries))) == Serialize(Params(entries))
  {
    SerializedText(Params(entries));
    PartsOf(path, Serialize(Params(entries)));
  }

  /** The path comes back exactly when it is plain, whatever the query. */
  lemma PathRoundTrip(path: string, entries: seq<Entry>)
    ensures Parsed(Built(path, entries)).path == path <==> PlainPath(path)
  {
    ParsedPathIsPlain(Built(path, entries));
    if PlainPath(path) {
      BuiltParts(path, entries);
      TrimPlain(path);
    }
  }

  lemma TrimPlain(path: string)
    requires PlainPath(path)
    ensures "/" + TrimRight(TrimLeft(path)) == path
  {
  }

  // ----- The query

  /** An object has every key once. */
  predicate UniqueKeys(entries: seq<Entry>) {
    forall i, j :: 0 <= i < j < |entries| ==> entries[i].0 != entries[j].0
  }

  /** The non-empty entries, without the one key that a plain object cannot take. */
  function NonEmpty(entries: seq<Entry>): map<string, string> {
    if entries == [] then map[]
    else
      var e, rest := entries[|entries| - 1], NonEmpty(entries[..|entries| - 1]);
      if e.1.Some? && e.1.value != "" && e.0 != PROTO then rest[e.0 := e.1.value] else rest
  }

  lemma {:induction false} KeptKeys(entries: seq<Entry>, k: string)
    requires exists i :: 0 <= i < |Kept(entries)| && Kept(entries)[i].0 == k
    ensures exists i :: 0 <= i < |entries| && entries[i].0 == k
    decreases |entries|
  {
    var e, rest := entries[|entries| - 1], entries[..|entries| - 1];
    var i :| 0 <= i < |Kept(entries)| && Kept(entries)[i].0 == k;
    if i < |Kept(rest)| {
      assert Kept(rest)[i].0 == k;
      KeptKeys(rest, k);
      var j :| 0 <= j < |rest| && rest[j].0 == k;
      assert entries[j].0 == k;
    } else {
      assert entries[|entries| - 1].0 == k;
    }
  }

  lemma {:induction false} KeptIsDistinct(entries: seq<Entry>)
    requires UniqueKeys(entries)
    ensures forall i, j :: 0 <= i < j < |Kept(entries)| ==> Kept(entries)[i].0 != Kept(entries)[j].0
    decreases |entries|
  {
    if entries != [] {
      var e, rest := entries[|entries| - 1], entries[..|entries| - 1];
      KeptIsDistinct(rest);
      forall i | 0 <= i < |Kept(rest)|
        ensures Kept(rest)[i].0 != e.0
      {
        KeptKeys(rest, Kept(rest)[i].0);
      }
    }
  }

  lemma ParamsAreKept(entries: seq<Entry>)
    requires UniqueKeys(entries)
    ensures Params(entries) == Kept(entries)
  {
    var kept := Kept(entries);
    var d := FromPairs(kept);
    KeptIsDistinct(entries);
    FromPairsValid(kept);
    assert forall i :: 0 <= i < |kept| ==> Firsts(kept)[i] == kept[i].0;
    DistinctKeysKeepOrder(kept);
    forall i | 0 <= i < |kept|
      ensures Params(entries)[i] == kept[i]
    {
      LastValueWins(kept, i);
    }
  }

  lemma {:induction false} KeptAssigned(entries: seq<Entry>)
    ensures AssignAll(Kept(entries)) == NonEmpty(entries)
    decreases |entries|
  {
    if entries != [] {
      var rest := entries[..|entries| - 1];
      KeptAssigned(rest);
      var kept := Kept(entries);
      if |kept| > |Kept(rest)| {
        assert kept[..|kept| - 1] == Kept(rest);
      } else {
        assert kept == Kept(rest);
      }
    }
  }

  /** The round trip: for a plain path, `parseHash(buildHash(path, query))` gives back the path and the
      non-empty entries, for all Unicode keys and values; only an entry `__proto__` is lost. */
  lemma RoundTripHash(path: string, entries: seq<Entry>)
    requires PlainPath(path) && UniqueKeys(entries)
    ensures Parsed(Built(path, entries)) == Route(path, NonEmpty(entries))
  {
    PathRoundTrip(path, entries);
    BuiltParts(path, entries);
    ParamsAreKept(entries);
    UrlEncoded.RoundTrip(Params(entries));
    KeptAssigned(entries);
  }

  /** The entries with a value that is neither missing nor empty: what ought to come back. */
  function Given(entries: seq<Entry>): map<string, string> {
    if entries == [] then map[]
    else
      var e, rest := entries[|entries| - 1], Given(entries[..|entries| - 1]);
      if e.1.Some? && e.1.value != "" then rest[e.0 := e.1.value] else rest
  }

  lemma {:induction false} NonEmptyIsGiven(entries: seq<Entry>)
    ensures NonEmpty(entries) == Given(entries) - {PROTO}
    decreases |entries|
  {
    if entries != [] {
      NonEmptyIsGiven(entries[..|entries| - 1]);
    }
  }

  /** The round trip gives back the path and exactly the non-empty entries if and only if none of them has the
      key `__proto__`. */
  lemma RoundTripExactlyWhen(path: string, entries: seq<Entry>)
    requires PlainPath(path) && UniqueKeys(entries)
    ensures Parsed(Built(path, entries)) == Route(path, Given(entries)) <==> PROTO !in Given(entries)
  {
    RoundTripHash(path, entries);
    NonEmptyIsGiven(entries);
    assert PROTO !in Given(entries) ==> Given(entries) - {PROTO} == Given(entries);
    assert PROTO !in Given(entries) - {PROTO};
  }

  /** One entry of a built hash is parsed back exactly when it has a value and is not `__proto__`. */
  lemma EntryRoundTrip(path: string, entries: seq<Entry>, i: nat)
    requires PlainPath(path) && UniqueKeys(entries) && i < |entries|
    ensures var (k, v) := entries[i];
            var query := Parsed(Built(path, entries)).query;
            (k in query && v == Some(query[k])) <==> v.Some? && v.value != "" && k != PROTO
  {
    RoundTripHash(path, entries);
    EntryKept(entries, i);
  }

  lemma {:induction false} EntryKept(entries: seq<Entry>, i: nat)
    requires UniqueKeys(entries) && i < |entries|
    ensures var (k, v) := entries[i];
            (k in NonEmpty(entries) && v == Some(NonEmpty(entries)[k])) <==> v.Some? && v.value != "" && k != PROTO
    decreases |entries|
  {
    var rest := entries[..|entries| - 1];
    if i < |rest| {
      EntryKept(rest, i);
    } else {
      NonEmptyKeys(rest, entries[i].0);
    }
  }

  lemma {:induction false} NonEmptyKeys(entries: seq<Entry>, k: string)
    requires forall i :: 0 <= i < |entries| ==> entries[i].0 != k
    ensures k !in NonEmpty(entries)
    decreases |entries|
  {
    if entries != [] {
      NonEmptyKeys(entries[..|entries| - 1], k);
    }
  }

  /** The lost entry, concretely. */
  lemma ProtoIsLost()
    ensures Parsed(Built("/reviews", [(PROTO, Some("x"))])) == Route("/reviews", map[])
  {
    RoundTripHash("/reviews", [(PROTO, Some("x"))]);
    assert [(PROTO, Some("x"))][..0] == [];
  }

  /** Building from a parsed route and parsing again gives the route without its empty entries. */
  lemma Reparse(hash: string, entries: seq<Entry>)
    requires UniqueKeys(entries)
    requires forall i :: 0 <= i < |entries| ==>
      entries[i].0 in Parsed(hash).query && entries[i].1 == Some(Parsed(hash).query[entries[i].0])
    ensures Parsed(Built(Parsed(hash).path, entries)) == Route(Parsed(hash).path, NonEmpty(entries))
  {
    ParsedPathIsPlain(hash);
    RoundTripHash(Parsed(hash).path, entries);
  }

  // ----- Any hash

  /** The '#' may be missing, and an empty hash is the root. */
  lemma MarkIsOptional(s: string)
    requires s == "" || s[0] != '#'
    ensures Parsed("#" + s) == Parsed(s)
    ensures s == "" ==> Parsed(s) == Parsed("/")
  {
    assert ("#" + s)[1..] == s;
  }

  /** The query lies between the first '?' and the second; without a '?' there is none. */
  lemma QueryIsBetweenMarks(path: string, query: string, rest: string)
    requires '?' !in path && '?' !in query
    ensures PathPart(path + "?" + query) == path && QueryPart(path + "?" + query) == query
    ensures QueryPart(path + "?" + query + "?" + rest) == query
    ensures PathPart(path) == path && QueryPart(path) == ""
  {
    var s, t := path + "?" + query, path + "?" + query + "?" + rest;
    FindAfter('?', path, query);
    assert s[..|path|] == path && s[|path| + 1..] == query;
    FindAfter('?', query, rest);
    assert query[..|query|] == query;
    assert t == path + "?" + (query + "?" + rest);
    FindAfter('?', path, query + "?" + rest);
    assert t[|path| + 1..] == query + "?" + rest && (query + "?" + rest)[..|query|] == query;
    assert path[..|path|] == path;
  }

  function Slashes(n: nat): string {
    seq(n, _ => '/')
  }

  lemma {:induction false} TrimSlashes(n: nat, s: string)
    requires s == "" || s[0] != '/'
    ensures TrimLeft(Slashes(n) + s) == s
    decreases n
  {
    if n == 0 {
      assert Slashes(n) + s == s;
    } else {
      assert (Slashes(n) + s)[1..] == Slashes(n - 1) + s;
      TrimSlashes(n - 1, s);
    }
  }

  lemma {:induction false} TrimSlashesBehind(n: nat, s: string)
    requires s == "" || s[|s| - 1] != '/'
    ensures TrimRight(s + Slashes(n)) == s
    decreases n
  {
    if n == 0 {
      assert s + Slashes(n) == s;
    } else {
      assert (s + Slashes(n))[..|s| + n - 1] == s + Slashes(n - 1);
      TrimSlashesBehind(n - 1, s);
    }
  }

  /** Slashes at both ends of a path are reduced to one in front; those inside stay. */
  lemma SlashesAreTrimmed(before: nat, path: string, behind: nat)
    requires path != "" && path[0] != '/' && path[|path| - 1] != '/'
    ensures "/" + TrimRight(TrimLeft(Slashes(before) + (path + Slashes(behind)))) == "/" + path
    ensures TrimRight(TrimLeft(Slashes(before))) == ""
  {
    TrimSlashes(before, path + Slashes(behind));
    TrimSlashesBehind(behind, path);
    assert Slashes(before) + "" == Slashes(before);
    TrimSlashes(before, "");
  }

  /** A key of the query is one of the names, `__proto__` excepted, with the value that comes last under it. */
  lemma {:induction false} LastValueIsKept(pairs: Pairs, k: string)
    ensures k in AssignAll(pairs) <==> k != PROTO && exists i :: 0 <= i < |pairs| && pairs[i].0 == k
    ensures forall i :: 0 <= i < |pairs| && pairs[i].0 == k && k != PROTO
                        && (forall j :: i < j < |pairs| ==> pairs[j].0 != k) ==>
      k in AssignAll(pairs) && AssignAll(pairs)[k] == pairs[i].1
    decreases |pairs|
  {
    if pairs != [] {
      var n := |pairs| - 1;
      LastValueIsKept(pairs[..n], k);
      if i :| 0 <= i < |pairs| && pairs[i].0 == k {
        assert i < n ==> pairs[..n][i].0 == k;
      }
      if i :| 0 <= i < n && pairs[..n][i].0 == k {
        assert pairs[i].0 == k;
      }
    }
  }

  /** The text of a built hash: the path, and each entry as name=value. */
  lemma BuiltText(path: string, k: string, v: string)
    requires v != ""
    ensures Built(path, []) == "#" + path
    ensures Built(path, [(k, Some(v))]) == "#" + path + ("?" + (EncodeField(k) + "=" + EncodeField(v)))
  {
    var entries: seq<Entry> := [(k, Some(v))];
    assert entries[..0] == [];
    assert Kept(entries) == Kept([]) + [(k, v)] == [(k, v)];
    ParamsAreKept(entries);
    ParamsAreKept([]);
    SerializedText([(k, v)]);
  }

  /** A word and a space, as they are written. */
  lemma EncodedWords()
    ensures EncodeField("q") == "q" && EncodeField("a b") == "a+b"
  {
    AsciiField('q', "");
    AsciiField('b', "");
    AsciiField(' ', "b");
    AsciiField('a', " b");
    assert "q" == ['q'] + "" && "b" == ['b'] + "" && " b" == [' '] + "b" && "a b" == ['a'] + " b";
  }
}
