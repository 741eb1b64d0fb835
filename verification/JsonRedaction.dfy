/** Redacting every string of a JSON document (`redact_json_detailed` in
    instant-redaction-service/services/redaction_service.py).

    The source flattens the document to (path, text) leaves, analyses the texts, keeps the results in
    a dictionary by path and rebuilds the document by looking each path up. The reference is the
    direct structural map. The analysis of one text is an arbitrary function. */
module JsonRedaction {
  import opened OrderedDict
  import opened Wrappers
  import Decimal
  import Normalizer

  /** Numbers, booleans and null are never touched; which one it is does not matter here. */
  datatype Json =
    | Text(text: string)
    | Object(members: Members)
    | Array(items: Items)
    | Scalar(id: int)

  datatype Members = NoMembers | Member(key: string, value: Json, next: Members)

  datatype Items = NoItems | Item(value: Json, next: Items)

  datatype Finding = Finding(entityType: string, start: nat, end: nat)

  datatype PathFinding = PathFinding(finding: Finding, path: string)

  datatype Analysis = Analysis(redactedText: string, findings: seq<Finding>)

  type Analyzer = string -> Analysis

  type Leaves = seq<(string, string)>

  predicate Blank(s: string) {
    Normalizer.Strip(s) == ""
  }

  function KeyPath(path: string, key: string): string {
    path + "." + key
  }

  function IndexPath(path: string, index: nat): string {
    path + "[" + Decimal.Render(index) + "]"
  }

  // ----- Flatten, look up, rebuild

  /** All string leaves in document order, or only those that are not blank. */
  function LeavesOf(data: Json, path: string, blanks: bool): Leaves
    decreases data
  {
    match data
    case Text(s) => if blanks || !Blank(s) then [(path, s)] else []
    case Object(members) => LeavesOfMembers(members, path, blanks)
    case Array(items) => LeavesOfItems(items, path, 0, blanks)
    case Scalar(_) => []
  }

  function LeavesOfMembers(members: Members, path: string, blanks: bool): Leaves
    decreases members
  {
    match members
    case NoMembers => []
    case Member(key, value, next) => LeavesOf(value, KeyPath(path, key), blanks) + LeavesOfMembers(next, path, blanks)
  }

  function LeavesOfItems(items: Items, path: string, index: nat, blanks: bool): Leaves
    decreases items
  {
    match items
    case NoItems => []
    case Item(value, next) =>
      LeavesOf(value, IndexPath(path, index), blanks) + LeavesOfItems(next, path, index + 1, blanks)
  }

  /** The analysis of every leaf, with its path. */
  function Results(leaves: Leaves, analyze: Analyzer): (r: seq<(string, Analysis)>)
    ensures |r| == |leaves|
    ensures forall i :: 0 <= i < |leaves| ==> r[i] == (leaves[i].0, analyze(leaves[i].1))
  {
    seq(|leaves|, i requires 0 <= i < |leaves| => (leaves[i].0, analyze(leaves[i].1)))
  }

  /** The results by path. */
  function Replaced(leaves: Leaves, analyze: Analyzer): Dict<Analysis> {
    FromPairs(Results(leaves, analyze))
  }

  /** A text as the rebuild sees it. */
  function LookUp(replaced: map<string, Analysis>, path: string, s: string): string {
    if path in replaced && replaced[path].findings != [] then replaced[path].redactedText else s
  }

  function Rebuild(data: Json, path: string, replaced: map<string, Analysis>): Json
    decreases data
  {
    match data
    case Text(s) => Text(LookUp(replaced, path, s))
    case Object(members) => Object(RebuildMembers(members, path, replaced))
    case Array(items) => Array(RebuildItems(items, path, 0, replaced))
    case Scalar(_) => data
  }

  function RebuildMembers(members: Members, path: string, replaced: map<string, Analysis>): Members
    decreases members
  {
    match members
    case NoMembers => NoMembers
    case Member(key, value, next) =>
      Member(key, Rebuild(value, KeyPath(path, key), replaced), RebuildMembers(next, path, replaced))
  }

  function RebuildItems(items: Items, path: string, index: nat, replaced: map<string, Analysis>): Items
    decreases items
  {
    match items
    case NoItems => NoItems
    case Item(value, next) =>
      Item(Rebuild(value, IndexPath(path, index), replaced), RebuildItems(next, path, index + 1, replaced))
  }

  /** The findings by path, in the order of the dictionary. */
  function FindingsAt(path: string, findings: seq<Finding>): seq<PathFinding> {
    seq(|findings|, i requires 0 <= i < |findings| => PathFinding(findings[i], path))
  }

  function AllFindings(keys: seq<string>, replaced: map<string, Analysis>): seq<PathFinding>
    requires forall k :: k in keys ==> k in replaced
  {
    if keys == [] then []
    else
      var last := keys[|keys| - 1];
      AllFindings(keys[..|keys| - 1], replaced) + FindingsAt(last, replaced[last].findings)
  }

  function Redacted(data: Json, analyze: Analyzer): Json {
    Rebuild(data, "$", Replaced(LeavesOf(data, "$", false), analyze).values)
  }

  function Size(data: Json): nat {
    match data
    case Text(_) => 1
    case Object(members) => 1 + SizeOfMembers(members)
    case Array(items) => 1 + SizeOfItems(items)
    case Scalar(_) => 1
  }

  function SizeOfMembers(members: Members): nat {
    match members
    case NoMembers => 0
    case Member(_, value, next) => 1 + Size(value) + SizeOfMembers(next)
  }

  function SizeOfItems(items: Items): nat {
    match items
    case NoItems => 0
    case Item(value, next) => 1 + Size(value) + SizeOfItems(next)
  }

  class JsonRedactor {
    var leaves: Leaves

    constructor ()
      ensures leaves == []
    {
      leaves := [];
    }

    /** The inner function `collect`, which appends to `leaves`. */
    method Collect(data: Json, path: string)
      modifies this
      ensures leaves == old(leaves) + LeavesOf(data, path, false)
      decreases Size(data)
    {
      match data
      case Text(s) =>
        if !Blank(s) {
          leaves := leaves + [(path, s)];
        }
      case Object(members) =>
        var m := members;
        while m.Member?
          invariant SizeOfMembers(m) <= SizeOfMembers(members)
          invariant leaves + LeavesOfMembers(m, path, false) == old(leaves) + LeavesOfMembers(members, path, false)
          decreases m
        {
          Collect(m.value, KeyPath(path, m.key));
          m := m.next;
        }
      case Array(items) =>
        var rest, i := items, 0;
        while rest.Item?
          invariant SizeOfItems(rest) <= SizeOfItems(items)
          invariant leaves + LeavesOfItems(rest, path, i, false) == old(leaves) + LeavesOfItems(items, path, 0, false)
          decreases rest
        {
          Collect(rest.value, IndexPath(path, i));
          rest, i := rest.next, i + 1;
        }
      case Scalar(_) =>
    }

    method RedactJson(data: Json, analyze: Analyzer) returns (result: Json, findings: seq<PathFinding>)
      modifies this
      ensures result == Redacted(data, analyze)
      ensures var replaced := Replaced(LeavesOf(data, "$", false), analyze);
              Valid(replaced) && findings == AllFindings(replaced.keys, replaced.values)
    {
      leaves := [];
      Collect(data, "$");
      assert leaves == LeavesOf(data, "$", false);
      var replaced;
      replaced, findings := AnalyseAll(leaves, analyze);
      result := Rebuild(data, "$", replaced.values);
    }
  }

  method AnalyseAll(leaves: Leaves, analyze: Analyzer) returns (replaced: Dict<Analysis>, findings: seq<PathFinding>)
    ensures replaced == Replaced(leaves, analyze) && Valid(replaced)
    ensures findings == AllFindings(replaced.keys, replaced.values)
  {
    replaced := Replaced(leaves, analyze);
    FromPairsValid(Results(leaves, analyze));
    findings := ListFindings(replaced);
  }

  method ListFindings(replaced: Dict<Analysis>) returns (findings: seq<PathFinding>)
    requires Valid(replaced)
    ensures findings == AllFindings(replaced.keys, replaced.values)
  {
    findings := [];
    var i := 0;
    while i < |replaced.keys|
      invariant 0 <= i <= |replaced.keys|
      invariant findings == AllFindings(replaced.keys[..i], replaced.values)
    {
      var path := replaced.keys[i];
      assert replaced.keys[..i + 1][..i] == replaced.keys[..i];
      findings := findings + FindingsAt(path, replaced.values[path].findings);
      i := i + 1;
    }
    assert replaced.keys[..i] == replaced.keys;
  }

  // ----- The reference: a direct structural map

  function Map(data: Json, f: string -> string): Json
    decreases data
  {
    match data
    case Text(s) => Text(f(s))
    case Object(members) => Object(MapMembers(members, f))
    case Array(items) => Array(MapItems(items, f))
    case Scalar(_) => data
  }

  function MapMembers(members: Members, f: string -> string): Members
    decreases members
  {
    match members
    case NoMembers => NoMembers
    case Member(key, value, next) => Member(key, Map(value, f), MapMembers(next, f))
  }

  function MapItems(items: Items, f: string -> string): Items
    decreases items
  {
    match items
    case NoItems => NoItems
    case Item(value, next) => Item(Map(value, f), MapItems(next, f))
  }

  /** What should become of one text: its own redaction if it is not blank and has findings. */
  function RedactText(analyze: Analyzer): string -> string {
    s => if !Blank(s) && analyze(s).findings != [] then analyze(s).redactedText else s
  }

  /** Two documents that differ in their texts only: same shape, keys, order and scalars. */
  predicate SameShape(a: Json, b: Json) {
    Map(a, _ => "") == Map(b, _ => "")
  }

  /** Whatever the paths, a rebuild changes texts only. */
  lemma {:induction false} RebuildKeepsShape(data: Json, path: string, replaced: map<string, Analysis>)
    ensures SameShape(data, Rebuild(data, path, replaced))
    decreases data
  {
    match data
    case Object(members) => RebuildMembersKeepsShape(members, path, replaced);
    case Array(items) => RebuildItemsKeepsShape(items, path, 0, replaced);
    case _ =>
  }

  lemma {:induction false} RebuildMembersKeepsShape(members: Members, path: string, replaced: map<string, Analysis>)
    ensures MapMembers(RebuildMembers(members, path, replaced), _ => "") == MapMembers(members, _ => "")
    decreases members
  {
    match members
    case NoMembers =>
    case Member(key, value, next) =>
      RebuildKeepsShape(value, KeyPath(path, key), replaced);
      RebuildMembersKeepsShape(next, path, replaced);
  }

  lemma {:induction false} RebuildItemsKeepsShape(items: Items, path: string, index: nat,
                                                   replaced: map<string, Analysis>)
    ensures MapItems(RebuildItems(items, path, index, replaced), _ => "") == MapItems(items, _ => "")
    decreases items
  {
    match items
    case NoItems =>
    case Item(value, next) =>
      RebuildKeepsShape(value, IndexPath(path, index), replaced);
      RebuildItemsKeepsShape(next, path, index + 1, replaced);
  }

  // ----- When the two agree

  /** Every leaf looks up its own image. */
  ghost predicate LooksUp(leaves: Leaves, replaced: map<string, Analysis>, f: string -> string) {
    forall i :: 0 <= i < |leaves| ==> LookUp(replaced, leaves[i].0, leaves[i].1) == f(leaves[i].1)
  }

  lemma LooksUpConcat(a: Leaves, b: Leaves, replaced: map<string, Analysis>, f: string -> string)
    ensures LooksUp(a + b, replaced, f) <==> LooksUp(a, replaced, f) && LooksUp(b, replaced, f)
  {
    if LooksUp(a + b, replaced, f) {
      assert forall i :: 0 <= i < |a| ==> (a + b)[i] == a[i];
      assert forall i :: 0 <= i < |b| ==> (a + b)[|a| + i] == b[i];
    }
  }

  /** A rebuild is the map of f exactly when every string leaf looks up its own image. */
  lemma {:induction false} RebuildIsMap(data: Json, path: string, replaced: map<string, Analysis>, f: string -> string)
    ensures Rebuild(data, path, replaced) == Map(data, f) <==> LooksUp(LeavesOf(data, path, true), replaced, f)
    decreases data
  {
    match data
    case Text(s) =>
      assert LeavesOf(data, path, true)[0] == (path, s);
    case Object(members) => RebuildMembersIsMap(members, path, replaced, f);
    case Array(items) => RebuildItemsIsMap(items, path, 0, replaced, f);
    case Scalar(_) =>
  }

  lemma {:induction false} RebuildMembersIsMap(members: Members, path: string, replaced: map<string, Analysis>,
                                               f: string -> string)
    ensures RebuildMembers(members, path, replaced) == MapMembers(members, f)
            <==> LooksUp(LeavesOfMembers(members, path, true), replaced, f)
    decreases members
  {
    match members
    case NoMembers =>
    case Member(key, value, next) =>
      RebuildIsMap(value, KeyPath(path, key), replaced, f);
      RebuildMembersIsMap(next, path, replaced, f);
      LooksUpConcat(LeavesOf(value, KeyPath(path, key), true), LeavesOfMembers(next, path, true), replaced, f);
  }

  lemma {:induction false} RebuildItemsIsMap(items: Items, path: string, index: nat, replaced: map<string, Analysis>,
                                             f: string -> string)
    ensures RebuildItems(items, path, index, replaced) == MapItems(items, f)
            <==> LooksUp(LeavesOfItems(items, path, index, true), replaced, f)
    decreases items
  {
    match items
    case NoItems =>
    case Item(value, next) =>
      RebuildIsMap(value, IndexPath(path, index), replaced, f);
      RebuildItemsIsMap(next, path, index + 1, replaced, f);
      LooksUpConcat(LeavesOf(value, IndexPath(path, index), true), LeavesOfItems(next, path, index + 1, true),
                    replaced, f);
  }

  function NotBlank(leaves: Leaves): Leaves {
    if leaves == [] then []
    else (if Blank(leaves[0].1) then [] else [leaves[0]]) + NotBlank(leaves[1..])
  }

  lemma {:induction false} NotBlankConcat(a: Leaves, b: Leaves)
    ensures NotBlank(a + b) == NotBlank(a) + NotBlank(b)
  {
    if a == [] {
      assert a + b == b;
    } else {
      assert (a + b)[1..] == a[1..] + b;
      NotBlankConcat(a[1..], b);
    }
  }

  lemma {:induction false} NotBlankMembership(leaves: Leaves, x: (string, string))
    ensures x in NotBlank(leaves) <==> x in leaves && !Blank(x.1)
  {
    if leaves != [] {
      NotBlankMembership(leaves[1..], x);
      assert x in leaves <==> x == leaves[0] || x in leaves[1..];
    }
  }

  /** The leaves that are analysed are the string leaves that are not blank. */
  lemma {:induction false} AnalysedLeaves(data: Json, path: string)
    ensures LeavesOf(data, path, false) == NotBlank(LeavesOf(data, path, true))
    decreases data
  {
    match data
    case Text(s) => assert [(path, s)][1..] == [];
    case Object(members) => AnalysedLeavesOfMembers(members, path);
    case Array(items) => AnalysedLeavesOfItems(items, path, 0);
    case Scalar(_) =>
  }

  lemma {:induction false} AnalysedLeavesOfMembers(members: Members, path: string)
    ensures LeavesOfMembers(members, path, false) == NotBlank(LeavesOfMembers(members, path, true))
    decreases members
  {
    match members
    case NoMembers =>
    case Member(key, value, next) =>
      AnalysedLeaves(value, KeyPath(path, key));
      AnalysedLeavesOfMembers(next, path);
      NotBlankConcat(LeavesOf(value, KeyPath(path, key), true), LeavesOfMembers(next, path, true));
  }

  lemma {:induction false} AnalysedLeavesOfItems(items: Items, path: string, index: nat)
    ensures LeavesOfItems(items, path, index, false) == NotBlank(LeavesOfItems(items, path, index, true))
    decreases items
  {
    match items
    case NoItems =>
    case Item(value, next) =>
      AnalysedLeaves(value, IndexPath(path, index));
      AnalysedLeavesOfItems(next, path, index + 1);
      NotBlankConcat(LeavesOf(value, IndexPath(path, index), true), LeavesOfItems(next, path, index + 1, true));
  }

  /** Leaves with the same path have the same text, unless both are blank. */
  ghost predicate Coherent(leaves: Leaves) {
    forall x, y :: x in leaves && y in leaves && x.0 == y.0 && !Blank(x.1) ==> x.1 == y.1
  }

  lemma CoherentLooksUp(leaves: Leaves, analyze: Analyzer)
    requires Coherent(leaves)
    ensures LooksUp(leaves, Replaced(NotBlank(leaves), analyze).values, RedactText(analyze))
  {
    var kept := NotBlank(leaves);
    var results := Results(kept, analyze);
    FromPairsValid(results);
    forall i | 0 <= i < |leaves|
      ensures LookUp(Replaced(kept, analyze).values, leaves[i].0, leaves[i].1) == RedactText(analyze)(leaves[i].1)
    {
      var x := leaves[i];
      NotBlankMembership(leaves, x);
      if !Blank(x.1) {
        var k :| 0 <= k < |kept| && kept[k] == x;
        assert results[k].0 == x.0;
      }
      if x.0 in FromPairs(results).values {
        var j := ValueOrigin(results, x.0);
        NotBlankMembership(leaves, kept[j]);
        assert kept[j] in leaves;
      }
    }
  }

  /** An analysis under which text `a` is redacted to something that `b` is not, and nothing else. */
  function Distinguish(a: string, b: string): Analyzer {
    s => if s == a then Analysis(b + "*", [Finding("X", 0, 0)]) else Analysis(s, [])
  }

  lemma IncoherentFails(leaves: Leaves, x: (string, string), y: (string, string)) returns (analyze: Analyzer)
    requires x in leaves && y in leaves && x.0 == y.0 && !Blank(x.1) && x.1 != y.1
    ensures !LooksUp(leaves, Replaced(NotBlank(leaves), analyze).values, RedactText(analyze))
  {
    var kept := NotBlank(leaves);
    var pairs := Results(kept, Distinguish("", ""));
    NotBlankMembership(leaves, x);
    var at :| 0 <= at < |kept| && kept[at] == x;
    FromPairsValid(pairs);
    assert pairs[at].0 == x.0;
    var j := ValueOrigin(pairs, x.0);
    var stored := kept[j].1;
    var other := if stored == x.1 then y else x;
    analyze := Distinguish(stored, other.1);
    var results := Results(kept, analyze);
    assert forall i :: j < i < |results| ==> results[i].0 == pairs[i].0;
    assert results[j].0 == pairs[j].0 == x.0;
    LastValueWins(results, j);
    var i :| 0 <= i < |leaves| && leaves[i] == other;
    assert LookUp(FromPairs(results).values, other.0, other.1) == other.1 + "*";
    assert |other.1 + "*"| != |other.1|;
    assert RedactText(analyze)(other.1) == other.1;
    assert LookUp(Replaced(kept, analyze).values, leaves[i].0, leaves[i].1) != RedactText(analyze)(leaves[i].1);
  }

  /** The redaction is the direct structural map, for every analysis, exactly when string leaves that
      share a path share their text. */
  lemma RedactionIsMapExactlyWhen(data: Json)
    ensures (forall analyze: Analyzer :: Redacted(data, analyze) == Map(data, RedactText(analyze)))
            <==> Coherent(LeavesOf(data, "$", true))
  {
    var leaves := LeavesOf(data, "$", true);
    AnalysedLeaves(data, "$");
    if Coherent(leaves) {
      forall analyze: Analyzer
        ensures Redacted(data, analyze) == Map(data, RedactText(analyze))
      {
        CoherentLooksUp(leaves, analyze);
        RebuildIsMap(data, "$", Replaced(NotBlank(leaves), analyze).values, RedactText(analyze));
      }
    } else {
      var x, y :| x in leaves && y in leaves && x.0 == y.0 && !Blank(x.1) && x.1 != y.1;
      var analyze := IncoherentFails(leaves, x, y);
      RebuildIsMap(data, "$", Replaced(NotBlank(leaves), analyze).values, RedactText(analyze));
    }
  }

  // ----- Paths are distinct when no key contains '.' or '['

  predicate PlainKey(key: string) {
    '.' !in key && '[' !in key
  }

  predicate KeyIn(key: string, members: Members) {
    members.Member? && (members.key == key || KeyIn(key, members.next))
  }

  /** The keys of every object are plain, and (as in every dict) no object has a key twice. */
  predicate PlainKeys(data: Json)
    decreases data
  {
    match data
    case Object(members) => PlainMembers(members)
    case Array(items) => PlainItems(items)
    case _ => true
  }

  predicate PlainMembers(members: Members)
    decreases members
  {
    match members
    case NoMembers => true
    case Member(key, value, next) => PlainKey(key) && !KeyIn(key, next) && PlainKeys(value) && PlainMembers(next)
  }

  predicate PlainItems(items: Items)
    decreases items
  {
    match items
    case NoItems => true
    case Item(value, next) => PlainKeys(value) && PlainItems(next)
  }

  /** `path` is `base`, or goes on from it with '.' or '['. */
  ghost predicate Under(base: string, path: string) {
    |base| <= |path| && path[..|base|] == base
    && (|path| > |base| ==> path[|base|] == '.' || path[|base|] == '[')
  }

  ghost predicate AllUnder(base: string, leaves: Leaves) {
    forall x :: x in leaves ==> Under(base, x.0)
  }

  lemma UnderStep(base: string, mid: string, path: string)
    requires Under(mid, path) && |base| < |mid| && mid[..|base|] == base && (mid[|base|] == '.' || mid[|base|] == '[')
    ensures Under(base, path)
  {
  }

  lemma {:induction false} LeavesAreUnder(data: Json, path: string)
    ensures AllUnder(path, LeavesOf(data, path, true))
    decreases data
  {
    match data
    case Text(_) =>
    case Object(members) => LeavesOfMembersAreUnder(members, path);
    case Array(items) => LeavesOfItemsAreUnder(items, path, 0);
    case Scalar(_) =>
  }

  lemma {:induction false} LeavesOfMembersAreUnder(members: Members, path: string)
    ensures AllUnder(path, LeavesOfMembers(members, path, true))
    ensures forall x :: x in LeavesOfMembers(members, path, true) ==>
              exists key :: KeyIn(key, members) && Under(KeyPath(path, key), x.0)
    decreases members
  {
    match members
    case NoMembers =>
    case Member(key, value, next) =>
      var first := LeavesOf(value, KeyPath(path, key), true);
      LeavesAreUnder(value, KeyPath(path, key));
      LeavesOfMembersAreUnder(next, path);
      forall x | x in LeavesOfMembers(members, path, true)
        ensures Under(path, x.0) && exists k :: KeyIn(k, members) && Under(KeyPath(path, k), x.0)
      {
        if x in first {
          UnderStep(path, KeyPath(path, key), x.0);
          assert KeyIn(key, members);
        } else {
          var k :| KeyIn(k, next) && Under(KeyPath(path, k), x.0);
          assert KeyIn(k, members);
        }
      }
  }

  lemma {:induction false} LeavesOfItemsAreUnder(items: Items, path: string, index: nat)
    ensures AllUnder(path, LeavesOfItems(items, path, index, true))
    ensures forall x :: x in LeavesOfItems(items, path, index, true) ==>
              exists i: nat :: i >= index && Under(IndexPath(path, i), x.0)
    decreases items
  {
    match items
    case NoItems =>
    case Item(value, next) =>
      var first := LeavesOf(value, IndexPath(path, index), true);
      LeavesAreUnder(value, IndexPath(path, index));
      LeavesOfItemsAreUnder(next, path, index + 1);
      forall x | x in LeavesOfItems(items, path, index, true)
        ensures Under(path, x.0) && exists i: nat :: i >= index && Under(IndexPath(path, i), x.0)
      {
        if x in first {
          UnderStep(path, IndexPath(path, index), x.0);
        } else {
          var i: nat :| i >= index + 1 && Under(IndexPath(path, i), x.0);
        }
      }
  }

  lemma ShorterKeyStops(path: string, k: string, l: string, p: string)
    requires Under(KeyPath(path, k), p) && Under(KeyPath(path, l), p) && |k| < |l|
    ensures l[|k|] == '.' || l[|k|] == '['
  {
  }

  /** Nothing lies under two different plain keys. */
  lemma KeysSeparate(path: string, k: string, l: string, p: string)
    requires PlainKey(k) && PlainKey(l) && Under(KeyPath(path, k), p) && Under(KeyPath(path, l), p)
    ensures k == l
  {
    if |k| < |l| {
      ShorterKeyStops(path, k, l, p);
    } else if |l| < |k| {
      ShorterKeyStops(path, l, k, p);
    } else {
      var a, b := KeyPath(path, k), KeyPath(path, l);
      assert k == a[|path| + 1..] && l == b[|path| + 1..];
    }
  }

  /** The bracket behind the first numeral is at no place inside the second. */
  lemma NumeralsEndTogether(path: string, i: nat, j: nat, p: string)
    requires Under(IndexPath(path, i), p) && Under(IndexPath(path, j), p)
    ensures |Decimal.Render(i)| >= |Decimal.Render(j)|
  {
    var a, b := IndexPath(path, i), IndexPath(path, j);
    assert forall k :: |path| < k < |b| - 1 ==> b[k] != ']';
    assert a[|a| - 1] == ']' && p[|a| - 1] == a[|a| - 1];
  }

  /** Nothing lies under two different indices. */
  lemma IndicesSeparate(path: string, i: nat, j: nat, p: string)
    requires Under(IndexPath(path, i), p) && Under(IndexPath(path, j), p)
    ensures i == j
  {
    NumeralsEndTogether(path, i, j, p);
    NumeralsEndTogether(path, j, i, p);
    var s, t := Decimal.Render(i), Decimal.Render(j);
    var a, b := IndexPath(path, i), IndexPath(path, j);
    assert s == a[|path| + 1..|a| - 1] && t == b[|path| + 1..|b| - 1];
    Decimal.RenderInjective(i, j);
  }

  ghost predicate DistinctPaths(leaves: Leaves) {
    forall i, j :: 0 <= i < j < |leaves| ==> leaves[i].0 != leaves[j].0
  }

  lemma DistinctConcat(a: Leaves, b: Leaves)
    requires DistinctPaths(a) && DistinctPaths(b)
    requires forall x, y :: x in a && y in b ==> x.0 != y.0
    ensures DistinctPaths(a + b)
  {
  }

  lemma KeyInIsPlain(key: string, members: Members)
    requires KeyIn(key, members) && PlainMembers(members)
    ensures PlainKey(key)
    decreases members
  {
  }

  /** With plain keys no two string leaves share a path. */
  lemma {:induction false} PlainKeysDistinctPaths(data: Json, path: string)
    requires PlainKeys(data)
    ensures DistinctPaths(LeavesOf(data, path, true))
    decreases data
  {
    match data
    case Text(_) =>
    case Object(members) => PlainMembersDistinctPaths(members, path);
    case Array(items) => ItemsDistinctPaths(items, path, 0);
    case Scalar(_) =>
  }

  lemma {:induction false} PlainMembersDistinctPaths(members: Members, path: string)
    requires PlainMembers(members)
    ensures DistinctPaths(LeavesOfMembers(members, path, true))
    decreases members
  {
    match members
    case NoMembers =>
    case Member(key, value, next) =>
      var first, rest := LeavesOf(value, KeyPath(path, key), true), LeavesOfMembers(next, path, true);
      PlainKeysDistinctPaths(value, KeyPath(path, key));
      PlainMembersDistinctPaths(next, path);
      LeavesAreUnder(value, KeyPath(path, key));
      LeavesOfMembersAreUnder(next, path);
      forall x, y | x in first && y in rest
        ensures x.0 != y.0
      {
        var k :| KeyIn(k, next) && Under(KeyPath(path, k), y.0);
        KeyInIsPlain(k, next);
        if x.0 == y.0 {
          KeysSeparate(path, key, k, x.0);
        }
      }
      DistinctConcat(first, rest);
  }

  lemma {:induction false} ItemsDistinctPaths(items: Items, path: string, index: nat)
    requires PlainItems(items)
    ensures DistinctPaths(LeavesOfItems(items, path, index, true))
    decreases items
  {
    match items
    case NoItems =>
    case Item(value, next) =>
      var first, rest := LeavesOf(value, IndexPath(path, index), true), LeavesOfItems(next, path, index + 1, true);
      PlainKeysDistinctPaths(value, IndexPath(path, index));
      ItemsDistinctPaths(next, path, index + 1);
      LeavesAreUnder(value, IndexPath(path, index));
      LeavesOfItemsAreUnder(next, path, index + 1);
      forall x, y | x in first && y in rest
        ensures x.0 != y.0
      {
        var i: nat :| i >= index + 1 && Under(IndexPath(path, i), y.0);
        if x.0 == y.0 {
          IndicesSeparate(path, index, i, x.0);
        }
      }
      DistinctConcat(first, rest);
  }

  /** With plain keys every text gets its own redaction and everything else is untouched. */
  lemma PlainKeysRedaction(data: Json, analyze: Analyzer)
    requires PlainKeys(data)
    ensures Redacted(data, analyze) == Map(data, RedactText(analyze))
  {
    var leaves := LeavesOf(data, "$", true);
    PlainKeysDistinctPaths(data, "$");
    assert Coherent(leaves);
    RedactionIsMapExactlyWhen(data);
  }

  // ----- Findings

  /** The findings of all leaves, in document order. */
  function LeafFindings(leaves: Leaves, analyze: Analyzer): seq<PathFinding> {
    if leaves == [] then []
    else
      var last := leaves[|leaves| - 1];
      LeafFindings(leaves[..|leaves| - 1], analyze) + FindingsAt(last.0, analyze(last.1).findings)
  }

  lemma {:induction false} FindingsInOrder(leaves: Leaves, analyze: Analyzer, replaced: map<string, Analysis>)
    requires forall i :: 0 <= i < |leaves| ==> leaves[i].0 in replaced && replaced[leaves[i].0] == analyze(leaves[i].1)
    ensures AllFindings(Firsts(Results(leaves, analyze)), replaced) == LeafFindings(leaves, analyze)
    decreases |leaves|
  {
    if leaves != [] {
      var rest := leaves[..|leaves| - 1];
      FindingsInOrder(rest, analyze, replaced);
      assert Firsts(Results(leaves, analyze))[..|rest|] == Firsts(Results(rest, analyze));
    }
  }

  /** With plain keys the findings are those of all texts that are not blank, each with the path of
      its text, in document order. */
  lemma PlainKeysFindings(data: Json, analyze: Analyzer)
    requires PlainKeys(data)
    ensures var leaves := LeavesOf(data, "$", false);
            var replaced := Replaced(leaves, analyze);
            Valid(replaced) && AllFindings(replaced.keys, replaced.values) == LeafFindings(leaves, analyze)
  {
    var leaves := LeavesOf(data, "$", false);
    var results := Results(leaves, analyze);
    PlainKeysDistinctPaths(data, "$");
    AnalysedLeaves(data, "$");
    NotBlankDistinct(LeavesOf(data, "$", true));
    FromPairsValid(results);
    DistinctKeysKeepOrder(results);
    forall i | 0 <= i < |leaves|
      ensures leaves[i].0 in FromPairs(results).values && FromPairs(results).values[leaves[i].0] == analyze(leaves[i].1)
    {
      LastValueWins(results, i);
    }
    FindingsInOrder(leaves, analyze, FromPairs(results).values);
  }

  lemma {:induction false} NotBlankDistinct(leaves: Leaves)
    requires DistinctPaths(leaves)
    ensures DistinctPaths(NotBlank(leaves))
  {
    if leaves != [] {
      NotBlankDistinct(leaves[1..]);
      forall y | y in NotBlank(leaves[1..])
        ensures y.0 != leaves[0].0
      {
        NotBlankMembership(leaves[1..], y);
        var j :| 0 <= j < |leaves[1..]| && leaves[1..][j] == y;
        assert leaves[j + 1] == y;
      }
      if !Blank(leaves[0].1) {
        DistinctConcat([leaves[0]], NotBlank(leaves[1..]));
      }
    }
  }

  // ----- What a path means

  /** Where a key ends: at the next '.' or '[', or at the end. */
  function KeyEnd(s: string): (n: nat)
    ensures n <= |s|
  {
    if s == [] || s[0] == '.' || s[0] == '[' then 0 else 1 + KeyEnd(s[1..])
  }

  /** Where an index ends: at its ']', or at the end. */
  function IndexEnd(s: string): (n: nat)
    ensures n <= |s|
  {
    if s == [] || s[0] == ']' then 0 else 1 + IndexEnd(s[1..])
  }

  function Lookup(members: Members, key: string): Option<Json> {
    match members
    case NoMembers => None
    case Member(k, value, next) => if k == key then Some(value) else Lookup(next, key)
  }

  function Nth(items: Items, index: nat): Option<Json> {
    match items
    case NoItems => None
    case Item(value, next) => if index == 0 then Some(value) else Nth(next, index - 1)
  }

  /** The value that `.key` and `[i]` steps lead to. */
  function Follow(data: Json, steps: string): Option<Json>
    decreases |steps|
  {
    if steps == "" then Some(data)
    else if steps[0] == '.' && data.Object? then
      var n := 1 + KeyEnd(steps[1..]);
      var value := Lookup(data.members, steps[1..n]);
      if value.None? then None else Follow(value.value, steps[n..])
    else if steps[0] == '[' && data.Array? then
      var n := 1 + IndexEnd(steps[1..]);
      if n == |steps| || n == 1 || !Decimal.Digits(steps[1..n]) then None
      else
        var value := Nth(data.items, Decimal.Read(0, steps[1..n]));
        if value.None? then None else Follow(value.value, steps[n + 1..])
    else None
  }

  lemma {:induction false} KeyEndIs(key: string, rest: string)
    requires PlainKey(key) && (rest == "" || rest[0] == '.' || rest[0] == '[')
    ensures KeyEnd(key + rest) == |key|
  {
    if key == "" {
      assert key + rest == rest;
    } else {
      assert (key + rest)[1..] == key[1..] + rest;
      assert key[0] in key && forall c :: c in key[1..] ==> c in key;
      KeyEndIs(key[1..], rest);
    }
  }

  lemma {:induction false} IndexEndIs(digits: string, rest: string)
    requires Decimal.Digits(digits)
    ensures IndexEnd(digits + "]" + rest) == |digits|
  {
    var s := digits + "]" + rest;
    if digits != "" {
      assert s[1..] == digits[1..] + "]" + rest;
      IndexEndIs(digits[1..], rest);
    }
  }

  lemma FollowKey(members: Members, key: string, value: Json, rest: string)
    requires PlainKey(key) && (rest == "" || rest[0] == '.' || rest[0] == '[')
    requires Lookup(members, key) == Some(value)
    ensures Follow(Object(members), "." + key + rest) == Follow(value, rest)
  {
    var steps := "." + key + rest;
    assert steps[1..] == key + rest;
    KeyEndIs(key, rest);
    assert steps[1..1 + |key|] == key && steps[1 + |key|..] == rest;
  }

  lemma FollowIndex(items: Items, index: nat, value: Json, rest: string)
    requires Nth(items, index) == Some(value)
    ensures Follow(Array(items), "[" + Decimal.Render(index) + "]" + rest) == Follow(value, rest)
  {
    var digits := Decimal.Render(index);
    var steps := "[" + digits + "]" + rest;
    assert steps[1..] == digits + "]" + rest;
    Decimal.ReadRender(index);
    IndexEndIs(digits, rest);
    assert steps[1..1 + |digits|] == digits && steps[1 + |digits| + 1..] == rest;
  }

  /** What is left of a leaf's path behind `path`. */
  ghost predicate Reaches(data: Json, path: string, leaf: (string, string)) {
    && |path| <= |leaf.0| && leaf.0[..|path|] == path
    && Follow(data, leaf.0[|path|..]) == Some(Text(leaf.1))
    && (|path| < |leaf.0| ==> leaf.0[|path|] == '.' || leaf.0[|path|] == '[')
  }

  lemma Behind(path: string, step: string, whole: string)
    requires path + step <= whole
    ensures path <= whole && whole[|path|..] == step + whole[|path + step|..]
  {
    var rest := whole[|path + step|..];
    assert whole == path + step + rest;
    assert whole == path + (step + rest);
  }

  lemma ReachedThroughKey(members: Members, key: string, value: Json, path: string, leaf: (string, string))
    requires PlainKey(key) && Lookup(members, key) == Some(value) && Reaches(value, KeyPath(path, key), leaf)
    ensures Reaches(Object(members), path, leaf)
  {
    var step := "." + key;
    assert KeyPath(path, key) == path + step;
    Behind(path, step, leaf.0);
    FollowKey(members, key, value, leaf.0[|path + step|..]);
  }

  lemma ReachedThroughIndex(items: Items, index: nat, value: Json, path: string, leaf: (string, string))
    requires Nth(items, index) == Some(value) && Reaches(value, IndexPath(path, index), leaf)
    ensures Reaches(Array(items), path, leaf)
  {
    var step := "[" + Decimal.Render(index) + "]";
    assert IndexPath(path, index) == path + step;
    Behind(path, step, leaf.0);
    FollowIndex(items, index, value, leaf.0[|path + step|..]);
  }

  lemma {:induction false} LeafIsReached(data: Json, path: string, leaf: (string, string))
    requires PlainKeys(data) && leaf in LeavesOf(data, path, true)
    ensures Reaches(data, path, leaf)
    decreases data
  {
    match data
    case Text(_) =>
      assert leaf.0 == path && leaf.0[|path|..] == "";
    case Object(members) => MemberLeafIsReached(members, members, path, leaf);
    case Array(items) => ItemLeafIsReached(items, items, path, 0, leaf);
    case Scalar(_) =>
  }

  lemma {:induction false} MemberLeafIsReached(all: Members, members: Members, path: string, leaf: (string, string))
    requires PlainMembers(members) && leaf in LeavesOfMembers(members, path, true)
    requires forall key :: KeyIn(key, members) ==> Lookup(all, key) == Lookup(members, key)
    ensures Reaches(Object(all), path, leaf)
    decreases members
  {
    match members
    case NoMembers =>
    case Member(key, value, next) =>
      if leaf in LeavesOf(value, KeyPath(path, key), true) {
        LeafIsReached(value, KeyPath(path, key), leaf);
        assert KeyIn(key, members);
        ReachedThroughKey(all, key, value, path, leaf);
      } else {
        forall k | KeyIn(k, next)
          ensures Lookup(all, k) == Lookup(next, k)
        {
          assert KeyIn(k, members) && k != key;
        }
        MemberLeafIsReached(all, next, path, leaf);
      }
  }

  lemma {:induction false} ItemLeafIsReached(all: Items, items: Items, path: string, index: nat, leaf: (string, string))
    requires PlainItems(items) && leaf in LeavesOfItems(items, path, index, true)
    requires forall i: nat :: Nth(all, index + i) == Nth(items, i)
    ensures Reaches(Array(all), path, leaf)
    decreases items
  {
    match items
    case NoItems =>
    case Item(value, next) =>
      assert Nth(all, index + 0) == Nth(items, 0) == Some(value);
      if leaf in LeavesOf(value, IndexPath(path, index), true) {
        LeafIsReached(value, IndexPath(path, index), leaf);
        ReachedThroughIndex(all, index, value, path, leaf);
      } else {
        forall i: nat
          ensures Nth(all, index + 1 + i) == Nth(next, i)
        {
          assert Nth(all, index + (1 + i)) == Nth(items, 1 + i);
        }
        ItemLeafIsReached(all, next, path, index + 1, leaf);
      }
  }

  /** With plain keys the path of every string leaf leads from the root, "$", to exactly its text. */
  lemma PathsLeadToTheirTexts(data: Json, leaf: (string, string))
    requires PlainKeys(data) && leaf in LeavesOf(data, "$", true)
    ensures |leaf.0| > 0 && leaf.0[0] == '$' && Follow(data, leaf.0[1..]) == Some(Text(leaf.1))
  {
    LeafIsReached(data, "$", leaf);
  }

  lemma {:induction false} LookupInMap(members: Members, key: string, f: string -> string)
    ensures Lookup(MapMembers(members, f), key)
         == match Lookup(members, key)
            case None => None
            case Some(value) => Some(Map(value, f))
    decreases members
  {
    if members.Member? && members.key != key {
      LookupInMap(members.next, key, f);
    }
  }

  lemma {:induction false} NthInMap(items: Items, index: nat, f: string -> string)
    ensures Nth(MapItems(items, f), index)
         == match Nth(items, index)
            case None => None
            case Some(value) => Some(Map(value, f))
    decreases items
  {
    if items.Item? && index > 0 {
      NthInMap(items.next, index - 1, f);
    }
  }

  /** Steps lead to the image of what they led to. */
  lemma {:induction false} FollowInMap(data: Json, steps: string, f: string -> string)
    requires Follow(data, steps).Some?
    ensures Follow(Map(data, f), steps) == Some(Map(Follow(data, steps).value, f))
    decreases |steps|
  {
    if steps != "" {
      if steps[0] == '.' {
        var n := 1 + KeyEnd(steps[1..]);
        LookupInMap(data.members, steps[1..n], f);
        FollowInMap(Lookup(data.members, steps[1..n]).value, steps[n..], f);
      } else {
        var n := 1 + IndexEnd(steps[1..]);
        var index := Decimal.Read(0, steps[1..n]);
        NthInMap(data.items, index, f);
        FollowInMap(Nth(data.items, index).value, steps[n + 1..], f);
      }
    }
  }

  /** With plain keys, where a text was, the redacted document has its redaction if it has findings and is not all
      white space, and the text itself otherwise. */
  lemma TextsAreRedactedInPlace(data: Json, analyze: Analyzer, leaf: (string, string))
    requires PlainKeys(data) && leaf in LeavesOf(data, "$", true)
    ensures var (path, text) := leaf;
            && path != "" && Follow(data, path[1..]) == Some(Text(text))
            && (!Normalizer.AllSpace(text) && analyze(text).findings != [] ==>
                  Follow(Redacted(data, analyze), path[1..]) == Some(Text(analyze(text).redactedText)))
            && (Normalizer.AllSpace(text) || analyze(text).findings == [] ==>
                  Follow(Redacted(data, analyze), path[1..]) == Some(Text(text)))
  {
    PathsLeadToTheirTexts(data, leaf);
    PlainKeysRedaction(data, analyze);
    FollowInMap(data, leaf.0[1..], RedactText(analyze));
    var before, behind := Normalizer.StripCutsSpace(leaf.1);
  }

  lemma {:induction false} LeafFindingsElements(leaves: Leaves, analyze: Analyzer, f: PathFinding)
    ensures f in LeafFindings(leaves, analyze)
            <==> exists x :: x in leaves && x.0 == f.path && f.finding in analyze(x.1).findings
  {
    if leaves != [] {
      var n := |leaves| - 1;
      LeafFindingsElements(leaves[..n], analyze, f);
      var last := leaves[n];
      var found := analyze(last.1).findings;
      assert forall x :: x in leaves <==> x in leaves[..n] || x == last;
      if f.path == last.0 && f.finding in found {
        var i :| 0 <= i < |found| && found[i] == f.finding;
        assert FindingsAt(last.0, found)[i] == f;
      }
    }
  }

  /** With plain keys every reported finding is a finding of the text that its path leads to, and that text is
      not blank. */
  lemma FindingsPointAtTheirTexts(data: Json, analyze: Analyzer, f: PathFinding)
    requires PlainKeys(data)
    ensures var replaced := Replaced(LeavesOf(data, "$", false), analyze);
            Valid(replaced)
            && (f in AllFindings(replaced.keys, replaced.values) ==>
                  && |f.path| > 0 && f.path[0] == '$'
                  && exists text :: Follow(data, f.path[1..]) == Some(Text(text))
                                    && !Blank(text) && f.finding in analyze(text).findings)
  {
    var leaves := LeavesOf(data, "$", false);
    PlainKeysFindings(data, analyze);
    LeafFindingsElements(leaves, analyze, f);
    AnalysedLeaves(data, "$");
    if x :| x in leaves && x.0 == f.path && f.finding in analyze(x.1).findings {
      NotBlankMembership(LeavesOf(data, "$", true), x);
      PathsLeadToTheirTexts(data, x);
    }
  }

  /** Without plain keys two leaves can share a path: the text at {"a.b": ..} is taken for the one at
      {"a": {"b": ..}} and gets its redaction. */
  lemma DottedKeyCollides(analyze: Analyzer)
    requires analyze("x") == Analysis("x", []) && analyze("y") == Analysis("[Y]", [Finding("Y", 0, 1)])
    ensures var data := Object(Member("a.b", Text("x"),
                                      Member("a", Object(Member("b", Text("y"), NoMembers)), NoMembers)));
            Redacted(data, analyze)
            == Object(Member("a.b", Text("[Y]"), Member("a", Object(Member("b", Text("[Y]"), NoMembers)), NoMembers)))
  {
    var inner := Object(Member("b", Text("y"), NoMembers));
    var data := Object(Member("a.b", Text("x"), Member("a", inner, NoMembers)));
    var p := "$.a.b";
    assert KeyPath("$", "a.b") == p && KeyPath(KeyPath("$", "a"), "b") == p;
    assert !Blank("x") && !Blank("y");
    var leaves := LeavesOf(data, "$", false);
    assert leaves == [(p, "x"), (p, "y")];
    var results := Results(leaves, analyze);
    LastValueWins(results, 1);
  }
}
