/** Compiling the working set into a snapshot (`compile_snapshot` in
    services/guardrail-control-plane/app/domain/compiler.py). Times are whole microseconds; a message keeps
    the parts its text is made of; the JSON Schema validator is an unknown function. */
module Snapshot {
  import opened Wrappers
  import opened OrderedDict
  import opened Sorting
  import opened Selection

  datatype Manifest = Manifest(stages: seq<string>, parallelSafe: bool, schema: string)

  /** A registered version; no manifest if the stored one is refused when it is read. */
  datatype Registered = Registered(deprecated: bool, manifest: Option<Manifest>)

  /** `config` stands for the configuration and for the fields that are only carried along. */
  datatype Assignment<C> = Assignment(id: string, guardrail: string, version: string, stages: seq<string>, order: int,
                                      group: Option<string>, config: C)

  datatype Gateway = Gateway(id: string, installed: seq<string>, lastSeen: int)

  datatype Message =
    | NotRegistered(id: string, key: string)
    | Deprecated(id: string, key: string)
    | UnsupportedStages(id: string, key: string, stages: seq<string>)
    | NotParallelSafe(id: string, key: string)
    | BadConfig(id: string, text: string)
    | NotInstalled(id: string, key: string, gateways: seq<string>)
    | NoLiveGateway(environment: string)

  datatype Document<C> = Document(version: string, environment: string, assignments: seq<Assignment<C>>)

  /** What is raised: a stored manifest is refused, or the document is. */
  datatype Invalid = InvalidManifest | UnknownEnvironment | DuplicateIds

  type Validator<!C> = (Manifest, C) -> seq<string>

  /** What all assignments are checked against. */
  datatype Context<!C> = Context(versions: map<string, Registered>, live: seq<Gateway>, force: bool,
                                 validate: Validator<C>)

  datatype Outcome<C> = Outcome(document: Option<Document<C>>, errors: seq<Message>, warnings: seq<Message>)

  // ----- One assignment

  function Key<C>(a: Assignment<C>): string {
    a.guardrail + "@" + a.version
  }

  function Same<T>(): T -> T { (x: T) => x }

  function NotIn(supported: seq<string>): string -> bool {
    (s: string) => s !in supported
  }

  function Lacks(key: string): Gateway -> bool {
    (g: Gateway) => key !in g.installed
  }

  function GatewayId(): Gateway -> string { (g: Gateway) => g.id }

  /** The live gateways without the guardrail, sorted. */
  function Missing(live: seq<Gateway>, key: string): seq<string> {
    Sort(StringLe, Section(live, Lacks(key), GatewayId()))
  }

  function DeprecatedPart<C>(a: Assignment<C>, r: Registered): seq<Message> {
    if r.deprecated then [Deprecated(a.id, Key(a))] else []
  }

  function StagesPart<C>(a: Assignment<C>, m: Manifest): seq<Message> {
    var unsupported := Section(a.stages, NotIn(m.stages), Same());
    if unsupported != [] then [UnsupportedStages(a.id, Key(a), unsupported)] else []
  }

  function GroupPart<C>(a: Assignment<C>, m: Manifest): seq<Message> {
    if a.group.Some? && a.group.value != "" && !m.parallelSafe then [NotParallelSafe(a.id, Key(a))] else []
  }

  function ConfigPart<C>(a: Assignment<C>, m: Manifest, validate: Validator<C>): seq<Message> {
    var texts := validate(m, a.config);
    seq(|texts|, i requires 0 <= i < |texts| => BadConfig(a.id, texts[i]))
  }

  function InstalledPart<C>(a: Assignment<C>, live: seq<Gateway>): seq<Message> {
    var missing := Missing(live, Key(a));
    if missing != [] then [NotInstalled(a.id, Key(a), missing)] else []
  }

  /** What is always an error. */
  function ManifestPart<C>(a: Assignment<C>, m: Option<Manifest>, validate: Validator<C>): seq<Message> {
    if m.None? then [] else StagesPart(a, m.value) + GroupPart(a, m.value) + ConfigPart(a, m.value, validate)
  }

  /** The check of this assignment raises. */
  predicate Broken<C>(a: Assignment<C>, c: Context<C>) {
    Key(a) in c.versions && c.versions[Key(a)].manifest.None?
  }

  predicate NoneBroken<C>(s: seq<Assignment<C>>, c: Context<C>) {
    forall i :: 0 <= i < |s| ==> !Broken(s[i], c)
  }

  function IfNot(force: bool, messages: seq<Message>): seq<Message> {
    if force then [] else messages
  }

  /** What one assignment adds to the errors, in order; `force` makes warnings of two of them. */
  function ErrorsOf<C>(a: Assignment<C>, c: Context<C>): seq<Message> {
    if Key(a) !in c.versions then [NotRegistered(a.id, Key(a))]
    else
      var r := c.versions[Key(a)];
      IfNot(c.force, DeprecatedPart(a, r)) + ManifestPart(a, r.manifest, c.validate)
      + IfNot(c.force, InstalledPart(a, c.live))
  }

  function WarningsOf<C>(a: Assignment<C>, c: Context<C>): seq<Message> {
    if Key(a) !in c.versions then []
    else IfNot(!c.force, DeprecatedPart(a, c.versions[Key(a)])) + IfNot(!c.force, InstalledPart(a, c.live))
  }

  // ----- All assignments

  function ErrorsIn<C>(c: Context<C>): Assignment<C> -> seq<Message> {
    (a: Assignment<C>) => ErrorsOf(a, c)
  }

  function WarningsIn<C>(c: Context<C>): Assignment<C> -> seq<Message> {
    (a: Assignment<C>) => WarningsOf(a, c)
  }

  /** By order, and by id within one order. */
  predicate Before<C>(a: Assignment<C>, b: Assignment<C>) {
    a.order < b.order || (a.order == b.order && StringLe(a.id, b.id))
  }

  function ByOrder<C(!new)>(): Order<Assignment<C>> {
    (a: Assignment<C>, b: Assignment<C>) => Before(a, b)
  }

  predicate Alive(g: Gateway, now: int, staleAfter: int) {
    now - g.lastSeen <= staleAfter * 1_000_000
  }

  /** The gateways seen recently; the clock is read anew for each of them. */
  function Live(gateways: seq<Gateway>, clock: nat -> int, staleAfter: int): seq<Gateway> {
    if gateways == [] then []
    else
      var n := |gateways| - 1;
      Live(gateways[..n], clock, staleAfter) + (if Alive(gateways[n], clock(n), staleAfter) then [gateways[n]] else [])
  }

  const ENVIRONMENTS: set<string> := {"dev", "staging", "production"}

  function Any<C>(): Assignment<C> -> bool { (a: Assignment<C>) => true }

  function Id<C>(): Assignment<C> -> string { (a: Assignment<C>) => a.id }

  function Ids<C>(s: seq<Assignment<C>>): seq<string> {
    Section(s, Any(), Id())
  }

  function Refusal<C>(environment: string, ordered: seq<Assignment<C>>): Option<Invalid> {
    if environment !in ENVIRONMENTS then Some(UnknownEnvironment)
    else if !NoDuplicates(Ids(ordered)) then Some(DuplicateIds)
    else None
  }

  /** How the run ends once the messages are collected. */
  function Concluded<C>(environment: string, ordered: seq<Assignment<C>>, errors: seq<Message>,
                        warnings: seq<Message>): Result<Outcome<C>, Invalid>
  {
    if errors != [] then Ok(Outcome(None, errors, warnings))
    else
      match Refusal(environment, ordered)
      case Some(e) => Err(e)
      case None => Ok(Outcome(Some(Document("draft", environment, ordered)), errors, warnings))
  }

  function NobodyLive(environment: string, live: seq<Gateway>): seq<Message> {
    if live == [] then [NoLiveGateway(environment)] else []
  }

  function Compiled<C(!new)>(environment: string, assignments: seq<Assignment<C>>, c: Context<C>)
      : Result<Outcome<C>, Invalid>
  {
    var ordered := Sort(ByOrder(), assignments);
    if !NoneBroken(ordered, c) then Err(InvalidManifest)
    else
      Concluded(environment, ordered, Flat(ordered, ErrorsIn(c)),
                Flat(ordered, WarningsIn(c)) + NobodyLive(environment, c.live))
  }

  // ----- Compiling in place

  class CompileResult<!C> {
    var document: Option<Document<C>>
    var errors: seq<Message>
    var warnings: seq<Message>

    constructor ()
      ensures document == None && errors == [] && warnings == []
    {
      document, errors, warnings := None, [], [];
    }

    function View(): Outcome<C>
      reads this
    {
      Outcome(document, errors, warnings)
    }

    method AddSoftened(messages: seq<Message>, force: bool)
      modifies this`errors, this`warnings
      ensures errors == old(errors) + IfNot(force, messages)
      ensures warnings == old(warnings) + IfNot(!force, messages)
    {
      if force {
        warnings := warnings + messages;
      } else {
        errors := errors + messages;
      }
    }

    /** The three checks against the manifest, whose messages are always errors. */
    method CheckManifest(a: Assignment<C>, m: Manifest, validate: Validator<C>)
      modifies this`errors
      ensures errors == old(errors) + ManifestPart(a, Some(m), validate)
    {
      var unsupported := Section(a.stages, NotIn(m.stages), Same());
      if unsupported != [] {
        errors := errors + [UnsupportedStages(a.id, Key(a), unsupported)];
      }
      assert errors == old(errors) + StagesPart(a, m);
      if a.group.Some? && a.group.value != "" && !m.parallelSafe {
        errors := errors + [NotParallelSafe(a.id, Key(a))];
      }
      assert errors == old(errors) + StagesPart(a, m) + GroupPart(a, m);
      var texts := validate(m, a.config);
      errors := errors + seq(|texts|, i requires 0 <= i < |texts| => BadConfig(a.id, texts[i]));
      Regroup(old(errors), StagesPart(a, m), GroupPart(a, m), ConfigPart(a, m, validate));
    }

    /** The body of the loop over the assignments; it raises when the stored manifest is refused. */
    method Check(a: Assignment<C>, c: Context<C>) returns (ok: bool)
      modifies this`errors, this`warnings
      ensures ok == !Broken(a, c)
      ensures ok ==> errors == old(errors) + ErrorsOf(a, c) && warnings == old(warnings) + WarningsOf(a, c)
    {
      var key := Key(a);
      if key !in c.versions {
        errors := errors + [NotRegistered(a.id, key)];
        return true;
      }
      var r := c.versions[key];
      AddSoftened(if r.deprecated then [Deprecated(a.id, key)] else [], c.force);
      if r.manifest.None? {
        return false;
      }
      CheckManifest(a, r.manifest.value, c.validate);
      var missing := Missing(c.live, key);
      AddSoftened(if missing != [] then [NotInstalled(a.id, key, missing)] else [], c.force);
      Regroup(old(errors), IfNot(c.force, DeprecatedPart(a, r)), ManifestPart(a, r.manifest, c.validate),
              IfNot(c.force, InstalledPart(a, c.live)));
      Regroup(old(warnings), IfNot(!c.force, DeprecatedPart(a, r)), [], IfNot(!c.force, InstalledPart(a, c.live)));
      return true;
    }

    method CheckAll(ordered: seq<Assignment<C>>, c: Context<C>) returns (ok: bool)
      requires errors == [] && warnings == []
      modifies this`errors, this`warnings
      ensures ok == NoneBroken(ordered, c)
      ensures ok ==> errors == Flat(ordered, ErrorsIn(c)) && warnings == Flat(ordered, WarningsIn(c))
    {
      for i := 0 to |ordered|
        invariant NoneBroken(ordered[..i], c)
        invariant errors == Flat(ordered[..i], ErrorsIn(c)) && warnings == Flat(ordered[..i], WarningsIn(c))
      {
        assert ordered[..i + 1][..i] == ordered[..i];
        ok := Check(ordered[i], c);
        if !ok {
          return;
        }
      }
      assert ordered[..|ordered|] == ordered;
      return true;
    }
  }

  lemma Regroup<T>(w: seq<T>, x: seq<T>, y: seq<T>, z: seq<T>)
    ensures w + x + y + z == w + (x + y + z)
    ensures x + [] + z == x + z
  {
  }

  method LiveGateways(gateways: seq<Gateway>, clock: nat -> int, staleAfter: int) returns (live: seq<Gateway>)
    ensures live == Live(gateways, clock, staleAfter)
  {
    live := [];
    for i := 0 to |gateways|
      invariant live == Live(gateways[..i], clock, staleAfter)
    {
      assert gateways[..i + 1][..i] == gateways[..i];
      if Alive(gateways[i], clock(i), staleAfter) {
        live := live + [gateways[i]];
      }
    }
    assert gateways[..|gateways|] == gateways;
  }

  method CompileSnapshot<C(!new)>(environment: string, assignments: seq<Assignment<C>>,
                                  versions: map<string, Registered>, gateways: seq<Gateway>, force: bool,
                                  staleAfter: int, clock: nat -> int,
                                  validate: Validator<C>) returns (r: Result<CompileResult<C>, Invalid>)
    ensures var compiled := Compiled(environment, assignments,
                                     Context(versions, Live(gateways, clock, staleAfter), force, validate));
            match r
            case Err(e) => compiled == Err(e)
            case Ok(result) => fresh(result) && compiled == Ok(result.View())
  {
    var result := new CompileResult();
    var live := LiveGateways(gateways, clock, staleAfter);
    var c := Context(versions, live, force, validate);
    var ordered := Sort(ByOrder(), assignments);
    var ok := result.CheckAll(ordered, c);
    if !ok {
      return Err(InvalidManifest);
    }
    if live == [] {
      result.warnings := result.warnings + [NoLiveGateway(environment)];
    }
    assert result.warnings == Flat(ordered, WarningsIn(c)) + NobodyLive(environment, live);
    if result.errors != [] {
      return Ok(result);
    }
    var refusal := Refusal(environment, ordered);
    if refusal.Some? {
      return Err(refusal.value);
    }
    result.document := Some(Document("draft", environment, ordered));
    return Ok(result);
  }

  // ----- What is released

  /** What an assignment must satisfy to be published. */
  ghost predicate Ready<C>(a: Assignment<C>, c: Context<C>) {
    && Key(a) in c.versions
    && var r := c.versions[Key(a)];
       && (r.deprecated ==> c.force)
       && r.manifest.Some?
       && (forall s :: s in a.stages ==> s in r.manifest.value.stages)
       && (a.group.Some? && a.group.value != "" ==> r.manifest.value.parallelSafe)
       && c.validate(r.manifest.value, a.config) == []
       && (c.force || forall g :: g in c.live ==> Key(a) in g.installed)
  }

  lemma NothingUnsupported(stages: seq<string>, supported: seq<string>)
    ensures Section(stages, NotIn(supported), Same()) == [] <==> forall s :: s in stages ==> s in supported
  {
  }

  /** The missing list is empty exactly when the guardrail is on every live gateway. */
  lemma NothingMissing(live: seq<Gateway>, key: string)
    ensures Missing(live, key) == [] <==> forall g :: g in live ==> key in g.installed
  {
    var picked := Section(live, Lacks(key), GatewayId());
    SortIsPermutation(StringLe, picked);
    SameElements(Missing(live, key), picked);
    if picked != [] {
      SectionMembership(live, Lacks(key), GatewayId(), picked[0]);
    }
    forall g | g in live && key !in g.installed
      ensures picked != []
    {
      SectionMembership(live, Lacks(key), GatewayId(), g.id);
      assert Lacks(key)(g) && GatewayId()(g) == g.id;
    }
  }

  /** The check of an assignment neither raises nor adds an error exactly when it is ready. */
  lemma NoErrorExactlyWhenReady<C>(a: Assignment<C>, c: Context<C>)
    ensures !Broken(a, c) && ErrorsOf(a, c) == [] <==> Ready(a, c)
  {
    if Key(a) in c.versions && !Broken(a, c) {
      var m := c.versions[Key(a)].manifest.value;
      NothingUnsupported(a.stages, m.stages);
      NothingMissing(c.live, Key(a));
      assert ConfigPart(a, m, c.validate) == [] <==> c.validate(m, a.config) == [];
    }
  }

  lemma ByOrderIsOrder<C(!new)>()
    ensures Total(ByOrder<C>())
    ensures forall a: Assignment<C>, b: Assignment<C> ::
      Before(a, b) && Before(b, a) ==> a.order == b.order && a.id == b.id
  {
    var le := ByOrder<C>();
    forall a: Assignment<C>, b: Assignment<C>
      ensures le(a, b) || le(b, a)
      ensures Before(a, b) && Before(b, a) ==> a.order == b.order && a.id == b.id
    {
      StringLeTotal(a.id, b.id);
    }
    forall x: Assignment<C>, y: Assignment<C>, z: Assignment<C> | le(x, y) && le(y, z)
      ensures le(x, z)
    {
      if x.order == z.order {
        StringLeTransitive(x.id, y.id, z.id);
      }
    }
  }

  lemma DistinctIdsDoNotTie<C(!new)>(s: seq<Assignment<C>>)
    requires forall a, b :: a in s && b in s && a.id == b.id ==> a == b
    ensures NoTies(ByOrder(), s)
  {
    ByOrderIsOrder<C>();
  }

  lemma BrokenInAnyOrder<C(!new)>(assignments: seq<Assignment<C>>, c: Context<C>)
    ensures NoneBroken(Sort(ByOrder(), assignments), c) <==> forall a :: a in assignments ==> !Broken(a, c)
  {
    var ordered := Sort(ByOrder(), assignments);
    forall a
      ensures a in ordered <==> a in assignments
    {
      SortElements(ByOrder(), assignments, a);
    }
    assert forall i :: 0 <= i < |ordered| ==> ordered[i] in ordered;
  }

  lemma NoErrorsExactlyWhen<C(!new)>(assignments: seq<Assignment<C>>, c: Context<C>)
    ensures NoneBroken(Sort(ByOrder(), assignments), c) && Flat(Sort(ByOrder(), assignments), ErrorsIn(c)) == []
            <==> forall a :: a in assignments ==> Ready(a, c)
  {
    var ordered := Sort(ByOrder(), assignments);
    BrokenInAnyOrder(assignments, c);
    FlatIsEmpty(ordered, ErrorsIn(c));
    forall a
      ensures !Broken(a, c) && ErrorsIn(c)(a) == [] <==> Ready(a, c)
      ensures a in ordered <==> a in assignments
    {
      NoErrorExactlyWhenReady(a, c);
      SortElements(ByOrder(), assignments, a);
    }
  }

  predicate Released<C>(r: Result<Outcome<C>, Invalid>) {
    r.Ok? && r.value.document.Some?
  }

  /** A snapshot is released exactly when every assignment is ready, the ids are distinct and the environment
      is known. */
  lemma ReleasedExactlyWhen<C(!new)>(environment: string, assignments: seq<Assignment<C>>, c: Context<C>)
    ensures Released(Compiled(environment, assignments, c))
            <==> && (forall a :: a in assignments ==> Ready(a, c))
                 && NoDuplicates(Ids(assignments)) && environment in ENVIRONMENTS
  {
    NoErrorsExactlyWhen(assignments, c);
    var ordered := Sort(ByOrder(), assignments);
    SortIsPermutation(ByOrder(), assignments);
    SectionOfPermutation(ordered, assignments, Any(), Id());
    DuplicatesStay(Ids(ordered), Ids(assignments));
  }

  /** A released snapshot lists the assignments it was given, no more and no fewer, by order and id. */
  lemma ReleasedIsSorted<C(!new)>(environment: string, assignments: seq<Assignment<C>>, c: Context<C>)
    requires Released(Compiled(environment, assignments, c))
    ensures var document := Compiled(environment, assignments, c).value.document.value;
            var listed := document.assignments;
            && document.version == "draft" && document.environment == environment
            && multiset(listed) == multiset(assignments)
            && forall i, j :: 0 <= i < j < |listed| ==>
              listed[i].order < listed[j].order
              || (listed[i].order == listed[j].order && StringLe(listed[i].id, listed[j].id))
  {
    SortIsPermutation(ByOrder(), assignments);
    ByOrderIsOrder<C>();
    SortIsSorted(ByOrder(), assignments);
    var listed := Sort(ByOrder(), assignments);
    forall i, j | 0 <= i < j < |listed|
      ensures Before(listed[i], listed[j])
    {
      assert ByOrder()(listed[i], listed[j]);
    }
  }

  // ----- Whom the errors name

  predicate Names(m: Message, id: string) {
    !m.NoLiveGateway? && m.id == id
  }

  lemma ErrorsNameTheirAssignment<C>(a: Assignment<C>, c: Context<C>)
    ensures forall m :: m in ErrorsOf(a, c) ==> Names(m, a.id)
  {
    if Key(a) in c.versions {
      var r := c.versions[Key(a)];
      if r.manifest.Some? {
        assert forall m :: m in ConfigPart(a, r.manifest.value, c.validate) ==> Names(m, a.id);
      }
      assert forall m :: m in ManifestPart(a, r.manifest, c.validate) ==> Names(m, a.id);
      assert forall m :: m in InstalledPart(a, c.live) ==> Names(m, a.id);
    }
  }

  /** If nothing is raised, the errors name an id exactly when an assignment with that id is not ready; so no
      bad assignment goes unreported and no good one is blamed. */
  lemma NamedExactlyWhenUnready<C(!new)>(environment: string, assignments: seq<Assignment<C>>, c: Context<C>,
                                         id: string)
    requires Compiled(environment, assignments, c).Ok?
    ensures (exists m :: m in Compiled(environment, assignments, c).value.errors && Names(m, id))
            <==> exists a :: a in assignments && a.id == id && !Ready(a, c)
  {
    var ordered := Sort(ByOrder(), assignments);
    SortIsPermutation(ByOrder(), assignments);
    SameElements(ordered, assignments);
    BrokenInAnyOrder(assignments, c);
    var errors := Compiled(environment, assignments, c).value.errors;
    assert errors == Flat(ordered, ErrorsIn(c));
    if m :| m in errors && Names(m, id) {
      FlatElements(ordered, ErrorsIn(c), m);
      var a :| a in ordered && m in ErrorsIn(c)(a);
      ErrorsNameTheirAssignment(a, c);
      NoErrorExactlyWhenReady(a, c);
      assert a in assignments && a.id == id && !Ready(a, c);
    }
    if a :| a in assignments && a.id == id && !Ready(a, c) {
      NoErrorExactlyWhenReady(a, c);
      var m := ErrorsOf(a, c)[0];
      assert m in ErrorsOf(a, c) && a in ordered;
      FlatElements(ordered, ErrorsIn(c), m);
      ErrorsNameTheirAssignment(a, c);
    }
  }

  // ----- What `force` does

  lemma SoftenedOnce<C>(a: Assignment<C>, c: Context<C>)
    ensures var forced := c.(force := true);
            multiset(ErrorsOf(a, forced)) + multiset(WarningsOf(a, forced))
                == multiset(ErrorsOf(a, c)) + multiset(WarningsOf(a, c))
  {
  }

  /** The check of the assignments raises exactly when some stored manifest is refused. */
  lemma RaisesExactlyWhen<C(!new)>(environment: string, assignments: seq<Assignment<C>>, c: Context<C>)
    ensures Compiled(environment, assignments, c) == Err(InvalidManifest)
            <==> exists a :: a in assignments && Broken(a, c)
  {
    BrokenInAnyOrder(assignments, c);
  }

  /** What it raises, it raises with `force` too. */
  lemma ForceRaisesAlike<C(!new)>(environment: string, assignments: seq<Assignment<C>>, c: Context<C>)
    ensures Compiled(environment, assignments, c) == Err(InvalidManifest)
            <==> Compiled(environment, assignments, c.(force := true)) == Err(InvalidManifest)
  {
    RaisesExactlyWhen(environment, assignments, c);
    RaisesExactlyWhen(environment, assignments, c.(force := true));
    assert forall a :: Broken(a, c) == Broken(a, c.(force := true));
  }

  lemma Collected<C(!new)>(environment: string, assignments: seq<Assignment<C>>, c: Context<C>)
    requires Compiled(environment, assignments, c).Ok?
    ensures var r := Compiled(environment, assignments, c).value;
            var ordered := Sort(ByOrder(), assignments);
            && r.errors == Flat(ordered, ErrorsIn(c))
            && r.warnings == Flat(ordered, WarningsIn(c)) + NobodyLive(environment, c.live)
  {
  }

  lemma SoftenedAll<C(!new)>(ordered: seq<Assignment<C>>, c: Context<C>)
    ensures var forced := c.(force := true);
            multiset(Flat(ordered, ErrorsIn(forced))) + multiset(Flat(ordered, WarningsIn(forced)))
            == multiset(Flat(ordered, ErrorsIn(c))) + multiset(Flat(ordered, WarningsIn(c)))
  {
    var forced := c.(force := true);
    var e, w, plainE, plainW := ErrorsIn(forced), WarningsIn(forced), ErrorsIn(c), WarningsIn(c);
    forall a
      ensures multiset(e(a)) + multiset(w(a)) == multiset(plainE(a)) + multiset(plainW(a))
    {
      SoftenedOnce(a, c);
    }
    FlatConserves(ordered, e, w, plainE, plainW);
  }

  /** `force` changes no finding, only its severity: errors and warnings together stay the same. */
  lemma ForceOnlySoftens<C(!new)>(environment: string, assignments: seq<Assignment<C>>, c: Context<C>)
    requires Compiled(environment, assignments, c).Ok? && Compiled(environment, assignments, c.(force := true)).Ok?
    ensures var plain := Compiled(environment, assignments, c).value;
            var forced := Compiled(environment, assignments, c.(force := true)).value;
            multiset(forced.errors) + multiset(forced.warnings) == multiset(plain.errors) + multiset(plain.warnings)
  {
    var ordered, forced := Sort(ByOrder(), assignments), c.(force := true);
    Collected(environment, assignments, c);
    Collected(environment, assignments, forced);
    SoftenedAll(ordered, c);
    SameTail(Flat(ordered, ErrorsIn(forced)), Flat(ordered, WarningsIn(forced)), Flat(ordered, ErrorsIn(c)),
             Flat(ordered, WarningsIn(c)), NobodyLive(environment, c.live));
  }

  lemma SameTail<T>(e: seq<T>, w: seq<T>, plainE: seq<T>, plainW: seq<T>, tail: seq<T>)
    requires multiset(e) + multiset(w) == multiset(plainE) + multiset(plainW)
    ensures multiset(e) + multiset(w + tail) == multiset(plainE) + multiset(plainW + tail)
  {
    assert multiset(e) + multiset(w + tail) == (multiset(e) + multiset(w)) + multiset(tail);
    assert multiset(plainE) + multiset(plainW + tail) == (multiset(plainE) + multiset(plainW)) + multiset(tail);
  }

  /** What is released without `force` is released with it, and is the same document. */
  lemma ForceKeepsDocuments<C(!new)>(environment: string, assignments: seq<Assignment<C>>, c: Context<C>)
    requires Released(Compiled(environment, assignments, c))
    ensures var forced := Compiled(environment, assignments, c.(force := true));
            Released(forced) && forced.value.document == Compiled(environment, assignments, c).value.document
  {
    ReleasedExactlyWhen(environment, assignments, c);
    forall a | a in assignments
      ensures Ready(a, c.(force := true))
    {
      assert Ready(a, c);
    }
    ReleasedExactlyWhen(environment, assignments, c.(force := true));
  }

  // ----- In terms of the readings of the clock

  /** What a working set compiles to when the gateways are listed in this order. */
  ghost function Listed<C(!new)>(o: seq<Gateway>, clock: nat -> int, staleAfter: int, environment: string,
                                 assignments: seq<Assignment<C>>, versions: map<string, Registered>, force: bool,
                                 validate: Validator<C>): Result<Outcome<C>, Invalid>
  {
    Compiled(environment, assignments, Context(versions, Live(o, clock, staleAfter), force, validate))
  }

  /** Gateway i was seen at most `staleAfter` seconds before the reading at which it is judged. */
  ghost predicate SeenInTime(gateways: seq<Gateway>, clock: nat -> int, staleAfter: int, i: nat)
    requires i < |gateways|
  {
    clock(i) <= gateways[i].lastSeen + staleAfter * 1_000_000
  }

  lemma {:induction false} LiveElements(gateways: seq<Gateway>, clock: nat -> int, staleAfter: int, g: Gateway)
    ensures g in Live(gateways, clock, staleAfter)
            <==> exists i: nat :: i < |gateways| && gateways[i] == g && SeenInTime(gateways, clock, staleAfter, i)
  {
    if gateways != [] {
      var n := |gateways| - 1;
      LiveElements(gateways[..n], clock, staleAfter, g);
      if i: nat :| i < n && gateways[..n][i] == g && SeenInTime(gateways[..n], clock, staleAfter, i) {
        assert gateways[i] == g && SeenInTime(gateways, clock, staleAfter, i);
      }
      if i: nat :| i < |gateways| && gateways[i] == g && SeenInTime(gateways, clock, staleAfter, i) {
        assert i < n ==> gateways[..n][i] == g && SeenInTime(gateways[..n], clock, staleAfter, i);
      }
    }
  }

  ghost predicate DistinctGateways(gateways: seq<Gateway>) {
    forall i, j :: 0 <= i < j < |gateways| ==> gateways[i].id != gateways[j].id
  }

  /** A gateway under a distinct id counts as live exactly when its reading of the clock is at most `staleAfter`
      seconds after it was seen. */
  lemma LiveExactlyWhen(gateways: seq<Gateway>, clock: nat -> int, staleAfter: int, i: nat)
    requires DistinctGateways(gateways) && i < |gateways|
    ensures gateways[i] in Live(gateways, clock, staleAfter)
            <==> clock(i) <= gateways[i].lastSeen + staleAfter * 1_000_000
  {
    LiveElements(gateways, clock, staleAfter, gateways[i]);
    if j: nat :| j < |gateways| && gateways[j] == gateways[i] && SeenInTime(gateways, clock, staleAfter, j) {
      assert j == i;
    }
    assert SeenInTime(gateways, clock, staleAfter, i) <==> clock(i) <= gateways[i].lastSeen + staleAfter * 1_000_000;
  }

  /** What `Ready` says, without the list of live gateways. */
  ghost predicate Publishable<C>(a: Assignment<C>, versions: map<string, Registered>, gateways: seq<Gateway>,
                                 clock: nat -> int, staleAfter: int, force: bool, validate: Validator<C>)
  {
    var key := a.guardrail + "@" + a.version;
    && key in versions
    && (versions[key].deprecated ==> force)
    && versions[key].manifest.Some?
    && (forall s :: s in a.stages ==> s in versions[key].manifest.value.stages)
    && (a.group.Some? && a.group.value != "" ==> versions[key].manifest.value.parallelSafe)
    && validate(versions[key].manifest.value, a.config) == []
    && (force || forall i: nat :: i < |gateways| && clock(i) <= gateways[i].lastSeen + staleAfter * 1_000_000 ==>
          key in gateways[i].installed)
  }

  lemma PublishableIsReady<C>(a: Assignment<C>, versions: map<string, Registered>, gateways: seq<Gateway>,
                              clock: nat -> int, staleAfter: int, force: bool, validate: Validator<C>)
    ensures Publishable(a, versions, gateways, clock, staleAfter, force, validate)
            <==> Ready(a, Context(versions, Live(gateways, clock, staleAfter), force, validate))
  {
    var live, key := Live(gateways, clock, staleAfter), a.guardrail + "@" + a.version;
    forall i: nat | i < |gateways|
      ensures clock(i) <= gateways[i].lastSeen + staleAfter * 1_000_000 ==> gateways[i] in live
    {
      LiveElements(gateways, clock, staleAfter, gateways[i]);
      assert clock(i) <= gateways[i].lastSeen + staleAfter * 1_000_000 ==> SeenInTime(gateways, clock, staleAfter, i);
    }
    forall g | g in live
      ensures exists i: nat :: i < |gateways| && gateways[i] == g
                               && clock(i) <= gateways[i].lastSeen + staleAfter * 1_000_000
    {
      LiveElements(gateways, clock, staleAfter, g);
      var i: nat :| i < |gateways| && gateways[i] == g && SeenInTime(gateways, clock, staleAfter, i);
      assert gateways[i] == g && clock(i) <= gateways[i].lastSeen + staleAfter * 1_000_000;
    }
  }

  /** What `CompileSnapshot` releases, in terms of its arguments alone: exactly what names a known environment, has
      distinct ids and whose every assignment is publishable at the clock readings of this run. */
  lemma SnapshotReleasedExactlyWhen<C(!new)>(
    environment: string, assignments: seq<Assignment<C>>, versions: map<string, Registered>, gateways: seq<Gateway>,
    force: bool, staleAfter: int, clock: nat -> int, validate: Validator<C>)
    ensures Released(Listed(gateways, clock, staleAfter, environment, assignments, versions, force, validate))
            <==> && (environment == "dev" || environment == "staging" || environment == "production")
                 && (forall i, j :: 0 <= i < j < |assignments| ==> assignments[i].id != assignments[j].id)
                 && (forall a :: a in assignments ==>
                       Publishable(a, versions, gateways, clock, staleAfter, force, validate))
  {
    var c := Context(versions, Live(gateways, clock, staleAfter), force, validate);
    ReleasedExactlyWhen(environment, assignments, c);
    IdsAt(assignments);
    forall a
      ensures Publishable(a, versions, gateways, clock, staleAfter, force, validate) <==> Ready(a, c)
    {
      PublishableIsReady(a, versions, gateways, clock, staleAfter, force, validate);
    }
  }

  lemma {:induction false} IdsAt<C>(s: seq<Assignment<C>>)
    ensures |Ids(s)| == |s| && forall i :: 0 <= i < |s| ==> Ids(s)[i] == s[i].id
  {
    if s != [] {
      IdsAt(s[1..]);
    }
  }

  /** The run warns that no gateway is live exactly when none was seen in time. */
  lemma WarnedExactlyWhenNoneSeen<C(!new)>(
    environment: string, assignments: seq<Assignment<C>>, versions: map<string, Registered>, gateways: seq<Gateway>,
    force: bool, staleAfter: int, clock: nat -> int, validate: Validator<C>, e: string)
    requires Listed(gateways, clock, staleAfter, environment, assignments, versions, force, validate).Ok?
    ensures NoLiveGateway(e) in
              Listed(gateways, clock, staleAfter, environment, assignments, versions, force, validate).value.warnings
            <==> e == environment
                 && forall i: nat :: i < |gateways| ==> clock(i) > gateways[i].lastSeen + staleAfter * 1_000_000
  {
    var live := Live(gateways, clock, staleAfter);
    var c := Context(versions, live, force, validate);
    var ordered := Sort(ByOrder(), assignments);
    Collected(environment, assignments, c);
    FlatElements(ordered, WarningsIn(c), NoLiveGateway(e));
    if live != [] {
      LiveElements(gateways, clock, staleAfter, live[0]);
      var i: nat :| i < |gateways| && gateways[i] == live[0] && SeenInTime(gateways, clock, staleAfter, i);
      assert clock(i) <= gateways[i].lastSeen + staleAfter * 1_000_000;
    } else {
      forall i: nat | i < |gateways|
        ensures clock(i) > gateways[i].lastSeen + staleAfter * 1_000_000
      {
        LiveElements(gateways, clock, staleAfter, gateways[i]);
        assert !SeenInTime(gateways, clock, staleAfter, i);
      }
    }
  }

  // ----- What the messages say

  /** What a message about this assignment says. */
  ghost predicate IsTrue<C>(m: Message, a: Assignment<C>, c: Context<C>) {
    var key := a.guardrail + "@" + a.version;
    match m
    case NotRegistered(id, k) => id == a.id && k == key && key !in c.versions
    case Deprecated(id, k) => id == a.id && k == key && key in c.versions && c.versions[key].deprecated
    case UnsupportedStages(id, k, stages) =>
      && id == a.id && k == key && key in c.versions && c.versions[key].manifest.Some? && stages != []
      && forall s :: s in stages <==> s in a.stages && s !in c.versions[key].manifest.value.stages
    case NotParallelSafe(id, k) =>
      && id == a.id && k == key && key in c.versions && c.versions[key].manifest.Some?
      && a.group.Some? && a.group.value != "" && !c.versions[key].manifest.value.parallelSafe
    case BadConfig(id, text) =>
      && id == a.id && key in c.versions && c.versions[key].manifest.Some?
      && text in c.validate(c.versions[key].manifest.value, a.config)
    case NotInstalled(id, k, gateways) =>
      && id == a.id && k == key && key in c.versions && gateways != [] && Sorted(StringLe, gateways)
      && forall g :: g in gateways <==> exists h :: h in c.live && h.id == g && key !in h.installed
    case NoLiveGateway(_) => false
  }

  lemma UnsupportedAre(stages: seq<string>, supported: seq<string>)
    ensures forall s :: s in Section(stages, NotIn(supported), Same()) <==> s in stages && s !in supported
  {
    forall s
      ensures s in Section(stages, NotIn(supported), Same()) <==> s in stages && s !in supported
    {
      SectionMembership(stages, NotIn(supported), Same(), s);
      assert NotIn(supported)(s) <==> s !in supported;
      assert Same()(s) == s;
    }
  }

  lemma MissingAre(live: seq<Gateway>, key: string)
    ensures Sorted(StringLe, Missing(live, key))
    ensures forall g :: g in Missing(live, key) <==> exists h :: h in live && h.id == g && key !in h.installed
  {
    var picked := Section(live, Lacks(key), GatewayId());
    StringLeIsOrder(picked);
    SortIsSorted(StringLe, picked);
    forall g
      ensures g in Missing(live, key) <==> exists h :: h in live && h.id == g && key !in h.installed
    {
      SortElements(StringLe, picked, g);
      SectionMembership(live, Lacks(key), GatewayId(), g);
      if h :| h in live && Lacks(key)(h) && GatewayId()(h) == g {
        assert h in live && h.id == g && key !in h.installed;
      }
      if h :| h in live && h.id == g && key !in h.installed {
        assert Lacks(key)(h) && GatewayId()(h) == g;
      }
    }
  }

  predicate Softened(m: Message) {
    m.Deprecated? || m.NotInstalled?
  }

  /** Every message about an assignment is true; `force` turns into warnings exactly those on deprecation and
      missing installations. */
  lemma MessagesAreTrue<C>(a: Assignment<C>, c: Context<C>, m: Message)
    requires !Broken(a, c)
    ensures m in ErrorsOf(a, c) ==> IsTrue(m, a, c) && (c.force ==> !Softened(m))
    ensures m in WarningsOf(a, c) ==> IsTrue(m, a, c) && c.force && Softened(m)
  {
    if Key(a) in c.versions {
      var r := c.versions[Key(a)];
      UnsupportedAre(a.stages, r.manifest.value.stages);
      MissingAre(c.live, Key(a));
      assert m in ConfigPart(a, r.manifest.value, c.validate) ==> m.BadConfig? && IsTrue(m, a, c);
      assert m in ManifestPart(a, r.manifest, c.validate) ==> !Softened(m) && IsTrue(m, a, c);
    }
  }

  /** What is to be said about an assignment is said, once for each kind. */
  lemma MessagesAreComplete<C>(a: Assignment<C>, c: Context<C>)
    requires !Broken(a, c)
    ensures var all := ErrorsOf(a, c) + WarningsOf(a, c);
            var key := a.guardrail + "@" + a.version;
            && (key !in c.versions ==> NotRegistered(a.id, key) in all)
            && (key in c.versions ==>
                  var r := c.versions[key];
                  && (r.deprecated ==> Deprecated(a.id, key) in all)
                  && ((exists s :: s in a.stages && s !in r.manifest.value.stages) ==>
                        exists m :: m in all && m.UnsupportedStages?)
                  && (a.group.Some? && a.group.value != "" && !r.manifest.value.parallelSafe ==>
                        NotParallelSafe(a.id, key) in all)
                  && (forall t :: t in c.validate(r.manifest.value, a.config) ==> BadConfig(a.id, t) in all)
                  && ((exists h :: h in c.live && key !in h.installed) ==> exists m :: m in all && m.NotInstalled?))
  {
    var key := Key(a);
    if key in c.versions {
      var r, all := c.versions[key], ErrorsOf(a, c) + WarningsOf(a, c);
      var manifest := r.manifest.value;
      PartsAreSaid(a, c);
      UnsupportedAre(a.stages, manifest.stages);
      MissingAre(c.live, key);
      if s :| s in a.stages && s !in manifest.stages {
        var list := Section(a.stages, NotIn(manifest.stages), Same());
        assert s in list;
        assert UnsupportedStages(a.id, key, list) in StagesPart(a, manifest);
      }
      if h :| h in c.live && key !in h.installed {
        assert h.id in Missing(c.live, key);
        assert NotInstalled(a.id, key, Missing(c.live, key)) in InstalledPart(a, c.live);
      }
      forall t | t in c.validate(manifest, a.config)
        ensures BadConfig(a.id, t) in all
      {
        var texts := c.validate(manifest, a.config);
        var i :| 0 <= i < |texts| && texts[i] == t;
        assert ConfigPart(a, manifest, c.validate)[i] == BadConfig(a.id, t);
      }
    }
  }

  lemma PartsAreSaid<C>(a: Assignment<C>, c: Context<C>)
    requires !Broken(a, c) && Key(a) in c.versions
    ensures var all := ErrorsOf(a, c) + WarningsOf(a, c);
            var r := c.versions[Key(a)];
            && (forall m :: m in DeprecatedPart(a, r) ==> m in all)
            && (forall m :: m in StagesPart(a, r.manifest.value) ==> m in all)
            && (forall m :: m in GroupPart(a, r.manifest.value) ==> m in all)
            && (forall m :: m in ConfigPart(a, r.manifest.value, c.validate) ==> m in all)
            && (forall m :: m in InstalledPart(a, c.live) ==> m in all)
  {
    var r := c.versions[Key(a)];
    var d, m, i := DeprecatedPart(a, r), ManifestPart(a, r.manifest, c.validate), InstalledPart(a, c.live);
    AllIn(StagesPart(a, r.manifest.value), GroupPart(a, r.manifest.value), ConfigPart(a, r.manifest.value, c.validate));
    AllIn(IfNot(c.force, d), m, IfNot(c.force, i));
    AllIn(IfNot(!c.force, d), [], IfNot(!c.force, i));
  }

  lemma AllIn<T>(x: seq<T>, y: seq<T>, z: seq<T>)
    ensures forall m :: m in x + y + z <==> m in x || m in y || m in z
    ensures forall m :: m in x + z <==> m in x || m in z
  {
  }

  // ----- Canonical output

  /** No gateway goes stale, or comes back, while the gateways are being listed: each reading of the clock
      gives the answer that the time `t` gives. */
  ghost predicate Steady(gateways: seq<Gateway>, clock: nat -> int, staleAfter: int, t: int) {
    forall i :: 0 <= i < |gateways| ==>
      (Alive(gateways[i], clock(i), staleAfter) <==> Alive(gateways[i], t, staleAfter))
  }

  function AliveAt(t: int, staleAfter: int): Gateway -> bool {
    (g: Gateway) => Alive(g, t, staleAfter)
  }

  lemma {:induction false} LiveIsSection(gateways: seq<Gateway>, clock: nat -> int, staleAfter: int, t: int)
    requires Steady(gateways, clock, staleAfter, t)
    ensures Live(gateways, clock, staleAfter) == Section(gateways, AliveAt(t, staleAfter), Same())
  {
    if gateways != [] {
      var n := |gateways| - 1;
      LiveIsSection(gateways[..n], clock, staleAfter, t);
      SectionStep(gateways, n, AliveAt(t, staleAfter), Same());
      assert gateways[..n + 1] == gateways;
    }
  }

  lemma MissingIsCanonical(a: seq<Gateway>, b: seq<Gateway>, key: string)
    requires multiset(a) == multiset(b)
    ensures Missing(a, key) == Missing(b, key)
  {
    SectionOfPermutation(a, b, Lacks(key), GatewayId());
    StringLeIsOrder(Section(a, Lacks(key), GatewayId()));
    SortIsCanonical(StringLe, Section(a, Lacks(key), GatewayId()), Section(b, Lacks(key), GatewayId()));
  }

  lemma LiveIsCanonical(a: seq<Gateway>, b: seq<Gateway>, clock: nat -> int, later: nat -> int, staleAfter: int, t: int)
    requires multiset(a) == multiset(b) && Steady(a, clock, staleAfter, t) && Steady(b, later, staleAfter, t)
    ensures multiset(Live(a, clock, staleAfter)) == multiset(Live(b, later, staleAfter))
  {
    LiveIsSection(a, clock, staleAfter, t);
    LiveIsSection(b, later, staleAfter, t);
    SectionOfPermutation(a, b, AliveAt(t, staleAfter), Same());
  }

  lemma GatewayOrderIsIrrelevant<C>(a: Assignment<C>, c: Context<C>, live: seq<Gateway>)
    requires multiset(live) == multiset(c.live)
    ensures ErrorsOf(a, c.(live := live)) == ErrorsOf(a, c)
    ensures WarningsOf(a, c.(live := live)) == WarningsOf(a, c)
  {
    MissingIsCanonical(live, c.live, Key(a));
    assert InstalledPart(a, live) == InstalledPart(a, c.live);
  }

  lemma CompiledForLive<C(!new)>(environment: string, assignments: seq<Assignment<C>>, c: Context<C>,
                                 live: seq<Gateway>)
    requires multiset(live) == multiset(c.live)
    ensures Compiled(environment, assignments, c.(live := live)) == Compiled(environment, assignments, c)
  {
    SameElements(live, c.live);
    var ordered, d := Sort(ByOrder(), assignments), c.(live := live);
    var e, w, otherE, otherW := ErrorsIn(c), WarningsIn(c), ErrorsIn(d), WarningsIn(d);
    forall a
      ensures otherE(a) == e(a) && otherW(a) == w(a)
    {
      GatewayOrderIsIrrelevant(a, c, live);
    }
    assert NoneBroken(ordered, d) == NoneBroken(ordered, c);
    FlatIsPointwise(ordered, otherE, e);
    FlatIsPointwise(ordered, otherW, w);
  }

  /** With distinct ids the document, the errors and the warnings, in their order, are the same for every
      order of the assignments and of the gateways, and for every pair of runs during which no gateway
      crosses the staleness limit. */
  lemma SnapshotIsCanonical<C(!new)>(
    environment: string, assignments: seq<Assignment<C>>, others: seq<Assignment<C>>, versions: map<string, Registered>,
    gateways: seq<Gateway>, relisted: seq<Gateway>, force: bool, staleAfter: int, clock: nat -> int, later: nat -> int,
    validate: Validator<C>, t: int)
    requires multiset(others) == multiset(assignments) && multiset(relisted) == multiset(gateways)
    requires forall a, b :: a in assignments && b in assignments && a.id == b.id ==> a == b
    requires Steady(gateways, clock, staleAfter, t) && Steady(relisted, later, staleAfter, t)
    ensures Compiled(environment, others, Context(versions, Live(relisted, later, staleAfter), force, validate))
         == Compiled(environment, assignments, Context(versions, Live(gateways, clock, staleAfter), force, validate))
  {
    LiveIsCanonical(relisted, gateways, later, clock, staleAfter, t);
    var c := Context(versions, Live(gateways, clock, staleAfter), force, validate);
    CompiledForLive(environment, assignments, c, Live(relisted, later, staleAfter));
    ByOrderIsOrder<C>();
    DistinctIdsDoNotTie(assignments);
    SortIsCanonical(ByOrder(), assignments, others);
  }

  // ----- Exactly when the order of the gateways is irrelevant

  /** Each gateway is judged alike at every reading of the clock. */
  ghost predicate AlwaysSteady(gateways: seq<Gateway>, clock: nat -> int, staleAfter: int) {
    forall g, i: nat, j: nat :: g in gateways && i < |gateways| && j < |gateways| ==>
      (Alive(g, clock(i), staleAfter) <==> Alive(g, clock(j), staleAfter))
  }

  /** Moved to place i, a gateway is live, under its id, exactly when reading i finds it so. */
  lemma LiveAtPlace(gateways: seq<Gateway>, k: nat, i: nat, clock: nat -> int, staleAfter: int)
    requires DistinctGateways(gateways) && k < |gateways| && i < |gateways|
    ensures (exists g :: g in Live(Moved(gateways, k, i), clock, staleAfter) && g.id == gateways[k].id)
            <==> Alive(gateways[k], clock(i), staleAfter)
  {
    var o, g := Moved(gateways, k, i), gateways[k];
    MovedIsPermutation(gateways, k, i);
    forall x: nat | x < |o| && o[x].id == g.id
      ensures x == i
    {
      OnlyPlace(gateways, k, i, x);
    }
    LiveElements(o, clock, staleAfter, g);
    assert SeenInTime(o, clock, staleAfter, i) <==> Alive(g, clock(i), staleAfter);
    if h :| h in Live(o, clock, staleAfter) && h.id == g.id {
      LiveElements(o, clock, staleAfter, h);
    }
  }

  lemma OnlyPlace(gateways: seq<Gateway>, k: nat, i: nat, x: nat)
    requires DistinctGateways(gateways) && k < |gateways| && i < |gateways| && x < |gateways|
    requires |Moved(gateways, k, i)| == |gateways| && Moved(gateways, k, i)[x].id == gateways[k].id
    ensures x == i
  {
    var rest := Without(gateways, k);
    forall y | 0 <= y < |rest|
      ensures rest[y].id != gateways[k].id
    {
      assert rest[y] == gateways[if y < k then y else y + 1];
    }
  }

  lemma SteadyInAnyOrder(gateways: seq<Gateway>, o: seq<Gateway>, clock: nat -> int, staleAfter: int)
    requires AlwaysSteady(gateways, clock, staleAfter) && multiset(o) == multiset(gateways)
    ensures Steady(o, clock, staleAfter, clock(0))
  {
    SameElements(o, gateways);
    forall i | 0 <= i < |o|
      ensures Alive(o[i], clock(i), staleAfter) <==> Alive(o[i], clock(0), staleAfter)
    {
      assert o[i] in gateways;
    }
  }

  /** Every working set compiles alike for every order of the gateways. */
  ghost predicate GatewayOrderIrrelevant<C(!new)>(gateways: seq<Gateway>, clock: nat -> int, staleAfter: int) {
    forall o: seq<Gateway>, environment: string, assignments: seq<Assignment<C>>, versions: map<string, Registered>,
           force: bool, validate: Validator<C> ::
      multiset(o) == multiset(gateways) ==>
        Listed(o, clock, staleAfter, environment, assignments, versions, force, validate)
        == Listed(gateways, clock, staleAfter, environment, assignments, versions, force, validate)
  }

  // A working set that shows which gateways are live: one assignment whose guardrail is installed nowhere.

  function Installed(): Gateway -> seq<string> { (g: Gateway) => g.installed }

  function Longer(strings: seq<string>): (s: string)
    ensures forall x :: x in strings ==> |x| < |s|
  {
    if strings == [] then "x"
    else
      var rest := Longer(strings[1..]);
      assert forall x :: x in strings ==> x == strings[0] || x in strings[1..];
      if |rest| > |strings[0]| then rest else strings[0] + "x"
  }

  function Probe<C>(guardrail: string, config: C): Assignment<C> {
    Assignment("probe", guardrail, "1", ["input"], 0, None, config)
  }

  function ProbeVersions(guardrail: string): map<string, Registered> {
    map[guardrail + "@" + "1" := Registered(false, Some(Manifest(["input"], true, "")))]
  }

  function Accept<C>(): Validator<C> { (m: Manifest, config: C) => [] }

  lemma OneId<C>(a: Assignment<C>)
    ensures NoDuplicates(Ids([a]))
  {
    assert [a][1..] == [];
    assert Section([a], Any(), Id()) == [Id()(a)] + Section([a][1..], Any(), Id());
  }

  /** Compiling the probe reports exactly the live gateways it is missing on. */
  lemma ProbeFindsMissing<C(!new)>(guardrail: string, config: C, live: seq<Gateway>)
    ensures var probe := Probe(guardrail, config);
            var r := Compiled("dev", [probe], Context(ProbeVersions(guardrail), live, false, Accept()));
            && r.Ok? && r.value.errors == InstalledPart(probe, live)
            && (r.value.errors != [] ==> r == Ok(Outcome(None, InstalledPart(probe, live), NobodyLive("dev", live))))
  {
    var probe := Probe(guardrail, config);
    var c := Context(ProbeVersions(guardrail), live, false, Accept<C>());
    assert Sort(ByOrder(), [probe]) == [probe];
    NothingUnsupported(["input"], ["input"]);
    assert ManifestPart(probe, c.versions[Key(probe)].manifest, c.validate) == [];
    assert ErrorsOf(probe, c) == InstalledPart(probe, live) && WarningsOf(probe, c) == [];
    assert [probe][..0] == [];
    assert Flat([probe], ErrorsIn(c)) == Flat([], ErrorsIn(c)) + ErrorsIn(c)(probe);
    assert Flat([probe], WarningsIn(c)) == Flat([], WarningsIn(c)) + WarningsIn(c)(probe);
    OneId(probe);
  }

  /** The probe is missing on exactly the live gateways. */
  lemma MissingEverywhere(live: seq<Gateway>, key: string, id: string)
    requires forall g :: g in live ==> key !in g.installed
    ensures id in Missing(live, key) <==> exists g :: g in live && g.id == id
  {
    var picked := Section(live, Lacks(key), GatewayId());
    SortElements(StringLe, picked, id);
    SectionMembership(live, Lacks(key), GatewayId(), id);
    assert forall g: Gateway :: Lacks(key)(g) <==> key !in g.installed;
  }

  lemma NowhereInstalled(gateways: seq<Gateway>, o: seq<Gateway>, clock: nat -> int, staleAfter: int, key: string)
    requires multiset(o) == multiset(gateways) && forall x :: x in Flat(gateways, Installed()) ==> |x| < |key|
    ensures forall g :: g in Live(o, clock, staleAfter) ==> key !in g.installed
  {
    SameElements(o, gateways);
    forall g | g in Live(o, clock, staleAfter)
      ensures key !in g.installed
    {
      LiveElements(o, clock, staleAfter, g);
      FlatElements(gateways, Installed(), key);
      assert g in gateways && Installed()(g) == g.installed;
    }
  }

  lemma ProbesAgree<C(!new)>(gateways: seq<Gateway>, o: seq<Gateway>, clock: nat -> int, staleAfter: int,
                             guardrail: string, config: C)
    requires GatewayOrderIrrelevant<C>(gateways, clock, staleAfter) && multiset(o) == multiset(gateways)
    ensures var key := Key(Probe(guardrail, config));
            Missing(Live(o, clock, staleAfter), key) == Missing(Live(gateways, clock, staleAfter), key)
  {
    var probe, versions := Probe(guardrail, config), ProbeVersions(guardrail);
    assert Listed(o, clock, staleAfter, "dev", [probe], versions, false, Accept())
        == Listed(gateways, clock, staleAfter, "dev", [probe], versions, false, Accept());
    ProbeFindsMissing(guardrail, config, Live(o, clock, staleAfter));
    ProbeFindsMissing(guardrail, config, Live(gateways, clock, staleAfter));
    assert InstalledPart(probe, Live(o, clock, staleAfter)) == InstalledPart(probe, Live(gateways, clock, staleAfter));
  }

  /** If the outcome does not depend on the order, neither does whether a gateway counts as live. */
  lemma IrrelevantIsSteady<C(!new)>(gateways: seq<Gateway>, clock: nat -> int, staleAfter: int, config: C, k: nat,
                                    i: nat)
    requires DistinctGateways(gateways) && GatewayOrderIrrelevant<C>(gateways, clock, staleAfter)
    requires k < |gateways| && i < |gateways|
    ensures var key := Key(Probe(Longer(Flat(gateways, Installed())), config));
            Alive(gateways[k], clock(i), staleAfter)
            <==> gateways[k].id in Missing(Live(gateways, clock, staleAfter), key)
  {
    var guardrail := Longer(Flat(gateways, Installed()));
    var o, key := Moved(gateways, k, i), Key(Probe(guardrail, config));
    MovedIsPermutation(gateways, k, i);
    ProbesAgree(gateways, o, clock, staleAfter, guardrail, config);
    NowhereInstalled(gateways, o, clock, staleAfter, key);
    MissingEverywhere(Live(o, clock, staleAfter), key, gateways[k].id);
    LiveAtPlace(gateways, k, i, clock, staleAfter);
  }

  /** The outcome of every working set is the same for every order of the gateways exactly when no gateway is
      judged differently at two readings of the clock. Under a clock that does not go back, comparing the first
      and the last reading decides that. */
  lemma GatewayOrderIrrelevantExactlyWhen<C(!new)>(gateways: seq<Gateway>, clock: nat -> int, staleAfter: int,
                                                   config: C)
    requires DistinctGateways(gateways)
    ensures GatewayOrderIrrelevant<C>(gateways, clock, staleAfter) <==> AlwaysSteady(gateways, clock, staleAfter)
  {
    if AlwaysSteady(gateways, clock, staleAfter) {
      forall o: seq<Gateway>, environment: string, assignments: seq<Assignment<C>>, versions: map<string, Registered>,
             force: bool, validate: Validator<C> | multiset(o) == multiset(gateways)
        ensures Listed(o, clock, staleAfter, environment, assignments, versions, force, validate)
             == Listed(gateways, clock, staleAfter, environment, assignments, versions, force, validate)
      {
        SteadyInAnyOrder(gateways, o, clock, staleAfter);
        SteadyInAnyOrder(gateways, gateways, clock, staleAfter);
        LiveIsCanonical(o, gateways, clock, clock, staleAfter, clock(0));
        var c := Context(versions, Live(gateways, clock, staleAfter), force, validate);
        CompiledForLive(environment, assignments, c, Live(o, clock, staleAfter));
      }
    }
    if GatewayOrderIrrelevant<C>(gateways, clock, staleAfter) {
      forall g, i: nat, j: nat | g in gateways && i < |gateways| && j < |gateways|
        ensures Alive(g, clock(i), staleAfter) <==> Alive(g, clock(j), staleAfter)
      {
        var k :| 0 <= k < |gateways| && gateways[k] == g;
        IrrelevantIsSteady(gateways, clock, staleAfter, config, k, i);
        IrrelevantIsSteady(gateways, clock, staleAfter, config, k, j);
      }
    }
  }

  ghost predicate Forward(clock: nat -> int) {
    forall i: nat, j: nat :: i <= j ==> clock(i) <= clock(j)
  }

  /** So a caller can tell: under a clock that does not go back it is enough that no gateway alive at the first
      reading is stale at the last. */
  lemma FirstAndLastReadingDecide(gateways: seq<Gateway>, clock: nat -> int, staleAfter: int)
    requires gateways != [] && Forward(clock)
    ensures AlwaysSteady(gateways, clock, staleAfter)
            <==> forall g :: g in gateways && Alive(g, clock(0), staleAfter) ==>
              Alive(g, clock(|gateways| - 1), staleAfter)
  {
    var n := |gateways|;
    if forall g :: g in gateways && Alive(g, clock(0), staleAfter) ==> Alive(g, clock(n - 1), staleAfter) {
      forall g, i: nat, j: nat | g in gateways && i < n && j < n
        ensures Alive(g, clock(i), staleAfter) <==> Alive(g, clock(j), staleAfter)
      {
        assert clock(0) <= clock(i) <= clock(n - 1) && clock(0) <= clock(j) <= clock(n - 1);
      }
    }
  }

  function Ticking(): nat -> int { (i: nat) => 1_000_000 + i }

  const G := Gateway("g", [], 0)
  const H := Gateway("h", [], 1_000_000)

  lemma LiveStep(before: seq<Gateway>, g: Gateway, clock: nat -> int, staleAfter: int)
    ensures Live(before + [g], clock, staleAfter)
         == Live(before, clock, staleAfter) + (if Alive(g, clock(|before|), staleAfter) then [g] else [])
  {
    assert (before + [g])[..|before|] == before;
  }

  lemma LiveOfTwo()
    ensures Live([G, H], Ticking(), 1) == [G, H] && Live([H, G], Ticking(), 1) == [H]
  {
    LiveStep([], G, Ticking(), 1);
    LiveStep([], H, Ticking(), 1);
    assert [] + [G] == [G] && [] + [H] == [H];
    LiveStep([G], H, Ticking(), 1);
    LiveStep([H], G, Ticking(), 1);
    assert [G] + [H] == [G, H] && [H] + [G] == [H, G];
  }

  lemma MissingOnTwo(key: string)
    ensures Missing([G, H], key) == ["g", "h"] && Missing([H], key) == ["h"]
  {
    assert [G, H][1..] == [H] && [H][1..] == [];
    assert Section([H], Lacks(key), GatewayId()) == ["h"];
    assert Section([G, H], Lacks(key), GatewayId()) == ["g", "h"];
    assert ["g", "h"][1..] == ["h"] && ["h"][1..] == [];
    assert Sort(StringLe, ["h"]) == ["h"];
    assert StringLe("g", "h");
  }

  /** It happens: gateway G goes stale between the two readings, so it counts only when it is listed first, and
      the errors differ. */
  lemma ClockCanShow()
    ensures var a, versions := Probe("pii", 0), ProbeVersions("pii");
            && Forward(Ticking()) && multiset([G, H]) == multiset([H, G])
            && Listed([G, H], Ticking(), 1, "dev", [a], versions, false, Accept())
               == Ok(Outcome(None, [NotInstalled("probe", "pii@1", ["g", "h"])], []))
            && Listed([H, G], Ticking(), 1, "dev", [a], versions, false, Accept())
               == Ok(Outcome(None, [NotInstalled("probe", "pii@1", ["h"])], []))
  {
    LiveOfTwo();
    assert Key(Probe("pii", 0)) == "pii@1";
    MissingOnTwo("pii@1");
    ProbeFindsMissing("pii", 0, [G, H]);
    ProbeFindsMissing("pii", 0, [H]);
  }
}
