/** The catalog document that gateways load (`build_catalog` in
    services/guardrail-control-plane/app/domain/compiler.py). Times are whole microseconds. */
module Catalog {
  import opened Wrappers
  import opened OrderedDict
  import opened Sorting
  import opened Selection

  // ----- Stored records

  datatype Tenant = Tenant(id: string, name: string, status: string, created: int, dataClasses: seq<string>)

  datatype ApiKey = ApiKey(
    id: string, tenant: string, name: string, keyHash: string, prefix: string, scopes: seq<string>,
    environments: Option<seq<string>>, active: bool, expires: Option<int>, rateLimit: Option<int>,
    agent: Option<string>)

  datatype Agent = Agent(tenant: string, agent: string, trust: int, tools: seq<string>, owner: Option<string>)

  datatype Action = Action(id: string, tenant: string, action: string, pattern: string, score: int)

  datatype Modifier = Modifier(id: string, tenant: string, kind: string, value: string, delta: int)

  datatype Records = Records(tenants: seq<Tenant>, keys: seq<ApiKey>, agents: seq<Agent>, actions: seq<Action>,
                             modifiers: seq<Modifier>)

  /** What the inventory says about one tenant: the open findings of its agents, and its flagged tools. */
  datatype Flags = Flags(findings: map<string, seq<string>>, tools: seq<string>)

  // ----- The published document

  datatype KeyEntry = KeyEntry(
    id: string, name: string, keyHash: string, scopes: seq<string>, environments: Option<seq<string>>,
    expires: Option<int>, rateLimit: Option<int>, agent: Option<string>)

  datatype AgentEntry = AgentEntry(agent: string, trust: int, tools: seq<string>, findings: seq<string>)

  datatype ActionEntry = ActionEntry(action: string, pattern: string, score: int)

  datatype ModifierEntry = ModifierEntry(kind: string, value: string, delta: int)

  datatype Head = Head(id: string, name: string, status: string, dataClasses: seq<string>)

  datatype TenantDoc = TenantDoc(head: Head, keys: seq<KeyEntry>, agents: seq<AgentEntry>, actions: seq<ActionEntry>,
                                 modifiers: seq<ModifierEntry>, flaggedTools: seq<string>)

  // ----- sorted(set(...))

  function Distinct(s: seq<string>): seq<string> {
    if s == [] then []
    else
      var rest := Distinct(s[1..]);
      if s[0] in rest then rest else [s[0]] + rest
  }

  function SortedSet(s: seq<string>): seq<string> {
    Sort(StringLe, Distinct(s))
  }

  lemma {:induction false} DistinctElements(s: seq<string>)
    ensures NoDuplicates(Distinct(s))
    ensures forall x :: x in Distinct(s) <==> x in s
  {
    if s != [] {
      DistinctElements(s[1..]);
      assert forall x :: x in s <==> x == s[0] || x in s[1..];
    }
  }

  lemma SameSetSameBag(a: seq<string>, b: seq<string>)
    requires NoDuplicates(a) && NoDuplicates(b) && forall x :: x in a <==> x in b
    ensures multiset(a) == multiset(b)
  {
    forall x
      ensures multiset(a)[x] == multiset(b)[x]
    {
      OncePerElement(a, x);
      OncePerElement(b, x);
    }
  }

  /** Whatever the order in which a set of strings is listed, sorting it gives the one sorted list. */
  lemma SortedSetIsCanonical(s: seq<string>, listed: seq<string>)
    requires NoDuplicates(listed) && forall x :: x in listed <==> x in s
    ensures Sort(StringLe, listed) == SortedSet(s)
  {
    DistinctElements(s);
    SameSetSameBag(listed, Distinct(s));
    StringLeIsOrder(listed);
    SortIsCanonical(StringLe, listed, Distinct(s));
  }

  // ----- What is wanted, how it is rendered, and by what it is sorted

  predicate Usable(k: ApiKey, now: int) {
    k.active && (k.expires.None? || k.expires.value > now)
  }

  /** The pattern that a published key hash has to match. */
  predicate HexHash(s: string) {
    |s| == 64 && forall i :: 0 <= i < |s| ==> '0' <= s[i] <= '9' || 'a' <= s[i] <= 'f'
  }

  function WantedKey(tenant: string, now: int): ApiKey -> bool {
    (k: ApiKey) => Usable(k, now) && k.tenant == tenant
  }

  function WantedAgent(tenant: string): Agent -> bool {
    (a: Agent) => a.tenant == tenant
  }

  function WantedAction(tenant: string): Action -> bool {
    (r: Action) => r.tenant == tenant
  }

  function WantedModifier(tenant: string): Modifier -> bool {
    (m: Modifier) => m.tenant == tenant
  }

  function RenderKey(k: ApiKey): KeyEntry {
    KeyEntry(k.id, k.name, k.keyHash, k.scopes, k.environments, k.expires, k.rateLimit, k.agent)
  }

  function Findings(inventory: map<string, Flags>, tenant: string, agent: string): seq<string> {
    if tenant in inventory then
      var findings := inventory[tenant].findings;
      SortedSet(if agent in findings then findings[agent] else [])
    else []
  }

  function RenderAgent(inventory: map<string, Flags>): Agent -> AgentEntry {
    (a: Agent) => AgentEntry(a.agent, a.trust, a.tools, Findings(inventory, a.tenant, a.agent))
  }

  function RenderAction(r: Action): ActionEntry {
    ActionEntry(r.action, r.pattern, r.score)
  }

  function RenderModifier(m: Modifier): ModifierEntry {
    ModifierEntry(m.kind, m.value, m.delta)
  }

  function RenderTenant(t: Tenant): Head {
    Head(t.id, t.name, t.status, t.dataClasses)
  }

  function TenantKey(t: Tenant): seq<string> { [t.id] }

  function KeyKey(k: ApiKey): seq<string> { [k.id] }

  function AgentKey(a: Agent): seq<string> { [a.tenant, a.agent] }

  function ActionKey(r: Action): seq<string> { [r.tenant, r.action, r.pattern] }

  function ModifierKey(m: Modifier): seq<string> { [m.tenant, m.kind, m.value] }

  function FlaggedTools(inventory: map<string, Flags>, tenant: string): seq<string> {
    if tenant in inventory && inventory[tenant].tools != [] then SortedSet(inventory[tenant].tools) else []
  }

  // ----- The document as a function of the records

  function Pairs(tenants: seq<Tenant>): seq<(string, Head)> {
    seq(|tenants|, i requires 0 <= i < |tenants| => (tenants[i].id, RenderTenant(tenants[i])))
  }

  /** The tenants by id, in the order of their ids; for a repeated id the last one. */
  function Heads(tenants: seq<Tenant>): Dict<Head> {
    FromPairs(Pairs(Sort(ByKey(TenantKey), tenants)))
  }

  function DocOf(head: Head, tenant: string, r: Records, inventory: map<string, Flags>, now: int): TenantDoc {
    TenantDoc(head,
              Published(r.keys, WantedKey(tenant, now), RenderKey, KeyKey),
              Published(r.agents, WantedAgent(tenant), RenderAgent(inventory), AgentKey),
              Published(r.actions, WantedAction(tenant), RenderAction, ActionKey),
              Published(r.modifiers, WantedModifier(tenant), RenderModifier, ModifierKey),
              FlaggedTools(inventory, tenant))
  }

  function Compiled(r: Records, inventory: map<string, Flags>, now: int): seq<TenantDoc> {
    var heads := Heads(r.tenants);
    HeadsAreValid(r.tenants);
    seq(|heads.keys|, i requires 0 <= i < |heads.keys| && heads.keys[i] in heads.values =>
      DocOf(heads.values[heads.keys[i]], heads.keys[i], r, inventory, now))
  }

  lemma HeadsAreValid(tenants: seq<Tenant>)
    ensures Valid(Heads(tenants))
    ensures forall i :: 0 <= i < |Heads(tenants).keys| ==> Heads(tenants).keys[i] in Heads(tenants).values
  {
    FromPairsValid(Pairs(Sort(ByKey(TenantKey), tenants)));
    var heads := Heads(tenants);
    forall i | 0 <= i < |heads.keys|
      ensures heads.keys[i] in heads.values
    {
      assert heads.keys[i] in heads.keys;
    }
  }

  function FirstEight(s: string): string {
    if |s| <= 8 then s else s[..8]
  }

  function Version(tenants: seq<TenantDoc>, now: int, stamp: int -> string, digest: seq<TenantDoc> -> string): string {
    "catalog-" + stamp(now) + "-" + FirstEight(digest(tenants))
  }

  // ----- Building it in place

  class CatalogTenant {
    const head: Head
    var keys: seq<KeyEntry>
    var agents: seq<AgentEntry>
    var actions: seq<ActionEntry>
    var modifiers: seq<ModifierEntry>
    var flaggedTools: seq<string>

    constructor (head: Head)
      ensures this.head == head && keys == [] && agents == [] && actions == [] && modifiers == [] && flaggedTools == []
    {
      this.head := head;
      keys, agents, actions, modifiers, flaggedTools := [], [], [], [], [];
    }

    function Doc(): TenantDoc
      reads this
    {
      TenantDoc(head, keys, agents, actions, modifiers, flaggedTools)
    }
  }

  type Index = map<string, CatalogTenant>

  /** Each tenant object is filed under its own id, so no two ids share an object. */
  ghost predicate Filed(byTenant: Index) {
    forall id :: id in byTenant ==> byTenant[id].head.id == id
  }

  predicate Bare(t: CatalogTenant)
    reads t
  {
    t.keys == [] && t.agents == [] && t.actions == [] && t.modifiers == [] && t.flaggedTools == []
  }

  /** The tenant objects as they are created: nothing but their heads. */
  ghost predicate Created(byTenant: Dict<CatalogTenant>, heads: Dict<Head>)
    reads byTenant.values.Values
  {
    && byTenant.keys == heads.keys && byTenant.values.Keys == heads.values.Keys
    && forall id :: id in byTenant.values ==> byTenant.values[id].head == heads.values[id] && Bare(byTenant.values[id])
  }

  method CreateTenant(byTenant: Dict<CatalogTenant>, head: Head, ghost heads: Dict<Head>)
      returns (more: Dict<CatalogTenant>)
    requires Filed(byTenant.values) && Created(byTenant, heads)
    ensures Filed(more.values) && Created(more, Set(heads, head.id, head))
    ensures forall id :: id in more.values ==>
      fresh(more.values[id]) || (id in byTenant.values && more.values[id] == byTenant.values[id])
  {
    var t := new CatalogTenant(head);
    more := Set(byTenant, head.id, t);
  }

  method CreateTenants(sorted: seq<Tenant>) returns (byTenant: Dict<CatalogTenant>)
    ensures Filed(byTenant.values) && Created(byTenant, FromPairs(Pairs(sorted)))
    ensures forall id :: id in byTenant.values ==> fresh(byTenant.values[id])
  {
    byTenant := Empty();
    ghost var pairs, heads := Pairs(sorted), Empty();
    for i := 0 to |sorted|
      invariant heads == FromPairs(pairs[..i])
      invariant Filed(byTenant.values) && Created(byTenant, heads)
      invariant forall id :: id in byTenant.values ==> fresh(byTenant.values[id])
    {
      FromPairsStep(pairs, i);
      byTenant := CreateTenant(byTenant, RenderTenant(sorted[i]), heads);
      heads := Set(heads, pairs[i].0, pairs[i].1);
    }
    assert pairs[..|sorted|] == pairs;
  }

  /** Keys that are usable and belong to a tenant of the catalog, up to n, have a hash that can be published. */
  predicate HashesFit(sorted: seq<ApiKey>, n: nat, tenants: set<string>, now: int)
    requires n <= |sorted|
  {
    forall i :: 0 <= i < n && Usable(sorted[i], now) && sorted[i].tenant in tenants ==> HexHash(sorted[i].keyHash)
  }

  /** Raises at the first key whose hash cannot be published. */
  method AddKeys(byTenant: Index, sorted: seq<ApiKey>, now: int) returns (ok: bool)
    requires Filed(byTenant) && forall id :: id in byTenant ==> byTenant[id].keys == []
    modifies byTenant.Values`keys
    ensures ok == HashesFit(sorted, |sorted|, byTenant.Keys, now)
    ensures ok ==> forall id :: id in byTenant ==> byTenant[id].keys == Section(sorted, WantedKey(id, now), RenderKey)
  {
    for i := 0 to |sorted|
      invariant HashesFit(sorted, i, byTenant.Keys, now)
      invariant forall id :: id in byTenant ==> byTenant[id].keys == Section(sorted[..i], WantedKey(id, now), RenderKey)
    {
      var k := sorted[i];
      forall id | id in byTenant
        ensures Section(sorted[..i + 1], WantedKey(id, now), RenderKey)
             == Section(sorted[..i], WantedKey(id, now), RenderKey)
                + (if WantedKey(id, now)(k) then [RenderKey(k)] else [])
      {
        SectionStep(sorted, i, WantedKey(id, now), RenderKey);
      }
      if k.active && (k.expires.None? || k.expires.value > now) && k.tenant in byTenant {
        if !HexHash(k.keyHash) {
          return false;
        }
        byTenant[k.tenant].keys := byTenant[k.tenant].keys + [RenderKey(k)];
      }
    }
    assert sorted[..|sorted|] == sorted;
    return true;
  }

  method AddAgents(byTenant: Index, sorted: seq<Agent>, inventory: map<string, Flags>)
    requires Filed(byTenant) && forall id :: id in byTenant ==> byTenant[id].agents == []
    modifies byTenant.Values`agents
    ensures forall id :: id in byTenant ==>
      byTenant[id].agents == Section(sorted, WantedAgent(id), RenderAgent(inventory))
  {
    for i := 0 to |sorted|
      invariant forall id :: id in byTenant ==>
        byTenant[id].agents == Section(sorted[..i], WantedAgent(id), RenderAgent(inventory))
    {
      var a := sorted[i];
      forall id | id in byTenant
        ensures Section(sorted[..i + 1], WantedAgent(id), RenderAgent(inventory))
             == Section(sorted[..i], WantedAgent(id), RenderAgent(inventory))
                + (if WantedAgent(id)(a) then [RenderAgent(inventory)(a)] else [])
      {
        SectionStep(sorted, i, WantedAgent(id), RenderAgent(inventory));
      }
      if a.tenant in byTenant {
        var entry := AgentEntry(a.agent, a.trust, a.tools, Findings(inventory, a.tenant, a.agent));
        byTenant[a.tenant].agents := byTenant[a.tenant].agents + [entry];
      }
    }
    assert sorted[..|sorted|] == sorted;
  }

  method AddActions(byTenant: Index, sorted: seq<Action>)
    requires Filed(byTenant) && forall id :: id in byTenant ==> byTenant[id].actions == []
    modifies byTenant.Values`actions
    ensures forall id :: id in byTenant ==> byTenant[id].actions == Section(sorted, WantedAction(id), RenderAction)
  {
    for i := 0 to |sorted|
      invariant forall id :: id in byTenant ==>
        byTenant[id].actions == Section(sorted[..i], WantedAction(id), RenderAction)
    {
      var r := sorted[i];
      forall id | id in byTenant
        ensures Section(sorted[..i + 1], WantedAction(id), RenderAction)
             == Section(sorted[..i], WantedAction(id), RenderAction)
                + (if WantedAction(id)(r) then [RenderAction(r)] else [])
      {
        SectionStep(sorted, i, WantedAction(id), RenderAction);
      }
      if r.tenant in byTenant {
        byTenant[r.tenant].actions := byTenant[r.tenant].actions + [RenderAction(r)];
      }
    }
    assert sorted[..|sorted|] == sorted;
  }

  method AddModifiers(byTenant: Index, sorted: seq<Modifier>)
    requires Filed(byTenant) && forall id :: id in byTenant ==> byTenant[id].modifiers == []
    modifies byTenant.Values`modifiers
    ensures forall id :: id in byTenant ==>
      byTenant[id].modifiers == Section(sorted, WantedModifier(id), RenderModifier)
  {
    for i := 0 to |sorted|
      invariant forall id :: id in byTenant ==>
        byTenant[id].modifiers == Section(sorted[..i], WantedModifier(id), RenderModifier)
    {
      var m := sorted[i];
      forall id | id in byTenant
        ensures Section(sorted[..i + 1], WantedModifier(id), RenderModifier)
             == Section(sorted[..i], WantedModifier(id), RenderModifier)
                + (if WantedModifier(id)(m) then [RenderModifier(m)] else [])
      {
        SectionStep(sorted, i, WantedModifier(id), RenderModifier);
      }
      if m.tenant in byTenant {
        byTenant[m.tenant].modifiers := byTenant[m.tenant].modifiers + [RenderModifier(m)];
      }
    }
    assert sorted[..|sorted|] == sorted;
  }

  method AddFlaggedTools(byTenant: Index, inventory: Dict<Flags>)
    requires Filed(byTenant) && Valid(inventory) && forall id :: id in byTenant ==> byTenant[id].flaggedTools == []
    modifies byTenant.Values`flaggedTools
    ensures forall id :: id in byTenant ==> byTenant[id].flaggedTools == FlaggedTools(inventory.values, id)
  {
    for i := 0 to |inventory.keys|
      invariant forall id :: id in byTenant ==>
        byTenant[id].flaggedTools == if id in inventory.keys[..i] then FlaggedTools(inventory.values, id) else []
    {
      var id := inventory.keys[i];
      assert inventory.keys[..i + 1] == inventory.keys[..i] + [id];
      if id in byTenant && inventory.values[id].tools != [] {
        byTenant[id].flaggedTools := SortedSet(inventory.values[id].tools);
      }
    }
    assert inventory.keys[..|inventory.keys|] == inventory.keys;
  }

  function Docs(tenants: seq<CatalogTenant>): seq<TenantDoc>
    reads tenants
  {
    seq(|tenants|, i requires 0 <= i < |tenants| reads tenants => tenants[i].Doc())
  }

  /** The tenant object holds what the records say about it. */
  ghost predicate Filled(t: CatalogTenant, id: string, r: Records, inventory: map<string, Flags>, now: int)
    reads t
  {
    t.Doc() == DocOf(t.head, id, r, inventory, now)
  }

  /** Everything but the keys. */
  ghost predicate FilledBesidesKeys(t: CatalogTenant, id: string, r: Records, inventory: map<string, Flags>)
    reads t
  {
    && t.agents == Published(r.agents, WantedAgent(id), RenderAgent(inventory), AgentKey)
    && t.actions == Published(r.actions, WantedAction(id), RenderAction, ActionKey)
    && t.modifiers == Published(r.modifiers, WantedModifier(id), RenderModifier, ModifierKey)
    && t.flaggedTools == FlaggedTools(inventory, id)
  }

  method AddRecords(byTenant: Index, r: Records, inventory: Dict<Flags>)
    requires Filed(byTenant) && Valid(inventory)
    requires forall id :: id in byTenant ==>
      var t := byTenant[id]; t.agents == [] && t.actions == [] && t.modifiers == [] && t.flaggedTools == []
    modifies byTenant.Values`agents, byTenant.Values`actions, byTenant.Values`modifiers, byTenant.Values`flaggedTools
    ensures forall id :: id in byTenant ==> FilledBesidesKeys(byTenant[id], id, r, inventory.values)
  {
    AddAgents(byTenant, Sort(ByKey(AgentKey), r.agents), inventory.values);
    AddActions(byTenant, Sort(ByKey(ActionKey), r.actions));
    AddModifiers(byTenant, Sort(ByKey(ModifierKey), r.modifiers));
    AddFlaggedTools(byTenant, inventory);
  }

  method FillTenants(byTenant: Index, r: Records, inventory: Dict<Flags>, now: int) returns (ok: bool)
    requires Filed(byTenant) && Valid(inventory)
    requires forall id :: id in byTenant ==> Bare(byTenant[id])
    modifies byTenant.Values
    ensures ok == HashesFit(Sort(ByKey(KeyKey), r.keys), |Sort(ByKey(KeyKey), r.keys)|, byTenant.Keys, now)
    ensures ok ==> forall id :: id in byTenant ==> Filled(byTenant[id], id, r, inventory.values, now)
  {
    ok := AddKeys(byTenant, Sort(ByKey(KeyKey), r.keys), now);
    if ok {
      AddRecords(byTenant, r, inventory);
    }
  }

  /** Some usable key of a stored tenant has a hash that cannot be published. */
  ghost predicate Rejected(r: Records, now: int) {
    exists k :: k in r.keys && Usable(k, now) && Known(r, k.tenant) && !HexHash(k.keyHash)
  }

  lemma RejectedExactlyWhen(r: Records, now: int, sorted: seq<ApiKey>)
    requires sorted == Sort(ByKey(KeyKey), r.keys)
    ensures HashesFit(sorted, |sorted|, Heads(r.tenants).values.Keys, now) <==> !Rejected(r, now)
  {
    forall k
      ensures k in sorted <==> k in r.keys
      ensures k.tenant in Heads(r.tenants).values <==> Known(r, k.tenant)
    {
      SortElements(ByKey(KeyKey), r.keys, k);
      HeadsAreTenants(r, k.tenant);
    }
    assert forall i :: 0 <= i < |sorted| ==> sorted[i] in sorted;
  }

  lemma FilledIsCompiled(byTenant: Dict<CatalogTenant>, tenants: seq<CatalogTenant>, r: Records,
                         inventory: map<string, Flags>, now: int)
    requires byTenant.keys == Heads(r.tenants).keys && byTenant.values.Keys == Heads(r.tenants).values.Keys
    requires forall id :: id in byTenant.values ==>
      && byTenant.values[id].head == Heads(r.tenants).values[id]
      && Filled(byTenant.values[id], id, r, inventory, now)
    requires |tenants| == |byTenant.keys|
    requires forall i :: 0 <= i < |tenants| ==>
      byTenant.keys[i] in byTenant.values && tenants[i] == byTenant.values[byTenant.keys[i]]
    ensures Docs(tenants) == Compiled(r, inventory, now)
  {
    forall i | 0 <= i < |tenants|
      ensures Docs(tenants)[i] == Compiled(r, inventory, now)[i]
    {
      assert Filled(tenants[i], byTenant.keys[i], r, inventory, now);
    }
  }

  /** The catalog with its version, or nothing if a key hash is refused. */
  method BuildCatalog(r: Records, given: Option<Dict<Flags>>, now: int, stamp: int -> string,
                      digest: seq<TenantDoc> -> string) returns (built: Option<(string, seq<CatalogTenant>)>)
    requires given.Some? ==> Valid(given.value)
    ensures built.None? <==> Rejected(r, now)
    ensures built.Some? ==>
      var inventory := if given.Some? then given.value.values else map[];
      && Docs(built.value.1) == Compiled(r, inventory, now)
      && built.value.0 == Version(Compiled(r, inventory, now), now, stamp, digest)
  {
    var inventory := if given.Some? then given.value else Empty();
    var byTenant := CreateTenants(Sort(ByKey(TenantKey), r.tenants));
    HeadsAreValid(r.tenants);
    RejectedExactlyWhen(r, now, Sort(ByKey(KeyKey), r.keys));
    var ok := FillTenants(byTenant.values, r, inventory, now);
    if !ok {
      return None;
    }
    var keys := byTenant.keys;
    var tenants := seq(|keys|, i requires 0 <= i < |keys| && keys[i] in byTenant.values => byTenant.values[keys[i]]);
    FilledIsCompiled(byTenant, tenants, r, inventory.values, now);
    return Some((Version(Docs(tenants), now, stamp, digest), tenants));
  }

  // ----- What the catalog holds

  lemma {:induction false} HeadIds(pairs: seq<(string, Head)>, k: string)
    requires k in FromPairs(pairs).values && forall i :: 0 <= i < |pairs| ==> pairs[i].1.id == pairs[i].0
    ensures FromPairs(pairs).values[k].id == k
  {
    var i := ValueOrigin(pairs, k);
  }

  ghost predicate Known(r: Records, id: string) {
    exists t :: t in r.tenants && t.id == id
  }

  /** A tenant is published, under its own id, exactly when it is stored. */
  lemma HeadsAreTenants(r: Records, id: string)
    ensures id in Heads(r.tenants).values <==> Known(r, id)
    ensures id in Heads(r.tenants).values ==> Heads(r.tenants).values[id].id == id
  {
    var sorted := Sort(ByKey(TenantKey), r.tenants);
    var pairs := Pairs(sorted);
    FromPairsValid(pairs);
    if id in Heads(r.tenants).values {
      HeadIds(pairs, id);
      var i :| 0 <= i < |pairs| && pairs[i].0 == id;
      SortElements(ByKey(TenantKey), r.tenants, sorted[i]);
    }
    if Known(r, id) {
      var t :| t in r.tenants && t.id == id;
      SortElements(ByKey(TenantKey), r.tenants, t);
      var i :| 0 <= i < |sorted| && sorted[i] == t;
      assert pairs[i].0 == id;
    }
  }

  /** Where a stored tenant is published. */
  lemma DocAt(r: Records, inventory: map<string, Flags>, now: int, id: string) returns (m: nat)
    requires Known(r, id)
    ensures id in Heads(r.tenants).values && m < |Heads(r.tenants).keys| == |Compiled(r, inventory, now)|
    ensures Compiled(r, inventory, now)[m] == DocOf(Heads(r.tenants).values[id], id, r, inventory, now)
  {
    HeadsAreTenants(r, id);
    HeadsAreValid(r.tenants);
    m :| 0 <= m < |Heads(r.tenants).keys| && Heads(r.tenants).keys[m] == id;
  }

  lemma DocIs(r: Records, inventory: map<string, Flags>, now: int, m: nat)
    requires m < |Compiled(r, inventory, now)|
    ensures var doc := Compiled(r, inventory, now)[m];
            Known(r, doc.head.id) && doc.head.id in Heads(r.tenants).values
            && doc == DocOf(Heads(r.tenants).values[doc.head.id], doc.head.id, r, inventory, now)
  {
    HeadsAreValid(r.tenants);
    HeadsAreTenants(r, Heads(r.tenants).keys[m]);
  }

  lemma {:induction false} KeysStaySorted(pairs: seq<(string, Head)>)
    requires forall i, j :: 0 <= i < j < |pairs| ==> StringLe(pairs[i].0, pairs[j].0)
    ensures forall i, j :: 0 <= i < j < |FromPairs(pairs).keys| ==>
      StringLe(FromPairs(pairs).keys[i], FromPairs(pairs).keys[j])
    decreases |pairs|
  {
    if pairs != [] {
      var rest, last := pairs[..|pairs| - 1], pairs[|pairs| - 1];
      KeysStaySorted(rest);
      FromPairsValid(rest);
      forall k | k in FromPairs(rest).keys
        ensures StringLe(k, last.0)
      {
        var i :| 0 <= i < |rest| && rest[i].0 == k;
        assert pairs[i] == rest[i];
      }
    }
  }

  /** Tenants are published once each, in the order of their ids. */
  lemma TenantsOnceInOrder(r: Records, inventory: map<string, Flags>, now: int, i: nat, j: nat)
    requires i < j < |Compiled(r, inventory, now)|
    ensures var docs := Compiled(r, inventory, now);
            docs[i].head.id != docs[j].head.id && StringLe(docs[i].head.id, docs[j].head.id)
  {
    var sorted := Sort(ByKey(TenantKey), r.tenants);
    ByKeyIsTotal(TenantKey);
    SortIsSorted(ByKey(TenantKey), r.tenants);
    forall x, y | 0 <= x < y < |sorted|
      ensures StringLe(Pairs(sorted)[x].0, Pairs(sorted)[y].0)
    {
      assert ByKey(TenantKey)(sorted[x], sorted[y]);
      TenantOrder(sorted[x], sorted[y]);
    }
    KeysStaySorted(Pairs(sorted));
    HeadsAreValid(r.tenants);
    HeadsAreTenants(r, Heads(r.tenants).keys[i]);
    HeadsAreTenants(r, Heads(r.tenants).keys[j]);
  }

  lemma TenantOrder(t: Tenant, u: Tenant)
    requires ByKey(TenantKey)(t, u)
    ensures StringLe(t.id, u.id)
  {
    var a, b := TenantKey(t), TenantKey(u);
    assert TupleLe(a, b);
    StringLeTotal(a[0], b[0]);
  }

  // Labels: the sort key of a record, read off its entry.

  function KeyLabel(): KeyEntry -> seq<string> { (c: KeyEntry) => [c.id] }

  function AgentLabel(tenant: string): AgentEntry -> seq<string> { (c: AgentEntry) => [tenant, c.agent] }

  function ActionLabel(tenant: string): ActionEntry -> seq<string> { (c: ActionEntry) => [tenant, c.action, c.pattern] }

  function ModifierLabel(tenant: string): ModifierEntry -> seq<string> {
    (c: ModifierEntry) => [tenant, c.kind, c.value]
  }

  /** A catalog lists, under each tenant, exactly that tenant's records: for keys only those active and not
      expired at `now`; each as often as it is stored; sorted. */
  lemma CatalogHoldsExactly(r: Records, inventory: map<string, Flags>, now: int, m: nat)
    requires m < |Compiled(r, inventory, now)|
    ensures var doc := Compiled(r, inventory, now)[m];
            var id := doc.head.id;
            && multiset(doc.keys) == multiset(Section(r.keys, WantedKey(id, now), RenderKey))
            && multiset(doc.agents) == multiset(Section(r.agents, WantedAgent(id), RenderAgent(inventory)))
            && multiset(doc.actions) == multiset(Section(r.actions, WantedAction(id), RenderAction))
            && multiset(doc.modifiers) == multiset(Section(r.modifiers, WantedModifier(id), RenderModifier))
            && Sorted(ByKey(KeyLabel()), doc.keys) && Sorted(ByKey(AgentLabel(id)), doc.agents)
            && Sorted(ByKey(ActionLabel(id)), doc.actions) && Sorted(ByKey(ModifierLabel(id)), doc.modifiers)
  {
    DocIs(r, inventory, now, m);
    var id := Compiled(r, inventory, now)[m].head.id;
    PublishedIsExact(r.keys, WantedKey(id, now), RenderKey, KeyKey, KeyLabel());
    PublishedIsExact(r.agents, WantedAgent(id), RenderAgent(inventory), AgentKey, AgentLabel(id));
    PublishedIsExact(r.actions, WantedAction(id), RenderAction, ActionKey, ActionLabel(id));
    PublishedIsExact(r.modifiers, WantedModifier(id), RenderModifier, ModifierKey, ModifierLabel(id));
  }

  lemma TupleCons(x: string, s: seq<string>, y: string, t: seq<string>)
    ensures TupleLe([x] + s, [y] + t) <==> if x == y then TupleLe(s, t) else StringLe(x, y)
  {
    assert ([x] + s)[1..] == s && ([y] + t)[1..] == t;
  }

  lemma SingleLe(a: string, c: string)
    ensures TupleLe([a], [c]) <==> StringLe(a, c)
  {
    StringLeTotal(a, c);
    assert [a] == [a] + [] && [c] == [c] + [];
    TupleCons(a, [], c, []);
  }

  lemma PairLe(tenant: string, a: string, c: string)
    ensures TupleLe([tenant, a], [tenant, c]) <==> StringLe(a, c)
  {
    assert [tenant, a] == [tenant] + [a] && [tenant, c] == [tenant] + [c];
    TupleCons(tenant, [a], tenant, [c]);
    SingleLe(a, c);
  }

  /** Behind a common tenant, tuples compare by the first of two strings, and by the second when it is equal. */
  lemma TripleLe(tenant: string, a: string, b: string, c: string, d: string)
    ensures TupleLe([tenant, a, b], [tenant, c, d]) <==> if a == c then StringLe(b, d) else StringLe(a, c)
  {
    assert [tenant, a, b] == [tenant] + ([a] + [b]) && [tenant, c, d] == [tenant] + ([c] + [d]);
    TupleCons(tenant, [a] + [b], tenant, [c] + [d]);
    TupleCons(a, [b], c, [d]);
    SingleLe(b, d);
  }

  /** Keys are listed by id, agents by id, actions by action and pattern, modifiers by kind and value. */
  lemma CatalogIsSorted(r: Records, inventory: map<string, Flags>, now: int, m: nat, i: nat, j: nat)
    requires m < |Compiled(r, inventory, now)| && i < j
    ensures var doc := Compiled(r, inventory, now)[m];
            && (j < |doc.keys| ==> StringLe(doc.keys[i].id, doc.keys[j].id))
            && (j < |doc.agents| ==> StringLe(doc.agents[i].agent, doc.agents[j].agent))
            && (j < |doc.actions| ==>
                  if doc.actions[i].action == doc.actions[j].action
                  then StringLe(doc.actions[i].pattern, doc.actions[j].pattern)
                  else StringLe(doc.actions[i].action, doc.actions[j].action))
            && (j < |doc.modifiers| ==>
                  if doc.modifiers[i].kind == doc.modifiers[j].kind
                  then StringLe(doc.modifiers[i].value, doc.modifiers[j].value)
                  else StringLe(doc.modifiers[i].kind, doc.modifiers[j].kind))
  {
    CatalogHoldsExactly(r, inventory, now, m);
    var doc := Compiled(r, inventory, now)[m];
    var id := doc.head.id;
    if j < |doc.keys| {
      assert ByKey(KeyLabel())(doc.keys[i], doc.keys[j]);
      SingleLe(doc.keys[i].id, doc.keys[j].id);
    }
    if j < |doc.agents| {
      assert ByKey(AgentLabel(id))(doc.agents[i], doc.agents[j]);
      PairLe(id, doc.agents[i].agent, doc.agents[j].agent);
    }
    if j < |doc.actions| {
      var x, y := doc.actions[i], doc.actions[j];
      assert ByKey(ActionLabel(id))(x, y);
      TripleLe(id, x.action, x.pattern, y.action, y.pattern);
    }
    if j < |doc.modifiers| {
      var x, y := doc.modifiers[i], doc.modifiers[j];
      assert ByKey(ModifierLabel(id))(x, y);
      TripleLe(id, x.kind, x.value, y.kind, y.value);
    }
  }

  /** Keys with distinct ids are published once each, and so are agents, actions and modifiers that the database tells
      apart. */
  lemma PublishedOnceEach(r: Records, inventory: map<string, Flags>, now: int, m: nat)
    requires m < |Compiled(r, inventory, now)|
    ensures var doc := Compiled(r, inventory, now)[m];
            var id := doc.head.id;
            && (DistinctKeys(r.keys, KeyKey) ==> DistinctKeys(doc.keys, KeyLabel()))
            && (DistinctKeys(r.agents, AgentKey) ==> DistinctKeys(doc.agents, AgentLabel(id)))
            && (DistinctKeys(r.actions, ActionKey) ==> DistinctKeys(doc.actions, ActionLabel(id)))
            && (DistinctKeys(r.modifiers, ModifierKey) ==> DistinctKeys(doc.modifiers, ModifierLabel(id)))
  {
    DocIs(r, inventory, now, m);
    var id := Compiled(r, inventory, now)[m].head.id;
    if DistinctKeys(r.keys, KeyKey) {
      PublishedOnce(r.keys, WantedKey(id, now), RenderKey, KeyKey, KeyLabel());
    }
    if DistinctKeys(r.agents, AgentKey) {
      PublishedOnce(r.agents, WantedAgent(id), RenderAgent(inventory), AgentKey, AgentLabel(id));
    }
    if DistinctKeys(r.actions, ActionKey) {
      PublishedOnce(r.actions, WantedAction(id), RenderAction, ActionKey, ActionLabel(id));
    }
    if DistinctKeys(r.modifiers, ModifierKey) {
      PublishedOnce(r.modifiers, WantedModifier(id), RenderModifier, ModifierKey, ModifierLabel(id));
    }
  }

  /** A key entry is published under a tenant exactly when some stored key of that tenant is active, has not
      expired at `now`, and agrees with the entry in every field. */
  lemma KeyPublishedExactlyWhen(r: Records, inventory: map<string, Flags>, now: int, m: nat, c: KeyEntry)
    requires m < |Compiled(r, inventory, now)|
    ensures c in Compiled(r, inventory, now)[m].keys
            <==> exists k :: k in r.keys && k.tenant == Compiled(r, inventory, now)[m].head.id
                             && k.active && (k.expires.None? || k.expires.value > now)
                             && k.id == c.id && k.name == c.name && k.keyHash == c.keyHash && k.scopes == c.scopes
                             && k.environments == c.environments && k.expires == c.expires
                             && k.rateLimit == c.rateLimit && k.agent == c.agent
  {
    CatalogHoldsExactly(r, inventory, now, m);
    var doc := Compiled(r, inventory, now)[m];
    var wanted := WantedKey(doc.head.id, now);
    SameElements(doc.keys, Section(r.keys, wanted, RenderKey));
    SectionMembership(r.keys, wanted, RenderKey, c);
    assert forall k: ApiKey :: wanted(k) <==> Usable(k, now) && k.tenant == doc.head.id;
    if k :| k in r.keys && wanted(k) && RenderKey(k) == c {
      assert k.environments == c.environments;
    }
    if k :| k in r.keys && k.tenant == doc.head.id && k.active && (k.expires.None? || k.expires.value > now)
            && k.id == c.id && k.name == c.name && k.keyHash == c.keyHash && k.scopes == c.scopes
            && k.environments == c.environments && k.expires == c.expires && k.rateLimit == c.rateLimit
            && k.agent == c.agent {
      assert wanted(k) && RenderKey(k) == c;
    }
  }

  /** What a published key lets its holder do at time t in environment e. */
  predicate Admits(c: KeyEntry, hash: string, e: string, t: int) {
    c.keyHash == hash && (c.environments.None? || e in c.environments.value) && (c.expires.None? || c.expires.value > t)
  }

  /** From publication on, a tenant's document admits a key hash in an environment, with given scopes, rate limit and
      agent, exactly when a stored key of that tenant does: it is active, has not expired, has this hash and these
      rights, and is not kept from the environment. */
  lemma AdmittedExactlyWhen(r: Records, inventory: map<string, Flags>, now: int, m: nat, hash: string, e: string,
                            t: int,
                            scopes: seq<string>, rateLimit: Option<int>, agent: Option<string>)
    requires m < |Compiled(r, inventory, now)| && now <= t
    ensures (exists c :: c in Compiled(r, inventory, now)[m].keys && Admits(c, hash, e, t)
                         && c.scopes == scopes && c.rateLimit == rateLimit && c.agent == agent)
            <==> exists k :: k in r.keys && k.tenant == Compiled(r, inventory, now)[m].head.id && k.active
                             && (k.expires.None? || k.expires.value > t) && k.keyHash == hash
                             && (k.environments.None? || e in k.environments.value)
                             && k.scopes == scopes && k.rateLimit == rateLimit && k.agent == agent
  {
    var doc := Compiled(r, inventory, now)[m];
    if c :| c in doc.keys && Admits(c, hash, e, t) && c.scopes == scopes && c.rateLimit == rateLimit
            && c.agent == agent {
      KeyPublishedExactlyWhen(r, inventory, now, m, c);
    }
    if k :| k in r.keys && k.tenant == doc.head.id && k.active && (k.expires.None? || k.expires.value > t)
            && k.keyHash == hash && (k.environments.None? || e in k.environments.value)
            && k.scopes == scopes && k.rateLimit == rateLimit && k.agent == agent {
      var c := KeyEntry(k.id, k.name, k.keyHash, k.scopes, k.environments, k.expires, k.rateLimit, k.agent);
      KeyPublishedExactlyWhen(r, inventory, now, m, c);
      assert c in doc.keys && Admits(c, hash, e, t);
    }
  }

  /** The sorted list of a set of strings, each once. */
  ghost predicate ListsSet(list: seq<string>, s: seq<string>) {
    && NoDuplicates(list) && Sorted(StringLe, list) && forall x :: x in list <==> x in s
  }

  lemma OnlySortedSet(list: seq<string>, s: seq<string>)
    ensures ListsSet(list, s) <==> list == SortedSet(s)
  {
    DistinctElements(s);
    StringLeIsOrder(Distinct(s));
    SortIsPermutation(StringLe, Distinct(s));
    SortIsSorted(StringLe, Distinct(s));
    SameElements(SortedSet(s), Distinct(s));
    DuplicatesStay(Distinct(s), SortedSet(s));
    if ListsSet(list, s) {
      SameSetSameBag(list, SortedSet(s));
      StringLeIsOrder(list);
      SortedIsUnique(StringLe, list, SortedSet(s));
    }
  }

  /** The open findings that the inventory has on an agent, as they come. */
  function OpenFindings(inventory: map<string, Flags>, tenant: string, agent: string): seq<string> {
    if tenant in inventory && agent in inventory[tenant].findings then inventory[tenant].findings[agent] else []
  }

  lemma FindingsAreSet(inventory: map<string, Flags>, tenant: string, agent: string, list: seq<string>)
    ensures Findings(inventory, tenant, agent) == list <==> ListsSet(list, OpenFindings(inventory, tenant, agent))
  {
    OnlySortedSet(list, OpenFindings(inventory, tenant, agent));
    assert SortedSet([]) == [];
  }

  /** An agent is published exactly when it is stored for that tenant with this trust and these tools, and the open
      findings are those of the inventory, as a sorted set. */
  lemma AgentPublishedExactlyWhen(r: Records, inventory: map<string, Flags>, now: int, m: nat, c: AgentEntry)
    requires m < |Compiled(r, inventory, now)|
    ensures var id := Compiled(r, inventory, now)[m].head.id;
            c in Compiled(r, inventory, now)[m].agents
            <==> && (exists a :: a in r.agents && a.tenant == id && a.agent == c.agent && a.trust == c.trust
                                 && a.tools == c.tools)
                 && ListsSet(c.findings, OpenFindings(inventory, id, c.agent))
  {
    CatalogHoldsExactly(r, inventory, now, m);
    var doc := Compiled(r, inventory, now)[m];
    var wanted, render := WantedAgent(doc.head.id), RenderAgent(inventory);
    SameElements(doc.agents, Section(r.agents, wanted, render));
    SectionMembership(r.agents, wanted, render, c);
    FindingsAreSet(inventory, doc.head.id, c.agent, c.findings);
    if a :| a in r.agents && wanted(a) && render(a) == c {
      assert a.tenant == doc.head.id && a.agent == c.agent;
    }
    if a :| a in r.agents && a.tenant == doc.head.id && a.agent == c.agent && a.trust == c.trust && a.tools == c.tools
            && Findings(inventory, a.tenant, a.agent) == c.findings {
      assert wanted(a) && render(a) == c;
    }
  }

  /** An action is published exactly when it is stored for that tenant with this pattern and score. */
  lemma ActionPublishedExactlyWhen(r: Records, inventory: map<string, Flags>, now: int, m: nat, c: ActionEntry)
    requires m < |Compiled(r, inventory, now)|
    ensures c in Compiled(r, inventory, now)[m].actions
            <==> exists a :: a in r.actions && a.tenant == Compiled(r, inventory, now)[m].head.id
                             && a.action == c.action && a.pattern == c.pattern && a.score == c.score
  {
    CatalogHoldsExactly(r, inventory, now, m);
    var doc := Compiled(r, inventory, now)[m];
    var wanted := WantedAction(doc.head.id);
    SameElements(doc.actions, Section(r.actions, wanted, RenderAction));
    SectionMembership(r.actions, wanted, RenderAction, c);
    if a :| a in r.actions && a.tenant == doc.head.id && a.action == c.action && a.pattern == c.pattern
            && a.score == c.score {
      assert wanted(a) && RenderAction(a) == c;
    }
    if a :| a in r.actions && wanted(a) && RenderAction(a) == c {
      assert a.tenant == doc.head.id && a.score == c.score;
    }
  }

  /** A score modifier is published exactly when it is stored for that tenant with this kind, value and delta. */
  lemma ModifierPublishedExactlyWhen(r: Records, inventory: map<string, Flags>, now: int, m: nat, c: ModifierEntry)
    requires m < |Compiled(r, inventory, now)|
    ensures c in Compiled(r, inventory, now)[m].modifiers
            <==> exists a :: a in r.modifiers && a.tenant == Compiled(r, inventory, now)[m].head.id
                             && a.kind == c.kind && a.value == c.value && a.delta == c.delta
  {
    CatalogHoldsExactly(r, inventory, now, m);
    var doc := Compiled(r, inventory, now)[m];
    var wanted := WantedModifier(doc.head.id);
    SameElements(doc.modifiers, Section(r.modifiers, wanted, RenderModifier));
    SectionMembership(r.modifiers, wanted, RenderModifier, c);
    if a :| a in r.modifiers && a.tenant == doc.head.id && a.kind == c.kind && a.value == c.value
            && a.delta == c.delta {
      assert wanted(a) && RenderModifier(a) == c;
    }
    if a :| a in r.modifiers && wanted(a) && RenderModifier(a) == c {
      assert a.tenant == doc.head.id && a.delta == c.delta;
    }
  }

  /** The flagged tools of a tenant are those of the inventory, as a sorted set. */
  lemma FlaggedToolsAreSet(r: Records, inventory: map<string, Flags>, now: int, m: nat)
    requires m < |Compiled(r, inventory, now)|
    ensures var doc := Compiled(r, inventory, now)[m];
            ListsSet(doc.flaggedTools, if doc.head.id in inventory then inventory[doc.head.id].tools else [])
  {
    DocIs(r, inventory, now, m);
    var doc := Compiled(r, inventory, now)[m];
    OnlySortedSet(doc.flaggedTools, if doc.head.id in inventory then inventory[doc.head.id].tools else []);
    assert SortedSet([]) == [];
  }

  /** The last tenant with an id stays the last one with it when the tenants are sorted. */
  lemma LastWithId(tenants: seq<Tenant>, n: nat) returns (i: nat)
    requires n < |tenants|
    requires |Sort(ByKey(TenantKey), tenants)| == |tenants|
    requires forall j :: n < j < |tenants| ==>
      Sort(ByKey(TenantKey), tenants)[j].id != Sort(ByKey(TenantKey), tenants)[n].id
    ensures i < |tenants| && tenants[i] == Sort(ByKey(TenantKey), tenants)[n]
    ensures forall j :: i < j < |tenants| ==> tenants[j].id != tenants[i].id
  {
    var sorted := Sort(ByKey(TenantKey), tenants);
    var id := sorted[n].id;
    var p := (t: Tenant) => t.id == id;
    forall x, y | p(x) && p(y)
      ensures ByKey(TenantKey)(x, y)
    {
      assert TenantKey(x) == TenantKey(y) == [id];
      TupleLeTotal([id], [id]);
    }
    assert Class(ByKey(TenantKey), p);
    SortIsStable(ByKey(TenantKey), p, tenants);
    FilterIsSubset(p, sorted);
    assert p(sorted[n]) && sorted[n] in sorted;
    var last := LastPicked(p, sorted);
    assert sorted[last] in Filter(p, sorted);
    assert last == n;
    i := LastPicked(p, tenants);
    forall j | i < j < |tenants|
      ensures tenants[j].id != id
    {
      assert !p(tenants[j]);
    }
  }

  /** The head of a published tenant has the name, the status and the data classes of the tenant stored last under
      its id. */
  lemma HeadPublished(r: Records, inventory: map<string, Flags>, now: int, m: nat) returns (i: nat)
    requires m < |Compiled(r, inventory, now)|
    ensures var head := Compiled(r, inventory, now)[m].head;
            && i < |r.tenants| && r.tenants[i].id == head.id
            && (forall j :: i < j < |r.tenants| ==> r.tenants[j].id != head.id)
            && head.name == r.tenants[i].name && head.status == r.tenants[i].status
            && head.dataClasses == r.tenants[i].dataClasses
  {
    DocIs(r, inventory, now, m);
    var id, sorted := Compiled(r, inventory, now)[m].head.id, Sort(ByKey(TenantKey), r.tenants);
    SortIsPermutation(ByKey(TenantKey), r.tenants);
    SameElements(sorted, r.tenants);
    var n := ValueOrigin(Pairs(sorted), id);
    assert sorted[n].id == id && RenderTenant(sorted[n]) == Compiled(r, inventory, now)[m].head;
    forall j | n < j < |sorted|
      ensures sorted[j].id != id
    {
      assert Pairs(sorted)[j].0 != id;
    }
    i := LastWithId(r.tenants, n);
  }

  /** The pattern of a hash: 64 lower-case hexadecimal digits. */
  lemma HashPattern(s: string)
    ensures HexHash(s) <==> |s| == 64 && forall c :: c in s ==> c in "0123456789abcdef"
  {
    forall i | 0 <= i < |s|
      ensures s[i] in s && ('0' <= s[i] <= '9' || 'a' <= s[i] <= 'f' <==> s[i] in "0123456789abcdef")
    {
      HexLetter(s[i]);
    }
  }

  lemma HexLetter(c: char)
    ensures '0' <= c <= '9' || 'a' <= c <= 'f' <==> c in "0123456789abcdef"
  {
    var n, digits := c as int, "0123456789abcdef";
    if 48 <= n <= 57 {
      assert digits[n - 48] == c;
    } else if 97 <= n <= 102 {
      assert digits[n - 87] == c;
    }
  }

  /** Published versions name the time of publication, and differ whenever it does, if the stamp of a time has
      one length and times have different stamps. */
  lemma VersionsDiffer(a: seq<TenantDoc>, b: seq<TenantDoc>, s: int, t: int, stamp: int -> string,
                       digest: seq<TenantDoc> -> string)
    requires |stamp(s)| == |stamp(t)| && (stamp(s) == stamp(t) ==> s == t)
    ensures Version(a, s, stamp, digest)[..8 + |stamp(s)|] == "catalog-" + stamp(s)
    ensures |digest(a)| >= 8 ==> Version(a, s, stamp, digest) == "catalog-" + stamp(s) + "-" + digest(a)[..8]
    ensures Version(a, s, stamp, digest) == Version(b, t, stamp, digest) ==> s == t
  {
    var v, w := Version(a, s, stamp, digest), Version(b, t, stamp, digest);
    assert v[..8 + |stamp(s)|] == "catalog-" + stamp(s) && w[..8 + |stamp(t)|] == "catalog-" + stamp(t);
    assert v[..8 + |stamp(s)|][8..] == stamp(s) && w[..8 + |stamp(t)|][8..] == stamp(t);
  }

  /** Once every record of a key id is inactive or expired, no tenant publishes that id. */
  lemma RevokedKeyIsGone(r: Records, inventory: map<string, Flags>, now: int, id: string)
    requires forall k :: k in r.keys && k.id == id ==> !Usable(k, now)
    ensures forall m, c :: 0 <= m < |Compiled(r, inventory, now)| && c in Compiled(r, inventory, now)[m].keys ==>
      c.id != id
  {
    forall m, c | 0 <= m < |Compiled(r, inventory, now)| && c in Compiled(r, inventory, now)[m].keys
      ensures c.id != id
    {
      KeyPublishedExactlyWhen(r, inventory, now, m, c);
    }
  }

  // ----- Canonical output

  ghost predicate SameRecords(a: Records, b: Records) {
    && multiset(a.tenants) == multiset(b.tenants) && multiset(a.keys) == multiset(b.keys)
    && multiset(a.agents) == multiset(b.agents) && multiset(a.actions) == multiset(b.actions)
    && multiset(a.modifiers) == multiset(b.modifiers)
  }

  /** The catalog is the same for every order in which the records come. */
  ghost predicate Canonical(r: Records, inventory: map<string, Flags>, now: int) {
    forall o: Records :: SameRecords(o, r) ==> Compiled(o, inventory, now) == Compiled(r, inventory, now)
  }

  function AnyTenant(): Tenant -> bool { (t: Tenant) => true }

  function HeadLabel(): Head -> seq<string> { (h: Head) => [h.id] }

  /** Records of one tenant with one sort key are published alike. */
  ghost predicate ClearFor(r: Records, inventory: map<string, Flags>, now: int, id: string) {
    && Clear(r.keys, WantedKey(id, now), RenderKey, KeyKey)
    && Clear(r.agents, WantedAgent(id), RenderAgent(inventory), AgentKey)
    && Clear(r.actions, WantedAction(id), RenderAction, ActionKey)
    && Clear(r.modifiers, WantedModifier(id), RenderModifier, ModifierKey)
  }

  ghost predicate Unambiguous(r: Records, inventory: map<string, Flags>, now: int) {
    && Clear(r.tenants, AnyTenant(), RenderTenant, TenantKey)
    && forall id :: Known(r, id) ==> ClearFor(r, inventory, now, id)
  }

  lemma {:induction false} SectionOfAll(s: seq<Tenant>)
    ensures |Section(s, AnyTenant(), RenderTenant)| == |s|
    ensures forall i :: 0 <= i < |s| ==> Section(s, AnyTenant(), RenderTenant)[i] == RenderTenant(s[i])
  {
    if s != [] {
      SectionOfAll(s[1..]);
    }
  }

  lemma SameHeads(a: seq<Tenant>, b: seq<Tenant>)
    requires multiset(a) == multiset(b) && Clear(a, AnyTenant(), RenderTenant, TenantKey)
    ensures Heads(a) == Heads(b)
  {
    ClearIsCanonical(a, b, AnyTenant(), RenderTenant, TenantKey, HeadLabel());
    var x, y := Sort(ByKey(TenantKey), a), Sort(ByKey(TenantKey), b);
    SectionOfAll(x);
    SectionOfAll(y);
    assert Section(x, AnyTenant(), RenderTenant) == Section(y, AnyTenant(), RenderTenant);
    forall i | 0 <= i < |x|
      ensures Pairs(x)[i] == Pairs(y)[i]
    {
      assert RenderTenant(x[i]) == RenderTenant(y[i]);
    }
    assert Pairs(x) == Pairs(y);
  }

  lemma SameDoc(r: Records, o: Records, inventory: map<string, Flags>, now: int, head: Head, id: string)
    requires SameRecords(o, r) && ClearFor(r, inventory, now, id)
    ensures DocOf(head, id, o, inventory, now) == DocOf(head, id, r, inventory, now)
  {
    ClearIsCanonical(r.keys, o.keys, WantedKey(id, now), RenderKey, KeyKey, KeyLabel());
    ClearIsCanonical(r.agents, o.agents, WantedAgent(id), RenderAgent(inventory), AgentKey, AgentLabel(id));
    ClearIsCanonical(r.actions, o.actions, WantedAction(id), RenderAction, ActionKey, ActionLabel(id));
    ClearIsCanonical(r.modifiers, o.modifiers, WantedModifier(id), RenderModifier, ModifierKey, ModifierLabel(id));
  }

  lemma UnambiguousIsCanonical(r: Records, inventory: map<string, Flags>, now: int)
    requires Unambiguous(r, inventory, now)
    ensures Canonical(r, inventory, now)
  {
    forall o: Records | SameRecords(o, r)
      ensures Compiled(o, inventory, now) == Compiled(r, inventory, now)
    {
      SameHeads(r.tenants, o.tenants);
      HeadsAreValid(r.tenants);
      var heads := Heads(r.tenants);
      forall i | 0 <= i < |heads.keys|
        ensures Compiled(o, inventory, now)[i] == Compiled(r, inventory, now)[i]
      {
        HeadsAreTenants(r, heads.keys[i]);
        SameDoc(r, o, inventory, now, heads.values[heads.keys[i]], heads.keys[i]);
      }
    }
  }

  lemma {:induction false} LastPicked<T>(p: T -> bool, s: seq<T>) returns (n: nat)
    requires Filter(p, s) != []
    ensures n < |s| && s[n] == Filter(p, s)[|Filter(p, s)| - 1] && forall j :: n < j < |s| ==> !p(s[j])
  {
    if Filter(p, s[1..]) != [] {
      n := LastPicked(p, s[1..]);
      n := n + 1;
      assert forall j :: n < j < |s| ==> s[j] == s[1..][j - 1];
    } else {
      n := 0;
      FilterIsSubset(p, s[1..]);
      assert forall j :: 0 < j < |s| ==> s[j] in s[1..];
    }
  }

  /** Of the tenants that share an id, the one stored last is published. */
  lemma LastTenantIsPublished(r: Records, inventory: map<string, Flags>, now: int, i: nat)
    requires i < |r.tenants|
    ensures var heads := Heads(PutLast(r.tenants, i));
            r.tenants[i].id in heads.values && heads.values[r.tenants[i].id] == RenderTenant(r.tenants[i])
  {
    var t, all := r.tenants[i], AnyTenant();
    LastStaysLast(r.tenants, i, all, TenantKey);
    var sorted := Sort(ByKey(TenantKey), PutLast(r.tenants, i));
    var p := Tied(all, TenantKey, TenantKey(t));
    var n := LastPicked(p, sorted);
    forall j | n < j < |sorted|
      ensures Pairs(sorted)[j].0 != Pairs(sorted)[n].0
    {
      assert !p(sorted[j]);
    }
    LastValueWins(Pairs(sorted), n);
  }

  lemma CanonicalTenantsAreClear(r: Records, inventory: map<string, Flags>, now: int)
    requires Canonical(r, inventory, now)
    ensures Clear(r.tenants, AnyTenant(), RenderTenant, TenantKey)
  {
    forall x, y | x in r.tenants && y in r.tenants && TenantKey(x) == TenantKey(y)
      ensures RenderTenant(x) == RenderTenant(y)
    {
      assert TenantKey(x)[0] == TenantKey(y)[0];
      PublishedHead(r, inventory, now, x);
      PublishedHead(r, inventory, now, y);
    }
  }

  /** In a canonical catalog every stored tenant is the one published under its id. */
  lemma PublishedHead(r: Records, inventory: map<string, Flags>, now: int, t: Tenant)
    requires Canonical(r, inventory, now) && t in r.tenants
    ensures t.id in Heads(r.tenants).values && Heads(r.tenants).values[t.id] == RenderTenant(t)
  {
    var i :| 0 <= i < |r.tenants| && r.tenants[i] == t;
    var o := r.(tenants := PutLast(r.tenants, i));
    PutLastIsPermutation(r.tenants, i);
    assert SameRecords(o, r);
    LastTenantIsPublished(r, inventory, now, i);
    HeadsAreTenants(o, t.id);
    var m := DocAt(o, inventory, now, t.id);
    DocIs(r, inventory, now, m);
  }

  /** In a canonical catalog reordering some records does not change a tenant's document. */
  lemma DocStays(r: Records, o: Records, inventory: map<string, Flags>, now: int, id: string)
    requires Canonical(r, inventory, now) && Known(r, id) && SameRecords(o, r) && o.tenants == r.tenants
    ensures id in Heads(r.tenants).values
    ensures DocOf(Heads(r.tenants).values[id], id, o, inventory, now)
            == DocOf(Heads(r.tenants).values[id], id, r, inventory, now)
  {
    var m := DocAt(r, inventory, now, id);
    assert Compiled(o, inventory, now) == Compiled(r, inventory, now);
    DocIs(o, inventory, now, m);
    HeadsAreTenants(r, id);
  }

  lemma CanonicalIsClearFor(r: Records, inventory: map<string, Flags>, now: int, id: string)
    requires Canonical(r, inventory, now) && Known(r, id)
    ensures ClearFor(r, inventory, now, id)
  {
    forall b: seq<ApiKey> | multiset(b) == multiset(r.keys)
      ensures Published(b, WantedKey(id, now), RenderKey, KeyKey)
              == Published(r.keys, WantedKey(id, now), RenderKey, KeyKey)
    {
      DocStays(r, r.(keys := b), inventory, now, id);
    }
    OrderFreeExactlyWhen(r.keys, WantedKey(id, now), RenderKey, KeyKey, KeyLabel());
    forall b: seq<Agent> | multiset(b) == multiset(r.agents)
      ensures Published(b, WantedAgent(id), RenderAgent(inventory), AgentKey)
           == Published(r.agents, WantedAgent(id), RenderAgent(inventory), AgentKey)
    {
      DocStays(r, r.(agents := b), inventory, now, id);
    }
    OrderFreeExactlyWhen(r.agents, WantedAgent(id), RenderAgent(inventory), AgentKey, AgentLabel(id));
    forall b: seq<Action> | multiset(b) == multiset(r.actions)
      ensures Published(b, WantedAction(id), RenderAction, ActionKey)
              == Published(r.actions, WantedAction(id), RenderAction, ActionKey)
    {
      DocStays(r, r.(actions := b), inventory, now, id);
    }
    OrderFreeExactlyWhen(r.actions, WantedAction(id), RenderAction, ActionKey, ActionLabel(id));
    forall b: seq<Modifier> | multiset(b) == multiset(r.modifiers)
      ensures Published(b, WantedModifier(id), RenderModifier, ModifierKey)
           == Published(r.modifiers, WantedModifier(id), RenderModifier, ModifierKey)
    {
      DocStays(r, r.(modifiers := b), inventory, now, id);
    }
    OrderFreeExactlyWhen(r.modifiers, WantedModifier(id), RenderModifier, ModifierKey, ModifierLabel(id));
  }

  /** The catalog does not depend on the order of the records exactly when no two records of a known tenant
      share a sort key and differ in what is published of them. */
  lemma CanonicalExactlyWhen(r: Records, inventory: map<string, Flags>, now: int)
    ensures Canonical(r, inventory, now) <==> Unambiguous(r, inventory, now)
  {
    if Unambiguous(r, inventory, now) {
      UnambiguousIsCanonical(r, inventory, now);
    }
    if Canonical(r, inventory, now) {
      CanonicalTenantsAreClear(r, inventory, now);
      forall id | Known(r, id)
        ensures ClearFor(r, inventory, now, id)
      {
        CanonicalIsClearFor(r, inventory, now, id);
      }
    }
  }

  /** What a run gives: the catalog, or nothing if it is rejected. */
  ghost function Outcome(r: Records, inventory: map<string, Flags>, now: int): Option<seq<TenantDoc>> {
    if Rejected(r, now) then None else Some(Compiled(r, inventory, now))
  }

  lemma SameRecordsSameRejection(a: Records, b: Records, now: int)
    requires SameRecords(a, b)
    ensures Rejected(a, now) == Rejected(b, now)
  {
    SameElements(a.tenants, b.tenants);
    SameElements(a.keys, b.keys);
    assert forall id :: Known(a, id) == Known(b, id);
  }

  /** Counting rejections: the outcome does not depend on the order of the records exactly when it is a
      rejection or the records are unambiguous. */
  lemma OutcomeOrderFreeExactlyWhen(r: Records, inventory: map<string, Flags>, now: int)
    ensures (forall o: Records :: SameRecords(o, r) ==> Outcome(o, inventory, now) == Outcome(r, inventory, now))
            <==> Rejected(r, now) || Unambiguous(r, inventory, now)
  {
    CanonicalExactlyWhen(r, inventory, now);
    forall o: Records | SameRecords(o, r)
      ensures Rejected(o, now) == Rejected(r, now)
    {
      SameRecordsSameRejection(o, r, now);
    }
    if !Rejected(r, now)
       && forall o: Records :: SameRecords(o, r) ==> Outcome(o, inventory, now) == Outcome(r, inventory, now)
    {
      forall o: Records | SameRecords(o, r)
        ensures Compiled(o, inventory, now) == Compiled(r, inventory, now)
      {
        assert Outcome(o, inventory, now) == Outcome(r, inventory, now);
      }
    }
  }

  /** The database's constraints: ids are primary keys; an agent is identified by tenant and id, an action by
      tenant, action and pattern, a modifier by tenant, kind and value. */
  ghost predicate Constrained(r: Records) {
    && (forall x, y :: x in r.tenants && y in r.tenants && x.id == y.id ==> x == y)
    && (forall x, y :: x in r.keys && y in r.keys && x.id == y.id ==> x == y)
    && (forall x, y :: x in r.agents && y in r.agents && AgentKey(x) == AgentKey(y) ==> x == y)
    && (forall x, y :: x in r.actions && y in r.actions && ActionKey(x) == ActionKey(y) ==> x == y)
    && (forall x, y :: x in r.modifiers && y in r.modifiers && ModifierKey(x) == ModifierKey(y) ==> x == y)
  }

  /** Whatever satisfies the constraints compiles to one catalog. */
  lemma ConstrainedIsCanonical(r: Records, inventory: map<string, Flags>, now: int)
    requires Constrained(r)
    ensures Canonical(r, inventory, now)
  {
    forall x, y | x in r.tenants && y in r.tenants && TenantKey(x) == TenantKey(y)
      ensures x == y
    {
      assert TenantKey(x)[0] == TenantKey(y)[0];
    }
    forall x, y | x in r.keys && y in r.keys && KeyKey(x) == KeyKey(y)
      ensures x == y
    {
      assert KeyKey(x)[0] == KeyKey(y)[0];
    }
    UnambiguousIsCanonical(r, inventory, now);
  }

  /** Two actions of one tenant on one pattern with different scores are published in the order they are
      stored, even if their ids differ. */
  lemma DifferentScoresShowTheOrder(t: Tenant, low: Action, high: Action, inventory: map<string, Flags>, now: int)
    requires low.tenant == high.tenant == t.id && low.action == high.action && low.pattern == high.pattern
    requires low.score != high.score
    ensures !Canonical(Records([t], [], [], [low, high], []), inventory, now)
  {
    var r := Records([t], [], [], [low, high], []);
    assert low in r.actions && high in r.actions && ActionKey(low) == ActionKey(high);
    assert !Clear(r.actions, WantedAction(t.id), RenderAction, ActionKey);
    assert t in r.tenants && Known(r, t.id);
    CanonicalExactlyWhen(r, inventory, now);
  }

  /** So unique ids alone are not enough. */
  lemma UniqueIdsAreNotEnough() returns (r: Records)
    ensures forall x, y :: x in r.actions && y in r.actions && x.id == y.id ==> x == y
    ensures !Canonical(r, map[], 0)
  {
    var low, high := Action("1", "t", "a", "*", 10), Action("2", "t", "a", "*", 90);
    var t := Tenant("t", "T", "active", 0, []);
    assert low.id[0] != high.id[0];
    DifferentScoresShowTheOrder(t, low, high, map[], 0);
    r := Records([t], [], [], [low, high], []);
  }
}
