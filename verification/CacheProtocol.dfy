/** The cache protocol of the AI gateway: project-service commits a change and then publishes it,
    events can be lost, a listener evicts, and fetches span an await.

    Every interleaving of the atomic steps is a run. Two history variables are added: `step` counts
    the steps taken, and every project that the server hands out is stamped with the step at which
    it was read. The client never looks at the stamp, it only stores and returns it.

    The database is keyed by project, but cache keys and events carry the spelling that the caller
    used: `uuid.UUID` accepts several spellings of one id. `resolve` is that parser. */
module CacheProtocol {
  import opened Wrappers
  import opened ProjectClient

  /** A committed project and the step at which the server read it. */
  datatype Reading<P> = Reading(project: P, step: nat)

  /** A committed change: the spelling it was made under and the step of its commit. */
  datatype Change = Change(spelling: string, step: nat)

  /** A `get_project` call that waits for its reply; `Replied` once the server has read. */
  datatype Fetch<P> =
    | Asked(key: string)
    | Replied(key: string, reply: Option<Reading<P>>, readAt: real)

  datatype Config = Config(ttl: real, fetchTime: real, resolve: string -> Option<nat>)

  datatype State<P> = State(
    now: real,
    step: nat,
    db: map<nat, P>,                    // the committed projects
    unpublished: multiset<Change>,      // committed, publish still to come
    channel: multiset<Change>,          // published, not yet delivered
    cache: Cache<Reading<P>>,
    fetches: map<nat, Fetch<P>>)

  datatype Event<P> =
    | Tick(dt: real)
    | Create(id: nat, project: P)                    // a new project is not published
    | Commit(spelling: string, update: Option<P>)    // update, or delete if there is no new value
    | Publish(change: Change)
    | Lose(change: Change)                           // publishing fails, or the channel drops it
    | Deliver(change: Change)                        // the listener evicts the published spelling
    | ClearAll                                       // the listener failed and clears everything
    | Hit(key: string)                               // get_project answered from the cache
    | Ask(call: nat, key: string)                    // get_project misses and starts a fetch
    | ServerRead(call: nat)
    | Finish(call: nat)                              // the reply arrives: store and return
    | Fail(call: nat)                                // no reply: get_project raises

  function Committed<P>(c: Config, s: State<P>, key: string): Option<P> {
    var id := c.resolve(key);
    if id.Some? && id.value in s.db then Some(s.db[id.value]) else None
  }

  /** Which events can happen. Time does not pass the moment by which a read fetch must finish. */
  ghost predicate Enabled<P>(c: Config, s: State<P>, e: Event<P>) {
    match e
    case Tick(dt) =>
      dt >= 0.0 && forall k ::
        k in s.fetches && s.fetches[k].Replied? ==> s.now + dt - s.fetches[k].readAt <= c.fetchTime
    case Create(id, _) => id !in s.db
    case Commit(spelling, _) => Committed(c, s, spelling).Some?
    case Publish(change) => change in s.unpublished
    case Lose(change) => change in s.unpublished || change in s.channel
    case Deliver(change) => change in s.channel
    case ClearAll => true
    case Hit(key) => Lookup(s.cache, c.ttl, key, s.now).Some?
    case Ask(call, key) => call !in s.fetches && Lookup(s.cache, c.ttl, key, s.now).None?
    case ServerRead(call) => call in s.fetches && s.fetches[call].Asked?
    case Finish(call) => call in s.fetches && s.fetches[call].Replied?
    case Fail(call) => call in s.fetches
  }

  function Effect<P>(c: Config, s: State<P>, e: Event<P>): State<P> {
    match e
    case Tick(dt) => s.(now := s.now + dt)
    case Create(id, project) => s.(db := s.db[id := project])
    case Commit(spelling, update) =>
      var id := c.resolve(spelling);
      if id.None? then s
      else
        s.(db := if update.Some? then s.db[id.value := update.value] else s.db - {id.value},
           unpublished := s.unpublished + multiset{Change(spelling, s.step)})
    case Publish(change) =>
      s.(unpublished := s.unpublished - multiset{change}, channel := s.channel + multiset{change})
    case Lose(change) =>
      if change in s.unpublished then s.(unpublished := s.unpublished - multiset{change})
      else s.(channel := s.channel - multiset{change})
    case Deliver(change) =>
      s.(channel := s.channel - multiset{change}, cache := Evicted(s.cache, Some(change.spelling)))
    case ClearAll => s.(cache := Evicted(s.cache, None))
    case Hit(_) => s
    case Ask(call, key) => s.(fetches := s.fetches[call := Asked(key)])
    case ServerRead(call) =>
      if call !in s.fetches then s
      else
        var key := s.fetches[call].key;
        var read := Committed(c, s, key);
        var reply := if read.Some? then Some(Reading(read.value, s.step)) else None;
        s.(fetches := s.fetches[call := Replied(key, reply, s.now)])
    case Finish(call) =>
      var rest := s.fetches - {call};
      if call in s.fetches && s.fetches[call].Replied? && s.fetches[call].reply.Some? then
        s.(fetches := rest, cache := Stored(s.cache, c.ttl, s.fetches[call].key, s.fetches[call].reply.value, s.now))
      else
        s.(fetches := rest)
    case Fail(call) => s.(fetches := s.fetches - {call})
  }

  function Next<P>(c: Config, s: State<P>, e: Event<P>): State<P> {
    Effect(c, s, e).(step := s.step + 1)
  }

  /** The key and project that an event hands to a caller of `get_project`, if it does. */
  function Returned<P>(c: Config, s: State<P>, e: Event<P>): Option<(string, Reading<P>)> {
    match e
    case Hit(key) =>
      var hit := Lookup(s.cache, c.ttl, key, s.now);
      if hit.Some? then Some((key, hit.value)) else None
    case Finish(call) =>
      if call in s.fetches && s.fetches[call].Replied? && s.fetches[call].reply.Some? then
        Some((s.fetches[call].key, s.fetches[call].reply.value))
      else None
    case _ => None
  }

  /** `states` are the states that the events lead through. */
  ghost predicate Run<P>(c: Config, states: seq<State<P>>, events: seq<Event<P>>) {
    && |states| == |events| + 1
    && forall i :: 0 <= i < |events| ==>
      Enabled(c, states[i], events[i]) && states[i + 1] == Next(c, states[i], events[i])
  }

  ghost predicate Init<P>(s: State<P>) {
    s.step == 0 && s.cache == map[] && s.fetches == map[] && s.unpublished == multiset{} && s.channel == multiset{}
  }

  // ----- Bounded staleness

  /** A reading stamped in this run shows what was committed then under the key. */
  ghost predicate TrueReading<P>(c: Config, states: seq<State<P>>, key: string, r: Reading<P>) {
    r.step < |states| && Committed(c, states[r.step], key) == Some(r.project)
  }

  ghost predicate GoodEntry<P>(c: Config, states: seq<State<P>>, i: nat, key: string, e: Entry<Reading<P>>) {
    && e.project.step <= i && TrueReading(c, states, key, e.project)
    && e.expiry <= states[e.project.step].now + c.fetchTime + c.ttl
  }

  ghost predicate GoodFetch<P>(c: Config, states: seq<State<P>>, i: nat, now: real, f: Fetch<P>) {
    f.Replied? ==>
      && now - f.readAt <= c.fetchTime
      && (f.reply.Some? ==>
            && f.reply.value.step <= i && TrueReading(c, states, f.key, f.reply.value)
            && states[f.reply.value.step].now == f.readAt)
  }

  ghost predicate Traced<P>(c: Config, states: seq<State<P>>, i: nat)
    requires i < |states|
  {
    var s := states[i];
    && s.step == i
    && (c.ttl <= 0.0 ==> s.cache == map[])
    && (forall k :: k in s.cache ==> GoodEntry(c, states, i, k, s.cache[k]))
    && (forall t :: t in s.fetches ==> GoodFetch(c, states, i, s.now, s.fetches[t]))
  }

  lemma CacheStep<P>(c: Config, states: seq<State<P>>, i: nat, e: Event<P>)
    requires i < |states| && Traced(c, states, i) && Enabled(c, states[i], e)
    ensures var t := Next(c, states[i], e);
            && (c.ttl <= 0.0 ==> t.cache == map[])
            && forall k :: k in t.cache ==> GoodEntry(c, states, i + 1, k, t.cache[k])
  {
    var s, t := states[i], Next(c, states[i], e);
    if e.Finish? {
      var f := s.fetches[e.call];
      assert GoodFetch(c, states, i, s.now, f);
      forall k | k in t.cache
        ensures GoodEntry(c, states, i + 1, k, t.cache[k])
      {
        assert k in s.cache ==> GoodEntry(c, states, i, k, s.cache[k]);
      }
    } else {
      assert forall k :: k in t.cache ==> k in s.cache && t.cache[k] == s.cache[k];
    }
  }

  lemma FetchStep<P>(c: Config, states: seq<State<P>>, i: nat, e: Event<P>)
    requires i < |states| && Traced(c, states, i) && Enabled(c, states[i], e) && c.fetchTime >= 0.0
    ensures var t := Next(c, states[i], e);
            forall k :: k in t.fetches ==> GoodFetch(c, states, i + 1, t.now, t.fetches[k])
  {
    var s, t := states[i], Next(c, states[i], e);
    forall k | k in t.fetches
      ensures GoodFetch(c, states, i + 1, t.now, t.fetches[k])
    {
      if k in s.fetches && t.fetches[k] == s.fetches[k] {
        assert GoodFetch(c, states, i, s.now, s.fetches[k]);
      }
    }
  }

  lemma {:induction false} TracedThroughout<P>(c: Config, states: seq<State<P>>, events: seq<Event<P>>, i: nat)
    requires Run(c, states, events) && Init(states[0]) && i < |states| && c.fetchTime >= 0.0
    ensures Traced(c, states, i)
    decreases i
  {
    if i > 0 {
      TracedThroughout(c, states, events, i - 1);
      CacheStep(c, states, i - 1, events[i - 1]);
      FetchStep(c, states, i - 1, events[i - 1]);
    }
  }

  /** Bounded staleness: in every run, a returned project was the committed one at some earlier
      state, less than TTL plus the fetch time ago. Without caching it is at most the fetch time. */
  lemma StalenessIsBounded<P>(c: Config, states: seq<State<P>>, events: seq<Event<P>>, i: nat,
                              key: string, r: Reading<P>)
    requires Run(c, states, events) && Init(states[0]) && c.fetchTime >= 0.0
    requires i < |events| && Returned(c, states[i], events[i]) == Some((key, r))
    ensures r.step <= i && Committed(c, states[r.step], key) == Some(r.project)
    ensures var age := states[i].now - states[r.step].now;
            if c.ttl > 0.0 then age < c.ttl + c.fetchTime else age <= c.fetchTime && events[i].Finish?
  {
    TracedThroughout(c, states, events, i);
    match events[i]
    case Hit(k) => assert GoodEntry(c, states, i, k, states[i].cache[k]);
    case Finish(call) => assert GoodFetch(c, states, i, states[i].now, states[i].fetches[call]);
  }

  /** With a TTL of zero or less nothing is ever cached. */
  lemma NoTtlNoCache<P>(c: Config, states: seq<State<P>>, events: seq<Event<P>>, i: nat)
    requires Run(c, states, events) && Init(states[0]) && i < |states| && c.fetchTime >= 0.0 && c.ttl <= 0.0
    ensures states[i].cache == map[]
  {
    TracedThroughout(c, states, events, i);
  }

  // ----- Use of the cache

  /** The event stores under `key` or evicts it. */
  predicate Touches<P>(s: State<P>, e: Event<P>, key: string) {
    match e
    case Deliver(change) => change.spelling == key
    case ClearAll => true
    case Finish(call) => call in s.fetches && s.fetches[call].key == key
    case _ => false
  }

  lemma UntouchedStep<P>(c: Config, s: State<P>, e: Event<P>, key: string)
    requires Enabled(c, s, e) && !Touches(s, e, key)
    ensures key in Next(c, s, e).cache <==> key in s.cache
    ensures key in s.cache ==> Next(c, s, e).cache[key] == s.cache[key]
  {
  }

  /** The caches have the same entry under `key`, or none. */
  predicate SameEntry<V(==)>(a: Cache<V>, b: Cache<V>, key: string) {
    (key in a <==> key in b) && (key in a ==> b[key] == a[key])
  }

  lemma {:induction false} EntryStays<V>(caches: seq<Cache<V>>, a: nat, b: nat, key: string)
    requires a <= b < |caches| && forall i :: a <= i < b ==> SameEntry(caches[i], caches[i + 1], key)
    ensures SameEntry(caches[a], caches[b], key)
    decreases b - a
  {
    if a < b {
      EntryStays(caches, a, b - 1, key);
      assert SameEntry(caches[b - 1], caches[b - 1 + 1], key);
    }
  }

  /** A fetched project is answered from the cache for exactly the TTL: in every run, as long as nothing else is
      stored under its key and the key is not evicted, a call hits if and only if less than the TTL has passed. */
  lemma HitExactlyWithinTtl<P>(c: Config, states: seq<State<P>>, events: seq<Event<P>>, a: nat, b: nat,
                               key: string, r: Reading<P>)
    requires Run(c, states, events) && a < b < |states| && events[a].Finish?
    requires Returned(c, states[a], events[a]) == Some((key, r))
    requires forall i :: a < i < b ==> !Touches(states[i], events[i], key)
    ensures Enabled(c, states[b], Hit(key)) <==> c.ttl > 0.0 && states[b].now < states[a].now + c.ttl
    ensures Enabled(c, states[b], Hit(key)) ==> Returned(c, states[b], Hit(key)) == Some((key, r))
  {
    var caches := seq(|states|, i requires 0 <= i < |states| => states[i].cache);
    forall i | a + 1 <= i < b
      ensures SameEntry(caches[i], caches[i + 1], key)
    {
      UntouchedStep(c, states[i], events[i], key);
    }
    EntryStays(caches, a + 1, b, key);
    assert states[a + 1] == Next(c, states[a], events[a]);
  }

  ghost predicate Moves<P>(c: Config, s: State<P>, e: Event<P>, t: State<P>) {
    Enabled(c, s, e) && t == Next(c, s, e)
  }

  lemma AskAndReadMoves<P>(c: Config, s: State<P>, key: string, id: nat) returns (t: State<P>, u: State<P>)
    requires c.resolve(key) == Some(id) && id in s.db && s.cache == map[] && s.fetches == map[]
    ensures Moves(c, s, Ask(0, key), t) && Moves(c, t, ServerRead(0), u)
    ensures var reply := Replied(key, Some(Reading(s.db[id], s.step + 1)), s.now);
            u == s.(step := s.step + 2, fetches := map[0 := reply]) && t.now == s.now && t.db == s.db
  {
    t := Next(c, s, Ask(0, key));
    u := Next(c, t, ServerRead(0));
    assert Committed(c, t, key) == Some(s.db[id]);
  }

  lemma ReplaceAndLoseMoves<P>(c: Config, s: State<P>, key: string, id: nat, after: P)
      returns (t: State<P>, u: State<P>, v: State<P>)
    requires c.resolve(key) == Some(id) && id in s.db && s.unpublished == multiset{} && s.channel == multiset{}
    ensures var change := Change(key, s.step);
            Moves(c, s, Commit(key, Some(after)), t) && Moves(c, t, Publish(change), u) && Moves(c, u, Lose(change), v)
    ensures v == s.(step := s.step + 3, db := s.db[id := after])
  {
    t := Next(c, s, Commit(key, Some(after)));
    u := Next(c, t, Publish(Change(key, s.step)));
    v := Next(c, u, Lose(Change(key, s.step)));
  }

  lemma WaitAndStoreMoves<P>(c: Config, s: State<P>, key: string, r: Reading<P>) returns (t: State<P>, u: State<P>)
    requires c.fetchTime >= 0.0 && c.ttl > 0.0 && s.cache == map[]
    requires s.fetches == map[0 := Replied(key, Some(r), s.now)]
    ensures Moves(c, s, Tick(c.fetchTime), t) && Moves(c, t, Finish(0), u)
    ensures u == s.(step := s.step + 2, now := s.now + c.fetchTime, fetches := map[],
                    cache := map[key := Entry(s.now + c.fetchTime + c.ttl, r)])
  {
    t := Next(c, s, Tick(c.fetchTime));
    u := Next(c, t, Finish(0));
    assert s.fetches - {0} == map[];
  }

  lemma WaitAndHitMoves<P>(c: Config, s: State<P>, key: string, r: Reading<P>, d: real) returns (t: State<P>,
                                                                                                 u: State<P>)
    requires 0.0 <= d < c.ttl && s.fetches == map[] && s.cache == map[key := Entry(s.now + c.ttl, r)]
    ensures Moves(c, s, Tick(d), t) && Moves(c, t, Hit(key), u)
    ensures t == s.(step := s.step + 1, now := s.now + d) && Returned(c, t, Hit(key)) == Some((key, r))
  {
    t := Next(c, s, Tick(d));
    u := Next(c, t, Hit(key));
  }

  lemma RunJoin<P>(c: Config, states: seq<State<P>>, events: seq<Event<P>>, more: seq<State<P>>, further: seq<Event<P>>)
    requires Run(c, states, events) && Run(c, more, further) && more[0] == states[|events|]
    ensures Run(c, states + more[1..], events + further)
  {
    var s, e := states + more[1..], events + further;
    forall i | 0 <= i < |e|
      ensures Moves(c, s[i], e[i], s[i + 1])
    {
      if i < |events| {
        assert Moves(c, states[i], events[i], states[i + 1]);
      } else {
        var j := i - |events|;
        assert s[i] == more[j] && s[i + 1] == more[j + 1];
        assert Moves(c, more[j], further[j], more[j + 1]);
      }
    }
  }

  lemma RunOfTwo<P>(c: Config, s: State<P>, d: Event<P>, t: State<P>, e: Event<P>, u: State<P>)
    requires Moves(c, s, d, t) && Moves(c, t, e, u)
    ensures Run(c, [s, t, u], [d, e])
  {
  }

  lemma RunOfOne<P>(c: Config, s: State<P>, e: Event<P>, t: State<P>)
    requires Moves(c, s, e, t)
    ensures Run(c, [s, t], [e])
  {
  }

  /** A fetch reads the project, which is then replaced; the event is lost. */
  lemma ReadReplaceLose<P>(c: Config, s: State<P>, key: string, id: nat, after: P)
      returns (states: seq<State<P>>, events: seq<Event<P>>)
    requires c.resolve(key) == Some(id) && id in s.db && s.cache == map[] && s.fetches == map[]
    requires s.unpublished == multiset{} && s.channel == multiset{}
    ensures Run(c, states, events) && |events| == 5 && states[0] == s && events[2] == Commit(key, Some(after))
    ensures states[1].now == s.now && states[1].db == s.db
    ensures states[5] == s.(step := s.step + 5, db := s.db[id := after],
                            fetches := map[0 := Replied(key, Some(Reading(s.db[id], s.step + 1)), s.now)])
  {
    var t, u := AskAndReadMoves(c, s, key, id);
    var v, w, x := ReplaceAndLoseMoves(c, u, key, id, after);
    var change := Change(key, s.step + 2);
    RunOfTwo(c, s, Ask(0, key), t, ServerRead(0), u);
    RunOfTwo(c, u, Commit(key, Some(after)), v, Publish(change), w);
    RunOfOne(c, w, Lose(change), x);
    RunJoin(c, [u, v, w], [Commit(key, Some(after)), Publish(change)], [w, x], [Lose(change)]);
    RunJoin(c, [s, t, u], [Ask(0, key), ServerRead(0)], [u, v, w] + [w, x][1..],
            [Commit(key, Some(after)), Publish(change)] + [Lose(change)]);
    states := [s, t, u] + ([u, v, w] + [w, x][1..])[1..];
    events := [Ask(0, key), ServerRead(0)] + ([Commit(key, Some(after)), Publish(change)] + [Lose(change)]);
  }

  /** The fetch finishes at the last moment, and its project is returned once more d later. */
  lemma StoreAndHit<P>(c: Config, s: State<P>, key: string, r: Reading<P>, d: real)
      returns (states: seq<State<P>>, events: seq<Event<P>>)
    requires c.fetchTime >= 0.0 && 0.0 <= d < c.ttl && s.cache == map[]
    requires s.fetches == map[0 := Replied(key, Some(r), s.now)]
    ensures Run(c, states, events) && |events| == 4 && states[0] == s
    ensures states[3].now == s.now + c.fetchTime + d && states[3].db == s.db
    ensures Returned(c, states[3], events[3]) == Some((key, r))
  {
    var t, u := WaitAndStoreMoves(c, s, key, r);
    var v, w := WaitAndHitMoves(c, u, key, r, d);
    RunOfTwo(c, s, Tick(c.fetchTime), t, Finish(0), u);
    RunOfTwo(c, u, Tick(d), v, Hit(key), w);
    RunJoin(c, [s, t, u], [Tick(c.fetchTime), Finish(0)], [u, v, w], [Tick(d), Hit(key)]);
    states := [s, t, u] + [u, v, w][1..];
    events := [Tick(c.fetchTime), Finish(0)] + [Tick(d), Hit(key)];
  }

  /** The staleness bound cannot be improved: for every age short of it, with the fetch time used up and the event
      lost, a run returns a project that was replaced that long ago. */
  lemma StalenessBoundIsTight<P>(c: Config, key: string, id: nat, before: P, after: P, d: real)
      returns (states: seq<State<P>>, events: seq<Event<P>>)
    requires c.resolve(key) == Some(id) && c.fetchTime >= 0.0 && 0.0 <= d < c.ttl
    ensures Run(c, states, events) && Init(states[0]) && |events| == 9
    ensures Returned(c, states[8], events[8]) == Some((key, Reading(before, 1)))
    ensures Committed(c, states[1], key) == Some(before) && events[2] == Commit(key, Some(after))
    ensures states[8].now - states[1].now == c.fetchTime + d && Committed(c, states[8], key) == Some(after)
  {
    var start: State<P> := State(0.0, 0, map[id := before], multiset{}, multiset{}, map[], map[]);
    var x, d1 := ReadReplaceLose(c, start, key, id, after);
    var y, d2 := StoreAndHit(c, x[5], key, Reading(before, 1), d);
    RunJoin(c, x, d1, y, d2);
    states, events := x + y[1..], d1 + d2;
    assert states[8] == y[3] && events[8] == d2[3] && states[1] == x[1];
  }

  // ----- Freshness after an eviction

  /** No fetch that read the server at or before step `since` is unfinished for `key`. */
  ghost predicate NoOldFetch<P>(s: State<P>, key: string, since: nat) {
    forall t :: t in s.fetches && s.fetches[t].Replied? && s.fetches[t].key == key && s.fetches[t].reply.Some? ==>
      s.fetches[t].reply.value.step > since
  }

  /** No live entry for `key` was read at or before step `since`. */
  ghost predicate NoOldEntry<P>(c: Config, s: State<P>, key: string, since: nat) {
    Lookup(s.cache, c.ttl, key, s.now).Some? ==> s.cache[key].project.step > since
  }

  /** Whatever happens from `s` on, `get_project(key)` never returns a reading from step `since` or before. */
  ghost predicate FreshFrom<P(!new)>(c: Config, s: State<P>, key: string, since: nat) {
    forall states: seq<State<P>>, events: seq<Event<P>>, i: nat, r: Reading<P> ::
      (Run(c, states, events) && states[0] == s && i < |events|
       && Returned(c, states[i], events[i]) == Some((key, r)))
      ==> r.step > since
  }

  lemma FreshFetchStep<P>(c: Config, s: State<P>, e: Event<P>, key: string, since: nat)
    requires Enabled(c, s, e) && s.step > since && NoOldFetch(s, key, since)
    ensures NoOldFetch(Next(c, s, e), key, since)
  {
    var t := Next(c, s, e);
    forall k | k in t.fetches && t.fetches[k].Replied? && t.fetches[k].key == key && t.fetches[k].reply.Some?
      ensures t.fetches[k].reply.value.step > since
    {
      if k in s.fetches && t.fetches[k] == s.fetches[k] {
      } else {
        assert e == ServerRead(k);
      }
    }
  }

  lemma FreshEntryStep<P>(c: Config, s: State<P>, e: Event<P>, key: string, since: nat)
    requires Enabled(c, s, e) && NoOldFetch(s, key, since) && NoOldEntry(c, s, key, since)
    ensures NoOldEntry(c, Next(c, s, e), key, since)
  {
    var t := Next(c, s, e);
    if key in t.cache && !(key in s.cache && t.cache[key] == s.cache[key]) {
      assert e.Finish? && t.cache[key].project == s.fetches[e.call].reply.value;
    }
  }

  lemma {:induction false} FreshThroughout<P>(c: Config, states: seq<State<P>>, events: seq<Event<P>>, i: nat,
                                              key: string, since: nat)
    requires Run(c, states, events) && i < |states|
    requires states[0].step > since && NoOldFetch(states[0], key, since) && NoOldEntry(c, states[0], key, since)
    ensures states[i].step > since && NoOldFetch(states[i], key, since) && NoOldEntry(c, states[i], key, since)
    decreases i
  {
    if i > 0 {
      FreshThroughout(c, states, events, i - 1, key, since);
      FreshFetchStep(c, states[i - 1], events[i - 1], key, since);
      FreshEntryStep(c, states[i - 1], events[i - 1], key, since);
    }
  }

  /** One event is enough to return an old reading that is still around. */
  lemma OldReadingCanReturn<P(!new)>(c: Config, s: State<P>, e: Event<P>, key: string, since: nat, r: Reading<P>)
    requires Enabled(c, s, e) && Returned(c, s, e) == Some((key, r)) && r.step <= since
    ensures !FreshFrom(c, s, key, since)
  {
    var states, events := [s, Next(c, s, e)], [e];
    assert Run(c, states, events) && states[0] == s && Returned(c, states[0], events[0]) == Some((key, r));
  }

  /** When a key is fresh for good: exactly when no unfinished fetch and no live entry of that key
      holds a reading from before. */
  lemma FreshExactlyWhen<P(!new)>(c: Config, s: State<P>, key: string, since: nat)
    requires s.step > since
    ensures FreshFrom(c, s, key, since) <==> NoOldFetch(s, key, since) && NoOldEntry(c, s, key, since)
  {
    if NoOldFetch(s, key, since) && NoOldEntry(c, s, key, since) {
      forall states: seq<State<P>>, events: seq<Event<P>>, i: nat, r: Reading<P>
        | Run(c, states, events) && states[0] == s && i < |events|
          && Returned(c, states[i], events[i]) == Some((key, r))
        ensures r.step > since
      {
        FreshThroughout(c, states, events, i, key, since);
      }
    } else if !NoOldEntry(c, s, key, since) {
      OldReadingCanReturn(c, s, Hit(key), key, since, s.cache[key].project);
    } else {
      var t :| t in s.fetches && s.fetches[t].Replied? && s.fetches[t].key == key
               && s.fetches[t].reply.Some? && s.fetches[t].reply.value.step <= since;
      OldReadingCanReturn(c, s, Finish(t), key, since, s.fetches[t].reply.value);
    }
  }

  // ----- Delivered changes

  /** Every event under way is about a change that was committed before. */
  ghost predicate ChangesCommitted<P>(events: seq<Event<P>>, s: State<P>) {
    forall change :: change in s.unpublished || change in s.channel ==>
      change.step < s.step && change.step < |events|
      && events[change.step].Commit? && events[change.step].spelling == change.spelling
  }

  lemma ChangesStep<P>(c: Config, s: State<P>, e: Event<P>, change: Change)
    requires Enabled(c, s, e)
    requires change in Next(c, s, e).unpublished || change in Next(c, s, e).channel
    ensures change in s.unpublished || change in s.channel
            || (e.Commit? && change == Change(e.spelling, s.step))
  {
  }

  lemma {:induction false} CommitPrecedesDelivery<P>(c: Config, states: seq<State<P>>, events: seq<Event<P>>, i: nat)
    requires Run(c, states, events) && Init(states[0]) && i < |states|
    ensures states[i].step == i && ChangesCommitted(events, states[i])
    decreases i
  {
    if i > 0 {
      var s, t := states[i - 1], states[i];
      CommitPrecedesDelivery(c, states, events, i - 1);
      forall change | change in t.unpublished || change in t.channel
        ensures change.step < i && events[change.step].Commit? && events[change.step].spelling == change.spelling
      {
        ChangesStep(c, s, events[i - 1], change);
      }
    }
  }

  /** Eviction freshness. Once the event of a change is delivered (or the listener has cleared
      everything after the commit), `get_project` under the published spelling never again returns a
      project from before the change, exactly when no fetch that read the server before the commit
      is still unfinished. */
  lemma EvictionMakesFresh<P(!new)>(c: Config, states: seq<State<P>>, events: seq<Event<P>>, d: nat, change: Change)
    requires Run(c, states, events) && Init(states[0]) && d < |events|
    requires || events[d] == Deliver(change)
             || (events[d] == ClearAll && change.step < d && events[change.step].Commit?
                 && events[change.step].spelling == change.spelling)
    ensures change.step < d && events[change.step].Commit? && events[change.step].spelling == change.spelling
    ensures FreshFrom(c, states[d + 1], change.spelling, change.step)
            <==> NoOldFetch(states[d + 1], change.spelling, change.step)
  {
    CommitPrecedesDelivery(c, states, events, d);
    CommitPrecedesDelivery(c, states, events, d + 1);
    assert change.spelling !in states[d + 1].cache;
    FreshExactlyWhen(c, states[d + 1], change.spelling, change.step);
  }

  // ----- What the premises are for

  /** Two spellings of project 1. */
  function TwoSpellings(): Config {
    Config(60.0, 1.0, (key: string) => if key == "a" || key == "A" then Some(1) else None)
  }

  function Start(): State<int> {
    State(0.0, 0, map[1 := 10], multiset{}, multiset{}, map[], map[])
  }

  /** The state after `step` events, in terms of what differs between the two runs below. */
  function At(step: nat, committed: int, unpublished: multiset<Change>, channel: multiset<Change>,
              cached: bool, fetches: map<nat, Fetch<int>>): State<int>
  {
    State(0.0, step, map[1 := committed], unpublished, channel,
          if cached then map["a" := Entry(60.0, Reading(10, 1))] else map[], fetches)
  }

  const ASKED: map<nat, Fetch<int>> := map[0 := Asked("a")]
  const READ: map<nat, Fetch<int>> := map[0 := Replied("a", Some(Reading(10, 1)), 0.0)]

  ghost predicate Steps(s: State<int>, e: Event<int>, t: State<int>) {
    Enabled(TwoSpellings(), s, e) && t == Next(TwoSpellings(), s, e)
  }

  lemma AskAndRead()
    ensures Steps(At(0, 10, multiset{}, multiset{}, false, map[]), Ask(0, "a"),
                  At(1, 10, multiset{}, multiset{}, false, ASKED))
    ensures Steps(At(1, 10, multiset{}, multiset{}, false, ASKED), ServerRead(0),
                  At(2, 10, multiset{}, multiset{}, false, READ))
  {
  }

  lemma FinishRead(step: nat, committed: int)
    ensures Steps(At(step, committed, multiset{}, multiset{}, false, READ), Finish(0),
                  At(step + 1, committed, multiset{}, multiset{}, true, map[]))
  {
  }

  lemma ChangeAndPublish(spelling: string, step: nat, cached: bool, fetches: map<nat, Fetch<int>>)
    requires spelling == "a" || spelling == "A"
    ensures var change := Change(spelling, step);
      && Steps(At(step, 10, multiset{}, multiset{}, cached, fetches), Commit(spelling, Some(20)),
               At(step + 1, 20, multiset{change}, multiset{}, cached, fetches))
      && Steps(At(step + 1, 20, multiset{change}, multiset{}, cached, fetches), Publish(change),
               At(step + 2, 20, multiset{}, multiset{change}, cached, fetches))
  {
    assert Committed(TwoSpellings(), At(step, 10, multiset{}, multiset{}, cached, fetches), spelling) == Some(10);
  }

  lemma DeliverChange(change: Change, step: nat, cached: bool, fetches: map<nat, Fetch<int>>)
    ensures Steps(At(step, 20, multiset{}, multiset{change}, cached, fetches), Deliver(change),
                  At(step + 1, 20, multiset{}, multiset{}, cached && change.spelling != "a", fetches))
  {
  }

  lemma HitOld(step: nat)
    ensures var s := At(step, 20, multiset{}, multiset{}, true, map[]);
      && Steps(s, Hit("a"), s.(step := step + 1))
      && Returned(TwoSpellings(), s, Hit("a")) == Some(("a", Reading(10, 1)))
      && Committed(TwoSpellings(), s, "a") == Some(20)
  {
  }

  /** A fetch that read before the commit and finishes after the delivery puts the old project back:
      later calls get it from the cache while the new one is committed. */
  lemma UnfinishedFetchBringsBackOld() returns (states: seq<State<int>>, events: seq<Event<int>>)
    ensures Run(TwoSpellings(), states, events) && Init(states[0]) && |events| == 7
    ensures events[4] == Deliver(Change("a", 2)) && states[5].fetches == READ
    ensures Returned(TwoSpellings(), states[6], events[6]) == Some(("a", Reading(10, 1)))
    ensures Committed(TwoSpellings(), states[6], "a") == Some(20)
  {
    var change := Change("a", 2);
    AskAndRead();
    ChangeAndPublish("a", 2, false, READ);
    DeliverChange(change, 4, false, READ);
    FinishRead(5, 20);
    HitOld(6);
    states := [
      At(0, 10, multiset{}, multiset{}, false, map[]),
      At(1, 10, multiset{}, multiset{}, false, ASKED),
      At(2, 10, multiset{}, multiset{}, false, READ),
      At(3, 20, multiset{change}, multiset{}, false, READ),
      At(4, 20, multiset{}, multiset{change}, false, READ),
      At(5, 20, multiset{}, multiset{}, false, READ),
      At(6, 20, multiset{}, multiset{}, true, map[]),
      At(6, 20, multiset{}, multiset{}, true, map[]).(step := 7)];
    events := [Ask(0, "a"), ServerRead(0), Commit("a", Some(20)), Publish(change), Deliver(change), Finish(0),
               Hit("a")];
    RunOfSteps(states, events);
  }

  /** A change made under another spelling of the id evicts nothing that callers look up: the old
      project keeps being returned although the event was delivered and no fetch is unfinished. */
  lemma OtherSpellingStaysOld() returns (states: seq<State<int>>, events: seq<Event<int>>)
    ensures Run(TwoSpellings(), states, events) && Init(states[0]) && |events| == 7
    ensures events[5] == Deliver(Change("A", 3)) && states[6].fetches == map[]
    ensures Returned(TwoSpellings(), states[6], events[6]) == Some(("a", Reading(10, 1)))
    ensures Committed(TwoSpellings(), states[6], "a") == Some(20)
  {
    var change := Change("A", 3);
    AskAndRead();
    FinishRead(2, 10);
    ChangeAndPublish("A", 3, true, map[]);
    DeliverChange(change, 5, true, map[]);
    HitOld(6);
    states := [
      At(0, 10, multiset{}, multiset{}, false, map[]),
      At(1, 10, multiset{}, multiset{}, false, ASKED),
      At(2, 10, multiset{}, multiset{}, false, READ),
      At(3, 10, multiset{}, multiset{}, true, map[]),
      At(4, 20, multiset{change}, multiset{}, true, map[]),
      At(5, 20, multiset{}, multiset{change}, true, map[]),
      At(6, 20, multiset{}, multiset{}, true, map[]),
      At(6, 20, multiset{}, multiset{}, true, map[]).(step := 7)];
    events := [Ask(0, "a"), ServerRead(0), Finish(0), Commit("A", Some(20)), Publish(change), Deliver(change),
               Hit("a")];
    RunOfSteps(states, events);
  }

  lemma RunOfSteps(states: seq<State<int>>, events: seq<Event<int>>)
    requires |states| == 8 && |events| == 7
    requires Steps(states[0], events[0], states[1]) && Steps(states[1], events[1], states[2])
    requires Steps(states[2], events[2], states[3]) && Steps(states[3], events[3], states[4])
    requires Steps(states[4], events[4], states[5]) && Steps(states[5], events[5], states[6])
    requires Steps(states[6], events[6], states[7])
    ensures Run(TwoSpellings(), states, events)
  {
    forall i | 0 <= i < 7
      ensures Steps(states[i], events[i], states[i + 1])
    {
      if i == 0 { } else if i == 1 { } else if i == 2 { } else if i == 3 { }
      else if i == 4 { } else if i == 5 { } else { }
    }
  }
}
