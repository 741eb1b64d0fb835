/** Per-key token buckets (instant-redaction-service/utils/rate_limit.py) over exact reals.

    The clock reading is a parameter of every call. The source reads the clock before it takes the
    lock, so calls are ordered by the lock and their readings need not be; the rate bound is proved
    without assuming that they are, the other results say where they need it. */
module RateLimit {
  import opened Numbers
  import opened Wrappers

  datatype Bucket = Bucket(tokens: real, last: real)

  type Buckets = map<string, Bucket>

  /** One call of `check`, with its clock reading. */
  datatype Call = Call(key: string, scope: string, now: real)

  /** How one limit fills a bucket: its capacity, the tokens a clock reading is worth, and the
      seconds that a number of missing tokens is worth. */
  datatype Plan = Plan(capacity: real, gained: real -> real, wait: real -> real)

  /** The limit of a scope: the `client` limit when the scope has none, else no limit. */
  function PerMinute(limits: map<string, int>, scope: string): int {
    if scope in limits then limits[scope] else if "client" in limits then limits["client"] else 0
  }

  function Rate(perMinute: int): real {
    perMinute as real / 60.0
  }

  function PlanOf(perMinute: int): Plan
    requires perMinute > 0
  {
    Plan(perMinute as real, (t: real) => t * Rate(perMinute), (missing: real) => missing / Rate(perMinute))
  }

  /** The plan of a scope, none if the scope is not limited. */
  function PlanFor(limits: map<string, int>, scope: string): Option<Plan> {
    var perMinute := PerMinute(limits, scope);
    if perMinute <= 0 then None else Some(PlanOf(perMinute))
  }

  // ----- One bucket

  /** Tokens of a bucket (a full one if there is none yet) refilled up to `now`. */
  function Refilled(b: Option<Bucket>, plan: Plan, now: real): real {
    match b
    case None => plan.capacity
    case Some(prev) => Min(plan.capacity, prev.tokens + (plan.gained(now) - plan.gained(prev.last)))
  }

  /** The bucket after a call: one token less if the call was let through. */
  function Next(b: Option<Bucket>, plan: Plan, now: real): Bucket {
    var tokens := Refilled(b, plan, now);
    Bucket(if tokens >= 1.0 then tokens - 1.0 else tokens, now)
  }

  /** Nothing if the call is let through, else the seconds until one would be. */
  function Told(b: Option<Bucket>, plan: Plan, now: real): Option<real> {
    var tokens := Refilled(b, plan, now);
    if tokens >= 1.0 then None else Some(plan.wait(1.0 - tokens))
  }

  function BucketAfter(b: Option<Bucket>, plan: Plan, times: seq<real>): Option<Bucket>
    decreases |times|
  {
    if times == [] then b else BucketAfter(Some(Next(b, plan, times[0])), plan, times[1..])
  }

  function ToldAll(b: Option<Bucket>, plan: Plan, times: seq<real>): seq<Option<real>>
    decreases |times|
  {
    if times == [] then []
    else [Told(b, plan, times[0])] + ToldAll(Some(Next(b, plan, times[0])), plan, times[1..])
  }

  // ----- All buckets

  function Get(buckets: Buckets, key: string): Option<Bucket> {
    if key in buckets then Some(buckets[key]) else None
  }

  function Answer(limits: map<string, int>, buckets: Buckets, c: Call): Option<real> {
    match PlanFor(limits, c.scope)
    case None => None
    case Some(plan) => Told(Get(buckets, c.key), plan, c.now)
  }

  /** The buckets after a call. Calls without a limit leave no trace. */
  function After(limits: map<string, int>, buckets: Buckets, c: Call): Buckets {
    match PlanFor(limits, c.scope)
    case None => buckets
    case Some(plan) => buckets[c.key := Next(Get(buckets, c.key), plan, c.now)]
  }

  class RateLimiter {
    const limits: map<string, int>
    var buckets: Buckets

    constructor (perMinuteByScope: map<string, int>)
      ensures limits == perMinuteByScope && buckets == map[]
    {
      limits := perMinuteByScope;
      buckets := map[];
    }

    method Check(keyId: string, scope: string, now: real) returns (retry: Option<real>)
      modifies this`buckets
      ensures retry == Answer(limits, old(buckets), Call(keyId, scope, now))
      ensures buckets == After(limits, old(buckets), Call(keyId, scope, now))
    {
      var perMinute := if scope in limits then limits[scope]
                       else if "client" in limits then limits["client"] else 0;
      if perMinute <= 0 {
        return None;
      }
      var rate := perMinute as real / 60.0;
      var bucket := if keyId in buckets then buckets[keyId] else Bucket(perMinute as real, now);
      var tokens := Min(perMinute as real, bucket.tokens + (now - bucket.last) * rate);
      RefillInSourceTerms(bucket.last, now, rate);
      assert tokens == Refilled(Get(buckets, keyId), PlanOf(perMinute), now);
      if tokens >= 1.0 {
        buckets := buckets[keyId := Bucket(tokens - 1.0, now)];
        return None;
      }
      buckets := buckets[keyId := Bucket(tokens, now)];
      return Some((1.0 - tokens) / rate);
    }
  }

  lemma RefillInSourceTerms(last: real, now: real, rate: real)
    ensures (now - last) * rate == now * rate - last * rate
    ensures last == now ==> (now - last) * rate == 0.0
  {
  }

  // ----- Runs of calls by many keys

  function RunAll(limits: map<string, int>, buckets: Buckets, calls: seq<Call>): Buckets
    decreases |calls|
  {
    if calls == [] then buckets else RunAll(limits, After(limits, buckets, calls[0]), calls[1..])
  }

  /** The answers that the calls of `key` get, in order. */
  function Answers(limits: map<string, int>, buckets: Buckets, calls: seq<Call>, key: string): (r: seq<Option<real>>)
    ensures |r| == |Times(calls, key)|
    decreases |calls|
  {
    if calls == [] then []
    else
      (if calls[0].key == key then [Answer(limits, buckets, calls[0])] else [])
      + Answers(limits, After(limits, buckets, calls[0]), calls[1..], key)
  }

  /** The clock readings of the calls of `key`, in order. */
  function Times(calls: seq<Call>, key: string): seq<real>
    decreases |calls|
  {
    if calls == [] then []
    else (if calls[0].key == key then [calls[0].now] else []) + Times(calls[1..], key)
  }

  /** Every call of `key` falls under the limit `perMinute`. */
  predicate OneLimit(limits: map<string, int>, calls: seq<Call>, key: string, perMinute: int) {
    forall i :: 0 <= i < |calls| && calls[i].key == key ==> PerMinute(limits, calls[i].scope) == perMinute
  }

  /** Keys are independent: whatever the other keys do in between, the calls of one key get the
      answers, and leave the bucket, that they would alone. */
  lemma {:induction false} KeysAreIndependent(limits: map<string, int>, buckets: Buckets, calls: seq<Call>,
                                              key: string, perMinute: int)
    requires perMinute > 0 && OneLimit(limits, calls, key, perMinute)
    ensures Answers(limits, buckets, calls, key)
            == ToldAll(Get(buckets, key), PlanOf(perMinute), Times(calls, key))
    ensures Get(RunAll(limits, buckets, calls), key)
            == BucketAfter(Get(buckets, key), PlanOf(perMinute), Times(calls, key))
    decreases |calls|
  {
    if calls != [] {
      var c := calls[0];
      var next := After(limits, buckets, c);
      KeysAreIndependent(limits, next, calls[1..], key, perMinute);
      if c.key == key {
        assert Get(next, key) == Some(Next(Get(buckets, key), PlanOf(perMinute), c.now));
        assert Times(calls, key)[1..] == Times(calls[1..], key);
      } else {
        assert Get(next, key) == Get(buckets, key);
        assert Times(calls, key) == Times(calls[1..], key);
      }
    }
  }

  // ----- Plans

  /** What every plan of a positive limit satisfies: at least one token fits, and refilling is
      strictly increasing. */
  ghost predicate ValidPlan(plan: Plan) {
    plan.capacity >= 1.0 && forall s, t :: s < t ==> plan.gained(s) < plan.gained(t)
  }

  /** The wait for the tokens gained from some reading up to `ready` is the time between the two. */
  ghost predicate WaitIsExact(plan: Plan, ready: real) {
    forall t :: t < ready ==> plan.wait(plan.gained(ready) - plan.gained(t)) == ready - t
  }

  lemma PlansAreValid(perMinute: int)
    requires perMinute > 0
    ensures ValidPlan(PlanOf(perMinute))
  {
  }

  lemma WaitsAreExact(perMinute: int, ready: real)
    requires perMinute > 0
    ensures WaitIsExact(PlanOf(perMinute), ready)
  {
  }

  lemma Nondecreasing(plan: Plan, s: real, t: real)
    requires ValidPlan(plan) && s <= t
    ensures plan.gained(s) <= plan.gained(t)
  {
  }

  // ----- The rate bound

  /** How many of the calls with a reading in [t1, t2] are let through. */
  function Admitted(times: seq<real>, answers: seq<Option<real>>, t1: real, t2: real): nat
    requires |times| == |answers|
  {
    if times == [] then 0
    else (if t1 <= times[0] <= t2 && answers[0] == None then 1 else 0)
         + Admitted(times[1..], answers[1..], t1, t2)
  }

  /** The most a bucket can still give in [t1, t2]. The level `tokens - gained(last)` is what matters:
      refilling keeps it, admitting lowers it by one and the cap can only lower it, so it never
      rises, whatever the clock readings are. */
  function Allowance(b: Option<Bucket>, plan: Plan, t1: real, t2: real): real {
    var cap := plan.capacity - plan.gained(t1);
    (if b.Some? then Min(cap, b.value.tokens - plan.gained(b.value.last)) else cap) + plan.gained(t2)
  }

  lemma AllowanceAfter(b: Option<Bucket>, plan: Plan, now: real, t1: real, t2: real)
    requires ValidPlan(plan)
    ensures Allowance(Some(Next(b, plan, now)), plan, t1, t2) <= Allowance(b, plan, t1, t2)
    ensures t1 <= now <= t2 && Told(b, plan, now) == None ==>
              && Allowance(b, plan, t1, t2) >= 1.0
              && Allowance(Some(Next(b, plan, now)), plan, t1, t2) <= Allowance(b, plan, t1, t2) - 1.0
  {
  }

  lemma {:induction false} AdmittedWithinAllowance(b: Option<Bucket>, plan: Plan, times: seq<real>, t1: real, t2: real)
    requires ValidPlan(plan)
    ensures |ToldAll(b, plan, times)| == |times|
    ensures Admitted(times, ToldAll(b, plan, times), t1, t2) == 0
            || Admitted(times, ToldAll(b, plan, times), t1, t2) as real <= Allowance(b, plan, t1, t2)
    decreases |times|
  {
    if times != [] {
      AllowanceAfter(b, plan, times[0], t1, t2);
      AdmittedWithinAllowance(Some(Next(b, plan, times[0])), plan, times[1..], t1, t2);
      assert ToldAll(b, plan, times)[1..] == ToldAll(Some(Next(b, plan, times[0])), plan, times[1..]);
    }
  }

  /** The rate bound: whatever the buckets were, in whatever order the calls came and whatever the
      clock read, at most `perMinute + rate * (t2 - t1)` calls of a key are let through in [t1, t2]. */
  lemma RateBound(limits: map<string, int>, buckets: Buckets, calls: seq<Call>,
                  key: string, perMinute: int, t1: real, t2: real)
    requires perMinute > 0 && OneLimit(limits, calls, key, perMinute) && t1 <= t2
    ensures Admitted(Times(calls, key), Answers(limits, buckets, calls, key), t1, t2) as real
            <= perMinute as real + (t2 - t1) * Rate(perMinute)
  {
    var plan, times, b := PlanOf(perMinute), Times(calls, key), Get(buckets, key);
    KeysAreIndependent(limits, buckets, calls, key, perMinute);
    PlansAreValid(perMinute);
    AdmittedWithinAllowance(b, plan, times, t1, t2);
    AllowanceInSourceTerms(b, perMinute, t1, t2);
  }

  lemma AllowanceInSourceTerms(b: Option<Bucket>, perMinute: int, t1: real, t2: real)
    requires perMinute > 0 && t1 <= t2
    ensures 0.0 <= perMinute as real + (t2 - t1) * Rate(perMinute)
    ensures Allowance(b, PlanOf(perMinute), t1, t2) <= perMinute as real + (t2 - t1) * Rate(perMinute)
  {
  }

  /** The bound is reached: with n tokens left, n calls at one instant are let through and the
      next one is refused. A fresh bucket so gives its whole capacity at once. */
  lemma {:induction false} BurstIsAdmitted(b: Option<Bucket>, plan: Plan, now: real, n: nat)
    requires ValidPlan(plan) && Refilled(b, plan, now) == n as real
    ensures ToldAll(b, plan, seq(n, _ => now)) == seq(n, _ => None)
    ensures Told(BucketAfter(b, plan, seq(n, _ => now)), plan, now) != None
    decreases n
  {
    if n > 0 {
      assert seq(n, _ => now)[1..] == seq(n - 1, _ => now);
      BurstIsAdmitted(Some(Next(b, plan, now)), plan, now, n - 1);
    }
  }

  // ----- What the limits mean, scope by scope

  /** n calls of one key and scope at one instant. */
  function Burst(key: string, scope: string, now: real, n: nat): seq<Call> {
    seq(n, _ => Call(key, scope, now))
  }

  lemma {:induction false} TimesOfBurst(key: string, scope: string, now: real, n: nat)
    ensures Times(Burst(key, scope, now, n), key) == seq(n, _ => now)
    decreases n
  {
    if n > 0 {
      assert Burst(key, scope, now, n)[1..] == Burst(key, scope, now, n - 1);
      TimesOfBurst(key, scope, now, n - 1);
      assert seq(n, _ => now) == [now] + seq(n - 1, _ => now);
    }
  }

  lemma SixtyOver(perMinute: real)
    requires perMinute > 0.0
    ensures 1.0 / (perMinute / 60.0) == 60.0 / perMinute
  {
    var rate, wait := perMinute / 60.0, 60.0 / perMinute;
    assert wait * perMinute == 60.0;
    assert wait * rate == wait * perMinute / 60.0 == 1.0;
  }

  lemma {:induction false} DrainedBucket(b: Option<Bucket>, plan: Plan, now: real, n: nat)
    requires ValidPlan(plan) && n > 0 && Refilled(b, plan, now) == n as real && plan.capacity >= n as real
    ensures BucketAfter(b, plan, seq(n, _ => now)) == Some(Bucket(0.0, now))
    decreases n
  {
    var times, next := seq(n, _ => now), Next(b, plan, now);
    assert times[1..] == seq(n - 1, _ => now);
    assert next == Bucket((n - 1) as real, now);
    if n > 1 {
      DrainedBucket(Some(next), plan, now, n - 1);
    }
  }

  /** A scope with a positive limit in the map: a key without a bucket is let through exactly that many times
      at one instant; the next call is refused and told to wait for 60 seconds over the limit. */
  lemma LimitOfScope(limits: map<string, int>, buckets: Buckets, key: string, scope: string, now: real)
    requires scope in limits && limits[scope] > 0 && key !in buckets
    ensures var calls := Burst(key, scope, now, limits[scope]);
            && Answers(limits, buckets, calls, key) == seq(limits[scope], _ => None)
            && Answer(limits, RunAll(limits, buckets, calls), Call(key, scope, now))
                == Some(60.0 / limits[scope] as real)
  {
    var n, plan := limits[scope], PlanOf(limits[scope]);
    var calls := Burst(key, scope, now, n);
    PlansAreValid(n);
    KeysAreIndependent(limits, buckets, calls, key, n);
    TimesOfBurst(key, scope, now, n);
    BurstIsAdmitted(None, plan, now, n);
    DrainedBucket(None, plan, now, n);
    SixtyOver(n as real);
    assert Refilled(Some(Bucket(0.0, now)), plan, now) == 0.0;
  }

  /** A limit of zero or less is no limit: every call of the scope is let through and leaves no trace. */
  lemma NoLimit(limits: map<string, int>, buckets: Buckets, c: Call)
    requires c.scope in limits && limits[c.scope] <= 0
    ensures Answer(limits, buckets, c) == None && After(limits, buckets, c) == buckets
  {
  }

  /** A scope that the map does not name is limited as "client" is; if the map does not name that either, every
      call is let through and leaves no trace. */
  lemma OtherScopes(limits: map<string, int>, buckets: Buckets, c: Call)
    requires c.scope !in limits
    ensures "client" in limits ==>
      && Answer(limits, buckets, c) == Answer(limits, buckets, c.(scope := "client"))
      && After(limits, buckets, c) == After(limits, buckets, c.(scope := "client"))
    ensures "client" !in limits ==> Answer(limits, buckets, c) == None && After(limits, buckets, c) == buckets
  {
  }

  /** The rate bound in terms of the map: at most the limit of the scope, plus a sixtieth of it per second. */
  lemma RateBoundOfScope(limits: map<string, int>, buckets: Buckets, calls: seq<Call>,
                         key: string, scope: string, t1: real, t2: real)
    requires scope in limits && limits[scope] > 0 && t1 <= t2
    requires forall i :: 0 <= i < |calls| && calls[i].key == key ==> calls[i].scope == scope
    ensures Admitted(Times(calls, key), Answers(limits, buckets, calls, key), t1, t2) as real
            <= limits[scope] as real + (t2 - t1) * (limits[scope] as real / 60.0)
  {
    RateBound(limits, buckets, calls, key, limits[scope], t1, t2);
  }

  // ----- The range of the tokens

  /** Readings never go back, and start no earlier than the last use of the bucket. */
  predicate Forward(b: Option<Bucket>, times: seq<real>)
    decreases |times|
  {
    times == []
    || ((b.Some? ==> b.value.last <= times[0]) && Forward(Some(Bucket(0.0, times[0])), times[1..]))
  }

  predicate InRange(b: Option<Bucket>, plan: Plan) {
    b.Some? ==> 0.0 <= b.value.tokens <= plan.capacity
  }

  lemma ForwardIgnoresTokens(b: Bucket, times: seq<real>)
    requires Forward(Some(Bucket(0.0, b.last)), times)
    ensures Forward(Some(b), times)
  {
  }

  lemma {:induction false} BucketInRange(b: Option<Bucket>, plan: Plan, times: seq<real>)
    requires ValidPlan(plan) && Forward(b, times) && InRange(b, plan)
    ensures InRange(BucketAfter(b, plan, times), plan)
    decreases |times|
  {
    if times != [] {
      if b.Some? {
        Nondecreasing(plan, b.value.last, times[0]);
      }
      ForwardIgnoresTokens(Next(b, plan, times[0]), times[1..]);
      BucketInRange(Some(Next(b, plan, times[0])), plan, times[1..]);
    }
  }

  /** Under a clock that never goes back the tokens of a key stay between nothing and its limit. */
  lemma TokensInRange(limits: map<string, int>, buckets: Buckets, calls: seq<Call>, key: string, perMinute: int)
    requires perMinute > 0 && OneLimit(limits, calls, key, perMinute)
    requires Forward(Get(buckets, key), Times(calls, key)) && InRange(Get(buckets, key), PlanOf(perMinute))
    ensures InRange(Get(RunAll(limits, buckets, calls), key), PlanOf(perMinute))
  {
    KeysAreIndependent(limits, buckets, calls, key, perMinute);
    PlansAreValid(perMinute);
    BucketInRange(Get(buckets, key), PlanOf(perMinute), Times(calls, key));
  }

  /** A reading may go back by no more than the time that the tokens are worth. */
  predicate Tolerable(b: Option<Bucket>, perMinute: int, now: real)
    requires perMinute > 0
  {
    b.Some? ==> b.value.last - now <= b.value.tokens / Rate(perMinute)
  }

  lemma StepInRangeExactlyWhen(b: Option<Bucket>, perMinute: int, now: real)
    requires perMinute > 0 && InRange(b, PlanOf(perMinute))
    ensures InRange(Some(Next(b, PlanOf(perMinute), now)), PlanOf(perMinute)) <==> Tolerable(b, perMinute, now)
  {
    if b.Some? {
      DebtInTime(b.value.tokens, b.value.last, now, Rate(perMinute));
    }
  }

  lemma DebtInTime(tokens: real, last: real, now: real, rate: real)
    requires rate > 0.0
    ensures last - now <= tokens / rate <==> tokens + (now * rate - last * rate) >= 0.0
  {
    var worth := tokens / rate;
    assert worth * rate == tokens;
    if last - now <= worth {
      ProductMonotone(last - now, worth, rate);
    } else {
      assert (last - now - worth) * rate > 0.0;
    }
  }

  /** Every reading of the calls is tolerable for the bucket it meets. */
  predicate AllTolerable(b: Option<Bucket>, perMinute: int, times: seq<real>)
    requires perMinute > 0
    decreases |times|
  {
    times == []
    || (Tolerable(b, perMinute, times[0])
        && AllTolerable(Some(Next(b, PlanOf(perMinute), times[0])), perMinute, times[1..]))
  }

  /** The tokens of `key` are in range in every state that the run passes through. */
  ghost predicate InRangeThroughout(limits: map<string, int>, buckets: Buckets, calls: seq<Call>, key: string,
                                    plan: Plan)
    decreases |calls|
  {
    && InRange(Get(buckets, key), plan)
    && (calls != [] ==> InRangeThroughout(limits, After(limits, buckets, calls[0]), calls[1..], key, plan))
  }

  /** In any run, whatever its readings, the tokens of a key stay between nothing and its limit exactly when
      no reading of its calls goes back by more than the tokens it meets are worth. */
  lemma {:induction false} TokensInRangeExactlyWhen(limits: map<string, int>, buckets: Buckets, calls: seq<Call>,
                                                    key: string, perMinute: int)
    requires perMinute > 0 && OneLimit(limits, calls, key, perMinute) && InRange(Get(buckets, key), PlanOf(perMinute))
    ensures InRangeThroughout(limits, buckets, calls, key, PlanOf(perMinute))
            <==> AllTolerable(Get(buckets, key), perMinute, Times(calls, key))
    decreases |calls|
  {
    if calls != [] {
      var c, b, next := calls[0], Get(buckets, key), After(limits, buckets, calls[0]);
      if c.key == key {
        assert Get(next, key) == Some(Next(b, PlanOf(perMinute), c.now));
        assert Times(calls, key)[0] == c.now && Times(calls, key)[1..] == Times(calls[1..], key);
        StepInRangeExactlyWhen(b, perMinute, c.now);
      } else {
        assert Get(next, key) == b && Times(calls, key) == Times(calls[1..], key);
      }
      if InRange(Get(next, key), PlanOf(perMinute)) {
        TokensInRangeExactlyWhen(limits, next, calls[1..], key, perMinute);
      }
    }
  }

  /** It happens: two calls whose readings reach the lock in the wrong order leave a negative number of
      tokens. The rate bound holds all the same. */
  lemma TokensCanTurnNegative()
    ensures RunAll(map["client" := 1], map[], [Call("k", "client", 60.0), Call("k", "client", 30.0)])
            == map["k" := Bucket(-0.5, 30.0)]
  {
  }

  // ----- Retry times

  /** Refilling in two steps is refilling in one: min(P, min(P, x + a) + b) == min(P, x + a + b), where b
      is not negative. So looking at a bucket without taking a token does not change what it holds later. */
  lemma RefillsCompose(b: Option<Bucket>, plan: Plan, now: real, later: real)
    requires ValidPlan(plan) && now <= later
    ensures Refilled(Some(Bucket(Refilled(b, plan, now), now)), plan, later) == Refilled(b, plan, later)
  {
    Nondecreasing(plan, now, later);
  }

  /** A bucket that will let the next call through from `ready` on, and not before. */
  predicate ReadyAt(b: Bucket, plan: Plan, ready: real) {
    b.last < ready && b.tokens == 1.0 - (plan.gained(ready) - plan.gained(b.last))
  }

  lemma ReadyDecides(b: Bucket, plan: Plan, now: real, ready: real)
    requires ValidPlan(plan) && WaitIsExact(plan, ready) && ReadyAt(b, plan, ready) && b.last <= now
    ensures Told(Some(b), plan, now) == if ready <= now then None else Some(ready - now)
    ensures now < ready ==> ReadyAt(Next(Some(b), plan, now), plan, ready)
  {
  }

  /** The waits that calls before `ready` should be told. */
  function Waits(times: seq<real>, ready: real): seq<Option<real>> {
    if times == [] then [] else [Some(ready - times[0])] + Waits(times[1..], ready)
  }

  lemma {:induction false} PollingIsRefused(b: Bucket, plan: Plan, times: seq<real>, last: real, ready: real)
    requires ValidPlan(plan) && WaitIsExact(plan, ready) && ReadyAt(b, plan, ready)
    requires Forward(Some(b), times + [last])
    requires forall i :: 0 <= i < |times| ==> times[i] < ready
    ensures ToldAll(Some(b), plan, times) == Waits(times, ready)
    ensures Told(BucketAfter(Some(b), plan, times), plan, last) == if ready <= last then None else Some(ready - last)
    decreases |times|
  {
    if times == [] {
      assert times + [last] == [last];
      ReadyDecides(b, plan, last, ready);
    } else {
      var next := Next(Some(b), plan, times[0]);
      assert (times + [last])[0] == times[0] && (times + [last])[1..] == times[1..] + [last];
      ReadyDecides(b, plan, times[0], ready);
      ForwardIgnoresTokens(next, times[1..] + [last]);
      PollingIsRefused(next, plan, times[1..], last, ready);
      assert BucketAfter(Some(b), plan, times) == BucketAfter(Some(next), plan, times[1..]);
      assert ToldAll(Some(b), plan, times) == [Some(ready - times[0])] + ToldAll(Some(next), plan, times[1..]);
    }
  }

  lemma RefusalSetsReady(b: Option<Bucket>, perMinute: int, now: real, wait: real)
    requires perMinute > 0 && Told(b, PlanOf(perMinute), now) == Some(wait)
    ensures ReadyAt(Next(b, PlanOf(perMinute), now), PlanOf(perMinute), now + wait)
  {
  }

  /** Retry times are exact and polling is harmless: after a refusal at `first` with wait w, further
      calls before `first + w` are refused, each told exactly the time that is left, and the next
      call is let through if and only if w has passed. */
  lemma RetryTimeIsExact(b: Option<Bucket>, perMinute: int, first: real, wait: real, polls: seq<real>, last: real)
    requires perMinute > 0 && Told(b, PlanOf(perMinute), first) == Some(wait)
    requires Forward(Some(Bucket(0.0, first)), polls + [last])
    requires forall i :: 0 <= i < |polls| ==> polls[i] < first + wait
    ensures ToldAll(Some(Next(b, PlanOf(perMinute), first)), PlanOf(perMinute), polls) == Waits(polls, first + wait)
    ensures Told(BucketAfter(Some(Next(b, PlanOf(perMinute), first)), PlanOf(perMinute), polls),
                 PlanOf(perMinute), last)
            == if first + wait <= last then None else Some(first + wait - last)
  {
    var next := Next(b, PlanOf(perMinute), first);
    PlansAreValid(perMinute);
    WaitsAreExact(perMinute, first + wait);
    RefusalSetsReady(b, perMinute, first, wait);
    ForwardIgnoresTokens(next, polls + [last]);
    PollingIsRefused(next, PlanOf(perMinute), polls, last, first + wait);
  }

  lemma {:induction false} BucketAfterConcat(b: Option<Bucket>, plan: Plan, x: seq<real>, y: seq<real>)
    ensures BucketAfter(b, plan, x + y) == BucketAfter(BucketAfter(b, plan, x), plan, y)
    decreases |x|
  {
    if x == [] {
      assert x + y == y;
    } else {
      assert (x + y)[1..] == x[1..] + y;
      BucketAfterConcat(Some(Next(b, plan, x[0])), plan, x[1..], y);
    }
  }

  lemma {:induction false} ToldAllAt(b: Option<Bucket>, plan: Plan, times: seq<real>, i: nat)
    requires i < |times|
    ensures |ToldAll(b, plan, times)| == |times|
    ensures ToldAll(b, plan, times)[i] == Told(BucketAfter(b, plan, times[..i]), plan, times[i])
    decreases |times|
  {
    var next := Some(Next(b, plan, times[0]));
    if |times| > 1 {
      ToldAllAt(next, plan, times[1..], if i == 0 then 0 else i - 1);
    }
    if i > 0 {
      assert times[..i][1..] == times[1..][..i - 1];
    }
  }

  lemma RetryTimeAt(b: Option<Bucket>, perMinute: int, times: seq<real>, i: nat, j: nat, wait: real)
    requires perMinute > 0 && i < j < |times|
    requires Told(BucketAfter(b, PlanOf(perMinute), times[..i]), PlanOf(perMinute), times[i]) == Some(wait)
    requires Forward(Some(Bucket(0.0, times[i])), times[i + 1..j + 1])
    requires forall k :: i < k < j ==> times[k] < times[i] + wait
    ensures Told(BucketAfter(b, PlanOf(perMinute), times[..j]), PlanOf(perMinute), times[j])
            == if times[i] + wait <= times[j] then None else Some(times[i] + wait - times[j])
  {
    var plan, polls := PlanOf(perMinute), times[i + 1..j];
    var before := BucketAfter(b, plan, times[..i]);
    assert times[i + 1..j + 1] == polls + [times[j]];
    RetryTimeIsExact(before, perMinute, times[i], wait, polls, times[j]);
    assert times[..j] == times[..i] + ([times[i]] + polls);
    BucketAfterConcat(b, plan, times[..i], [times[i]] + polls);
    assert ([times[i]] + polls)[1..] == polls;
  }

  /** The same over a run with other keys in between: once call i of a key is refused with wait w, and none
      of its calls up to call j comes after that wait, call j is let through exactly when the wait has
      passed, and is told the time left otherwise. */
  lemma RetryTimeInRun(limits: map<string, int>, buckets: Buckets, calls: seq<Call>, key: string, perMinute: int,
                       i: nat, j: nat, wait: real)
    requires perMinute > 0 && OneLimit(limits, calls, key, perMinute) && i < j < |Times(calls, key)|
    requires Answers(limits, buckets, calls, key)[i] == Some(wait)
    requires Forward(Some(Bucket(0.0, Times(calls, key)[i])), Times(calls, key)[i + 1..j + 1])
    requires forall k :: i < k < j ==> Times(calls, key)[k] < Times(calls, key)[i] + wait
    ensures var times := Times(calls, key);
            Answers(limits, buckets, calls, key)[j]
            == if times[i] + wait <= times[j] then None else Some(times[i] + wait - times[j])
  {
    var times, plan, b := Times(calls, key), PlanOf(perMinute), Get(buckets, key);
    KeysAreIndependent(limits, buckets, calls, key, perMinute);
    ToldAllAt(b, plan, times, i);
    ToldAllAt(b, plan, times, j);
    RetryTimeAt(b, perMinute, times, i, j, wait);
  }

  // ----- The Retry-After header (instant-redaction-service/dependencies.py)

  /** Whole seconds advertised for a wait. */
  function RetryAfter(wait: real): int {
    var s := (wait + 0.999).Floor;
    if s < 1 then 1 else s
  }

  /** The advertised seconds cover the wait unless the wait ends less than a millisecond after a
      full second; then a client that obeys the header is refused once more. */
  lemma RetryAfterCoversWait(wait: real)
    requires wait > 0.0
    ensures wait <= RetryAfter(wait) as real
            <==> wait <= 1.0 || wait == wait.Floor as real || wait - wait.Floor as real >= 0.001
    ensures RetryAfter(wait) >= 1 && (RetryAfter(wait) == 1 || RetryAfter(wait) as real <= wait + 0.999)
    ensures RetryAfter(1.0005) == 1
  {
    var f, s := wait.Floor, (wait + 0.999).Floor;
    if wait - f as real < 0.001 {
      FloorIs(wait + 0.999, f);
    } else {
      FloorIs(wait + 0.999, f + 1);
    }
  }

  ghost predicate Covered(told: Option<real>) {
    told.Some? ==> told.value <= RetryAfter(told.value) as real
  }

  /** Whatever the limiter tells a new key under a clock that never goes back, the header covers it. */
  ghost predicate HeaderCovers(perMinute: int)
    requires perMinute > 0
  {
    forall times: seq<real>, now: real :: Forward(None, times + [now]) ==>
      Covered(Told(BucketAfter(None, PlanOf(perMinute), times), PlanOf(perMinute), now))
  }

  lemma {:induction false} ForwardSplit(b: Option<Bucket>, plan: Plan, times: seq<real>, now: real)
    requires Forward(b, times + [now])
    ensures Forward(b, times)
    ensures var after := BucketAfter(b, plan, times); after.Some? ==> after.value.last <= now
    decreases |times|
  {
    if times == [] {
      assert times + [now] == [now];
    } else {
      var next := Next(b, plan, times[0]);
      assert (times + [now])[0] == times[0] && (times + [now])[1..] == times[1..] + [now];
      ForwardIgnoresTokens(next, times[1..] + [now]);
      ForwardSplit(Some(next), plan, times[1..], now);
      ForwardSplit(Some(Bucket(0.0, times[0])), plan, times[1..], now);
    }
  }

  lemma ShortWaits(tokens: real, rate: real)
    requires rate >= 1.0 && 0.0 <= tokens < 1.0
    ensures (1.0 - tokens) / rate <= 1.0
  {
    var wait := (1.0 - tokens) / rate;
    assert wait * rate == 1.0 - tokens;
    if wait > 1.0 {
      ProductMonotone(1.0, wait, rate);
    }
  }

  lemma {:induction false} ForwardAppend(b: Option<Bucket>, n: nat, now: real)
    requires now >= 0.0 && (b.Some? ==> b.value.last <= 0.0 && (n == 0 ==> b.value.last <= now))
    ensures Forward(b, seq(n, _ => 0.0) + [now])
    decreases n
  {
    var times := seq(n, _ => 0.0);
    if n == 0 {
      assert times + [now] == [now];
    } else {
      assert (times + [now])[1..] == seq(n - 1, _ => 0.0) + [now];
      ForwardAppend(Some(Bucket(0.0, 0.0)), n - 1, now);
    }
  }

  lemma SlowFacts(rate: real, now: real)
    requires 0.0 < rate <= 59.0 / 60.0 && now == 1.0 / rate - 1.0005
    ensures now >= 0.0 && now * rate == 1.0 - 1.0005 * rate && (1.0005 * rate) / rate == 1.0005
  {
    var inverse := 1.0 / rate;
    assert inverse * rate == 1.0;
    if inverse < 1.0005 {
      ProductMonotone(inverse, 1.0005, rate);
    }
  }

  lemma SlowRefill(perMinute: int) returns (now: real)
    requires 0 < perMinute < 60
    ensures now >= 0.0 && Told(Some(Bucket(0.0, 0.0)), PlanOf(perMinute), now) == Some(1.0005)
  {
    var rate := Rate(perMinute);
    now := 1.0 / rate - 1.0005;
    SlowFacts(rate, now);
    var tokens := Refilled(Some(Bucket(0.0, 0.0)), PlanOf(perMinute), now);
    assert tokens == 1.0 - 1.0005 * rate;
    assert 1.0 - tokens == 1.0005 * rate;
  }

  /** One that it does not cover: with 30 calls a minute an empty bucket is told 1.0005 after 0.9995 seconds,
      and the header says 1. */
  lemma HeaderFallsShort()
    ensures Told(Some(Bucket(0.0, 0.0)), PlanOf(30), 0.9995) == Some(1.0005) && RetryAfter(1.0005) == 1
  {
    RetryAfterCoversWait(1.0005);
  }

  /** The header covers every wait that the limiter gives, in every run, exactly from 60 calls a minute on. */
  lemma HeaderCoversExactlyWhen(perMinute: int)
    requires perMinute > 0
    ensures HeaderCovers(perMinute) <==> perMinute >= 60
  {
    var plan := PlanOf(perMinute);
    PlansAreValid(perMinute);
    if perMinute >= 60 {
      forall times: seq<real>, now: real | Forward(None, times + [now])
        ensures Covered(Told(BucketAfter(None, plan, times), plan, now))
      {
        HeaderCoversRun(perMinute, times, now);
      }
    } else {
      var now := SlowRefill(perMinute);
      var times := seq(perMinute, _ => 0.0);
      DrainedBucket(None, plan, 0.0, perMinute);
      ForwardAppend(None, perMinute, now);
      RetryAfterCoversWait(1.0005);
      assert Forward(None, times + [now]) && !Covered(Told(BucketAfter(None, plan, times), plan, now));
    }
  }

  lemma HeaderCoversRun(perMinute: int, times: seq<real>, now: real)
    requires perMinute >= 60 && Forward(None, times + [now])
    ensures Covered(Told(BucketAfter(None, PlanOf(perMinute), times), PlanOf(perMinute), now))
  {
    var plan := PlanOf(perMinute);
    PlansAreValid(perMinute);
    ForwardSplit(None, plan, times, now);
    BucketInRange(None, plan, times);
    var b := BucketAfter(None, plan, times);
    if b.Some? {
      Nondecreasing(plan, b.value.last, now);
    }
    var tokens := Refilled(b, plan, now);
    if tokens < 1.0 {
      ShortWaits(tokens, Rate(perMinute));
    }
  }
}
