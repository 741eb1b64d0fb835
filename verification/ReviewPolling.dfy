/** Waiting for a reviewer and releasing the payload (guardrail-sdk: `wait_for_escalation` in client.py,
    `_checked`, `_after_review` and the two `_guard` hooks in hooks.py).

    The gateway's answers and the clock readings of a run are given as sequences: the i-th poll gets
    `answer(i)`, the deadline test after it reads `test(i)` and the sleep is computed from `rest(i)`. */
module ReviewPolling {
  import opened Numbers
  import opened Wrappers

  datatype ReviewStatus = Pending | Approved | Rejected | Expired

  /** Answer to a poll; `payload` is the held payload, still to be validated. */
  datatype Escalation<R> = Escalation(status: ReviewStatus, payload: Option<R>)

  datatype Decision = Allow | Modify | Escalate | Block

  datatype Response<P> = Response(
    decision: Decision, verify: bool, verification: bool, payload: Option<P>, escalationId: string)

  /** What a hook raises. */
  datatype Raised = VerificationRequired | Escalated | Blocked | GatewayError | InvalidPayload | NegativeSleep

  /** The surroundings of one run; an answer is `Err` when the gateway cannot be reached or refuses. */
  datatype Env<R> = Env(
    start: real, answer: nat -> Result<Escalation<R>, Raised>, test: nat -> real, rest: nat -> real)

  /** How long poll i is followed by a sleep. */
  function SleepTime<R>(env: Env<R>, timeout: real, poll: real, i: nat): real {
    Min(poll, Max(0.0, env.start + timeout - env.rest(i)))
  }

  /** Between poll i and the next one the clock does not go back, and the sleep takes at least as long
      as asked for. */
  ghost predicate ClockStep<R>(env: Env<R>, timeout: real, poll: real, i: nat) {
    env.test(i) <= env.rest(i) && env.rest(i) + SleepTime(env, timeout, poll, i) <= env.test(i + 1)
  }

  ghost predicate ClockLaw<R>(env: Env<R>, timeout: real, poll: real) {
    env.start <= env.test(0) && forall i: nat :: ClockStep(env, timeout, poll, i)
  }

  /** The loop goes on after poll i. */
  predicate GoesOn<R>(env: Env<R>, timeout: real, i: nat) {
    env.answer(i).Ok? && env.answer(i).value.status == Pending && env.test(i) < env.start + timeout
  }

  /** Poll `last` is the one at which the loop ends. */
  ghost predicate EndsAt<R>(env: Env<R>, timeout: real, last: nat) {
    !GoesOn(env, timeout, last) && forall i :: 0 <= i < last ==> GoesOn(env, timeout, i)
  }

  /** i times the interval. */
  function Elapsed(poll: real, i: nat): real {
    if i == 0 then 0.0 else Elapsed(poll, i - 1) + poll
  }

  lemma {:induction false} ElapsedIsProduct(poll: real, i: nat)
    ensures Elapsed(poll, i) == i as real * poll
  {
    if i > 0 {
      ElapsedIsProduct(poll, i - 1);
      NextMultiple((i - 1) as real, poll);
    }
  }

  lemma NextMultiple(x: real, p: real)
    ensures x * p + p == (x + 1.0) * p
  {
  }

  lemma QuotientPositive(timeout: real, poll: real)
    requires poll > 0.0 && timeout > 0.0
    ensures timeout / poll > 0.0 && timeout / poll * poll == timeout
  {
  }

  /** The number of polls that is always enough for a positive interval. */
  function PollBound(timeout: real, poll: real): (n: nat)
    requires poll > 0.0
    ensures n >= 1
  {
    if timeout > 0.0 then
      QuotientPositive(timeout, poll);
      Ceiling(timeout / poll) + 1
    else 1
  }

  lemma BoundCoversTimeout(timeout: real, poll: real)
    requires poll > 0.0
    ensures timeout <= Elapsed(poll, PollBound(timeout, poll) - 1)
  {
    if timeout > 0.0 {
      QuotientPositive(timeout, poll);
      var q, n := timeout / poll, Ceiling(timeout / poll);
      assert q <= n as real && n >= 0;
      ElapsedIsProduct(poll, n);
      ProductMonotone(q, n as real, poll);
    }
  }

  /** One poll at the start, and one for each interval begun before the timeout: one interval fewer would not
      cover it. */
  lemma PollBoundIsLeast(timeout: real, poll: real)
    requires poll > 0.0
    ensures timeout <= 0.0 ==> PollBound(timeout, poll) == 1
    ensures timeout > 0.0 ==>
      Elapsed(poll, PollBound(timeout, poll) - 1) >= timeout && PollBound(timeout, poll) >= 2
      && Elapsed(poll, PollBound(timeout, poll) - 2) < timeout
  {
    BoundCoversTimeout(timeout, poll);
    if timeout > 0.0 {
      QuotientPositive(timeout, poll);
      var q, n := timeout / poll, Ceiling(timeout / poll);
      ElapsedBelow(poll, n - 1, q, timeout);
    }
  }

  lemma ElapsedBelow(poll: real, i: nat, q: real, timeout: real)
    requires poll > 0.0 && i as real < q && q * poll == timeout
    ensures Elapsed(poll, i) < timeout
  {
    ElapsedIsProduct(poll, i);
    var x, y := i as real * poll, q * poll;
    StrictProduct(i as real, q, poll);
    assert x < y;
  }

  lemma StrictProduct(x: real, y: real, p: real)
    requires x < y && p > 0.0
    ensures x * p < y * p
  {
  }

  /** After i polls either i whole intervals have passed or the deadline has. */
  lemma {:induction false} TimePasses<R>(env: Env<R>, timeout: real, poll: real, i: nat)
    requires poll > 0.0 && ClockLaw(env, timeout, poll)
    ensures env.test(i) >= env.start + Elapsed(poll, i) || env.test(i) >= env.start + timeout
    decreases i
  {
    if i > 0 {
      TimePasses(env, timeout, poll, i - 1);
      assert ClockStep(env, timeout, poll, i - 1);
    }
  }

  /** Whatever the gateway answers, the loop ends within the bound. */
  lemma LoopEnds<R>(env: Env<R>, timeout: real, poll: real)
    requires poll > 0.0 && ClockLaw(env, timeout, poll)
    ensures !GoesOn(env, timeout, PollBound(timeout, poll) - 1)
  {
    BoundCoversTimeout(timeout, poll);
    TimePasses(env, timeout, poll, PollBound(timeout, poll) - 1);
  }

  /** A clock that moves by the sleeps alone. */
  ghost predicate OnlySleeps<R>(env: Env<R>, timeout: real, poll: real) {
    && env.test(0) == env.start
    && forall i: nat :: env.test(i) == env.rest(i) && env.test(i + 1) == env.rest(i) + SleepTime(env, timeout, poll, i)
  }

  /** The polls are one interval apart, and the last sleep is cut so that the final poll falls on the deadline. */
  lemma {:induction false} PollsAreOnTime<R>(env: Env<R>, timeout: real, poll: real, i: nat)
    requires poll >= 0.0 && timeout >= 0.0 && OnlySleeps(env, timeout, poll)
    ensures env.test(i) == env.start + (if i as real * poll < timeout then i as real * poll else timeout)
    decreases i
  {
    if i > 0 {
      PollsAreOnTime(env, timeout, poll, i - 1);
      NextMultiple((i - 1) as real, poll);
      assert env.test(i) == env.rest(i - 1) + SleepTime(env, timeout, poll, i - 1);
    }
  }

  /** No sleep goes past the deadline, whatever the clock does between the polls. */
  lemma NoSleepOutrunsDeadline<R>(env: Env<R>, timeout: real, poll: real, i: nat)
    requires poll >= 0.0
    ensures 0.0 <= SleepTime(env, timeout, poll, i) <= poll
    ensures SleepTime(env, timeout, poll, i) < poll ==>
      env.rest(i) + SleepTime(env, timeout, poll, i) == Max(env.rest(i), env.start + timeout)
    ensures env.rest(i) + SleepTime(env, timeout, poll, i) <= Max(env.rest(i), env.start + timeout)
  {
  }

  /** The bound is the best one: with such a clock, a review that stays pending is polled that often. */
  lemma PollBoundIsReached<R>(env: Env<R>, timeout: real, poll: real)
    requires poll > 0.0 && timeout >= 0.0 && OnlySleeps(env, timeout, poll)
    requires forall i: nat :: env.answer(i).Ok? && env.answer(i).value.status == Pending
    ensures EndsAt(env, timeout, PollBound(timeout, poll) - 1)
  {
    var last := PollBound(timeout, poll) - 1;
    PollBoundIsLeast(timeout, poll);
    ElapsedIsProduct(poll, last);
    PollsAreOnTime(env, timeout, poll, last);
    forall i | 0 <= i < last
      ensures GoesOn(env, timeout, i)
    {
      PollsAreOnTime(env, timeout, poll, i);
      ElapsedIsProduct(poll, last - 1);
      ProductMonotone(i as real, (last - 1) as real, poll);
    }
  }

  /** Some poll ends the loop; a run in which none does never returns. */
  ghost predicate Ends<R>(env: Env<R>, timeout: real) {
    exists n: nat :: !GoesOn(env, timeout, n)
  }

  /** With a positive interval and a clock that keeps up, the loop ended within the bound. */
  ghost predicate InTime<R>(env: Env<R>, timeout: real, poll: real, last: nat) {
    poll > 0.0 && ClockLaw(env, timeout, poll) ==> last + 1 <= PollBound(timeout, poll)
  }

  lemma EndIsInTime<R>(env: Env<R>, timeout: real, poll: real, last: nat)
    requires EndsAt(env, timeout, last)
    ensures InTime(env, timeout, poll, last)
  {
    if poll > 0.0 && ClockLaw(env, timeout, poll) {
      LoopEnds(env, timeout, poll);
    }
  }

  /** `wait_for_escalation`: polls until a reviewer has decided or the time is up, for any interval. The pending
      status is returned only once the deadline has passed. */
  method WaitForEscalation<R>(env: Env<R>, timeout: real, poll: real) returns (r: Result<Escalation<R>, Raised>)
    requires Ends(env, timeout)
    ensures exists last: nat :: EndsAt(env, timeout, last) && InTime(env, timeout, poll, last) && r == env.answer(last)
    ensures r.Ok? && r.value.status == Pending ==>
      exists last: nat :: r == env.answer(last) && env.test(last) >= env.start + timeout
          && InTime(env, timeout, poll, last)
  {
    var deadline := env.start + timeout;
    ghost var end: nat :| !GoesOn(env, timeout, end);
    var i: nat := 0;
    while true
      invariant i <= end && forall j :: 0 <= j < i ==> GoesOn(env, timeout, j)
      decreases end - i
    {
      var status := env.answer(i);
      if status.Err? || status.value.status != Pending || env.test(i) >= deadline {
        assert EndsAt(env, timeout, i);
        EndIsInTime(env, timeout, poll, i);
        return status;
      }
      i := i + 1;
    }
  }

  /** A run has only one end. */
  lemma EndIsUnique<R>(env: Env<R>, timeout: real, m: nat, n: nat)
    requires EndsAt(env, timeout, m) && EndsAt(env, timeout, n)
    ensures m == n
  {
  }

  // ----- The release rule

  function Allowed<P>(resp: Response<P>): bool {
    resp.decision == Allow || resp.decision == Modify
  }

  /** `_checked` */
  function Checked<P>(resp: Response<P>): Result<P, Raised> {
    if resp.verify && resp.verification then Err(VerificationRequired)
    else if resp.decision == Escalate then Err(Escalated)
    else if !Allowed(resp) || resp.payload == None then Err(Blocked)
    else Ok(resp.payload.value)
  }

  /** `_after_review` */
  function AfterReview<R, P>(status: Escalation<R>, validate: R -> Option<P>): Result<P, Raised> {
    if status.status == Approved && status.payload.Some? then
      var p := validate(status.payload.value);
      if p.Some? then Ok(p.value) else Err(InvalidPayload)
    else if status.status == Pending then Err(Escalated)
    else Err(Blocked)
  }

  predicate Waits<P>(resp: Response<P>, waitSeconds: real) {
    resp.decision == Escalate && resp.escalationId != "" && waitSeconds > 0.0
  }

  /** What a hook returns or raises, given the poll at which waiting ends. */
  function GuardOutcome<R, P>(resp: Result<Response<P>, Raised>, env: Env<R>, validate: R -> Option<P>,
                              waitSeconds: real, last: nat): Result<P, Raised>
  {
    if resp.Err? then Err(resp.error)
    else if Waits(resp.value, waitSeconds) then
      if env.answer(last).Err? then Err(env.answer(last).error) else AfterReview(env.answer(last).value, validate)
    else Checked(resp.value)
  }

  /** The hook concludes with what `last` decides: if it waits, the poll at which the loop ends. */
  ghost predicate Concludes<R, P>(resp: Result<Response<P>, Raised>, env: Env<R>, validate: R -> Option<P>,
                                  waitSeconds: real, pollSeconds: real, last: nat, r: Result<P, Raised>)
  {
    && r == GuardOutcome(resp, env, validate, waitSeconds, last)
    && (resp.Ok? && Waits(resp.value, waitSeconds) ==>
          EndsAt(env, waitSeconds, last) && InTime(env, waitSeconds, pollSeconds, last))
  }

  /** `GuardHooks._guard`, which waits through the client. */
  method GuardAsync<R, P>(resp: Result<Response<P>, Raised>, env: Env<R>, validate: R -> Option<P>,
                          waitSeconds: real, pollSeconds: real) returns (r: Result<P, Raised>)
    requires resp.Ok? && Waits(resp.value, waitSeconds) ==> Ends(env, waitSeconds)
    ensures exists last: nat :: Concludes(resp, env, validate, waitSeconds, pollSeconds, last, r)
  {
    ghost var last: nat := 0;
    if resp.Err? {
      r := Err(resp.error);
    } else if Waits(resp.value, waitSeconds) {
      var status := WaitForEscalation(env, waitSeconds, pollSeconds);
      last :| EndsAt(env, waitSeconds, last) && InTime(env, waitSeconds, pollSeconds, last)
              && status == env.answer(last);
      r := if status.Err? then Err(status.error) else AfterReview(status.value, validate);
    } else {
      r := Checked(resp.value);
    }
    assert Concludes(resp, env, validate, waitSeconds, pollSeconds, last, r);
  }

  /** The synchronous loop comes to a sleep of negative length, which `time.sleep` refuses. */
  predicate Refused<R, P>(resp: Result<Response<P>, Raised>, env: Env<R>, waitSeconds: real, pollSeconds: real) {
    resp.Ok? && Waits(resp.value, waitSeconds) && pollSeconds < 0.0 && GoesOn(env, waitSeconds, 0)
  }

  /** `SyncGuardHooks._guard`, with its own loop: the same conclusion, unless it is refused a sleep. */
  method GuardSync<R, P>(resp: Result<Response<P>, Raised>, env: Env<R>, validate: R -> Option<P>,
                         waitSeconds: real, pollSeconds: real) returns (r: Result<P, Raised>)
    requires resp.Ok? && Waits(resp.value, waitSeconds) && pollSeconds >= 0.0 ==> Ends(env, waitSeconds)
    ensures Refused(resp, env, waitSeconds, pollSeconds) ==> r == Err(NegativeSleep)
    ensures !Refused(resp, env, waitSeconds, pollSeconds) ==>
      exists last: nat :: Concludes(resp, env, validate, waitSeconds, pollSeconds, last, r)
  {
    if resp.Err? {
      r := Err(resp.error);
      assert Concludes(resp, env, validate, waitSeconds, pollSeconds, 0, r);
      return;
    }
    if Waits(resp.value, waitSeconds) {
      ghost var end: nat := 0;
      if pollSeconds >= 0.0 {
        end :| !GoesOn(env, waitSeconds, end);
      }
      var i: nat := 0;
      while true
        invariant i <= end && forall j :: 0 <= j < i ==> GoesOn(env, waitSeconds, j)
        decreases end - i
      {
        var status := env.answer(i);
        if status.Err? || status.value.status != Pending || env.test(i) >= env.start + waitSeconds {
          r := if status.Err? then Err(status.error) else AfterReview(status.value, validate);
          EndIsInTime(env, waitSeconds, pollSeconds, i);
          assert Concludes(resp, env, validate, waitSeconds, pollSeconds, i, r);
          return;
        }
        if SleepTime(env, waitSeconds, pollSeconds, i) < 0.0 {
          return Err(NegativeSleep);
        }
        i := i + 1;
      }
    }
    r := Checked(resp.value);
    assert Concludes(resp, env, validate, waitSeconds, pollSeconds, 0, r);
  }

  /** Poll n says approved and carries a payload that validates to `p`; every poll before it found the
      review pending, before the deadline. */
  ghost predicate ApprovedInTime<R, P>(env: Env<R>, validate: R -> Option<P>, waitSeconds: real, n: nat, p: P) {
    && env.answer(n).Ok? && env.answer(n).value.status == Approved
    && env.answer(n).value.payload.Some? && validate(env.answer(n).value.payload.value) == Some(p)
    && forall i :: 0 <= i < n ==> GoesOn(env, waitSeconds, i)
  }

  /** The release rule, over every run: a hook returns a payload exactly when the gateway allowed or modified
      the step and sent that payload without asking for a confirmation, or the step was escalated and some
      poll found it approved in time. In every other run it raises. */
  lemma ReleasedExactlyWhen<R, P>(resp: Result<Response<P>, Raised>, env: Env<R>, validate: R -> Option<P>,
                                  waitSeconds: real, last: nat, p: P)
    requires resp.Ok? && Waits(resp.value, waitSeconds) ==> EndsAt(env, waitSeconds, last)
    ensures GuardOutcome(resp, env, validate, waitSeconds, last) == Ok(p) <==>
      && resp.Ok?
      && (|| (Allowed(resp.value) && !(resp.value.verify && resp.value.verification) && resp.value.payload == Some(p))
          || (Waits(resp.value, waitSeconds) && exists n: nat :: ApprovedInTime(env, validate, waitSeconds, n, p)))
  {
    if resp.Ok? && Waits(resp.value, waitSeconds) {
      if n: nat :| ApprovedInTime(env, validate, waitSeconds, n, p) {
        assert EndsAt(env, waitSeconds, n);
        EndIsUnique(env, waitSeconds, last, n);
      }
      if GuardOutcome(resp, env, validate, waitSeconds, last) == Ok(p) {
        assert ApprovedInTime(env, validate, waitSeconds, last, p);
      }
    }
  }

  /** A step that a reviewer approved in time is released, however the polls before went; one that
      was not is never released, not even if it is approved after the deadline. */
  lemma ApprovalReleasesExactlyInTime<R, P>(resp: Response<P>, env: Env<R>, validate: R -> Option<P>,
                                            waitSeconds: real, last: nat, n: nat, p: P)
    requires Waits(resp, waitSeconds) && EndsAt(env, waitSeconds, last)
    requires env.answer(n).Ok? && env.answer(n).value == Escalation(Approved, env.answer(n).value.payload)
    requires env.answer(n).value.payload.Some? && validate(env.answer(n).value.payload.value) == Some(p)
    requires forall i :: 0 <= i < n ==> env.answer(i).Ok? && env.answer(i).value.status == Pending
    ensures GuardOutcome(Ok(resp), env, validate, waitSeconds, last) == Ok(p)
            <==> forall i :: 0 <= i < n ==> env.test(i) < env.start + waitSeconds
  {
    if forall i :: 0 <= i < n ==> env.test(i) < env.start + waitSeconds {
      assert forall i :: 0 <= i < n ==> GoesOn(env, waitSeconds, i);
      assert EndsAt(env, waitSeconds, n);
      EndIsUnique(env, waitSeconds, last, n);
    } else {
      var i :| 0 <= i < n && env.test(i) >= env.start + waitSeconds;
      assert !GoesOn(env, waitSeconds, i);
      assert last <= i;
    }
  }

  /** What is raised when nothing is released. A waiting hook: for a review still pending Escalated, for a rejected
      or expired one, or an approval without payload, Blocked. A hook that does not wait: first the confirmation that
      is asked for, then Escalated, then Blocked. */
  lemma RaisedWhen<R, P>(resp: Response<P>, env: Env<R>, validate: R -> Option<P>, waitSeconds: real, last: nat)
    ensures resp.decision == Escalate && resp.escalationId != "" && waitSeconds > 0.0 ==>
      var r := GuardOutcome(Ok(resp), env, validate, waitSeconds, last);
      && (forall e :: env.answer(last) == Err(e) ==> r == Err(e))
      && (forall s :: env.answer(last) == Ok(s) ==>
            && (s.status == Pending ==> r == Err(Escalated))
            && (s.status == Rejected || s.status == Expired ==> r == Err(Blocked))
            && (s.status == Approved && s.payload == None ==> r == Err(Blocked))
            && (s.status == Approved && s.payload.Some? && validate(s.payload.value) == None ==>
                  r == Err(InvalidPayload)))
    ensures !(resp.decision == Escalate && resp.escalationId != "" && waitSeconds > 0.0) ==>
      var r := GuardOutcome(Ok(resp), env, validate, waitSeconds, last);
      && (r == Err(VerificationRequired) <==> resp.verify && resp.verification)
      && (r == Err(Escalated) <==> !(resp.verify && resp.verification) && resp.decision == Escalate)
      && (r == Err(Blocked) <==>
            !(resp.verify && resp.verification) && resp.decision != Escalate
            && (resp.decision == Block || resp.payload == None))
  {
  }
}
