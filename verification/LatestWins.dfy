/** Overlapping loads in the console's `useResource` (apps/console/src/lib/hooks.ts).

    `reload` awaits its loader, so calls overlap and can settle in any order. What runs before the
    await and what runs after it are atomic steps. */
module LatestWins {
  import opened Wrappers

  /** The hook's state: the call counter and what is shown. */
  datatype View<T, E> = View(counter: nat, data: Option<T>, error: Option<E>, loading: bool)

  /** A call starts. */
  function Begun<T, E>(v: View<T, E>): View<T, E> {
    v.(counter := v.counter + 1, loading := true)
  }

  /** Call `mine` settles with a result. Only the newest call may write. */
  function Resolved<T, E>(v: View<T, E>, mine: nat, result: T): View<T, E> {
    if mine == v.counter then v.(data := Some(result), error := None, loading := false) else v
  }

  function Rejected<T, E>(v: View<T, E>, mine: nat, error: E): View<T, E> {
    if mine == v.counter then v.(error := Some(error), loading := false) else v
  }

  /** The effect for new deps: it drops the data and starts a call. */
  function Refreshed<T, E>(v: View<T, E>): View<T, E> {
    Begun(v.(data := None))
  }

  class Resource<T, E> {
    var counter: nat
    var data: Option<T>
    var error: Option<E>
    var loading: bool

    constructor ()
      ensures ViewOf() == View(0, None, None, true)
    {
      counter, data, error, loading := 0, None, None, true;
    }

    function ViewOf(): View<T, E>
      reads this
    {
      View(counter, data, error, loading)
    }

    method Begin() returns (mine: nat)
      modifies this
      ensures ViewOf() == Begun(old(ViewOf())) && mine == counter
    {
      counter := counter + 1;
      mine := counter;
      loading := true;
    }

    method Resolve(mine: nat, result: T)
      modifies this
      ensures ViewOf() == Resolved(old(ViewOf()), mine, result)
    {
      if mine == counter {
        data := Some(result);
        error := None;
      }
      if mine == counter {
        loading := false;
      }
    }

    method Reject(mine: nat, e: E)
      modifies this
      ensures ViewOf() == Rejected(old(ViewOf()), mine, e)
    {
      if mine == counter {
        error := Some(e);
      }
      if mine == counter {
        loading := false;
      }
    }

    method OnNewDeps() returns (mine: nat)
      modifies this
      ensures ViewOf() == Refreshed(old(ViewOf())) && mine == counter
    {
      data := None;
      mine := Begin();
    }
  }

  // ----- Runs

  /** A result or error stamped with the call it came from; the hook never looks at the stamp. */
  datatype From<X> = From(value: X, call: nat)

  /** History variables: the calls not yet settled, the calls that wrote, in order, and the first call
      for the current deps. */
  datatype State<T, E> = State(view: View<From<T>, From<E>>, open: set<nat>, writes: seq<nat>, since: nat)

  datatype Event<T, E> =
    | Reload                          // a poll or a button
    | NewDeps
    | Answer(call: nat, result: T)
    | Failure(call: nat, error: E)

  function Start<T, E>(): State<T, E> {
    State(View(0, None, None, true), {}, [], 0)
  }

  /** Only a call that is open can settle. */
  predicate Enabled<T, E>(s: State<T, E>, e: Event<T, E>) {
    match e
    case Answer(call, _) => call in s.open
    case Failure(call, _) => call in s.open
    case _ => true
  }

  function Next<T, E>(s: State<T, E>, e: Event<T, E>): State<T, E> {
    match e
    case Reload =>
      s.(view := Begun(s.view), open := s.open + {s.view.counter + 1})
    case NewDeps =>
      s.(view := Refreshed(s.view), open := s.open + {s.view.counter + 1}, since := s.view.counter + 1)
    case Answer(call, result) =>
      State(Resolved(s.view, call, From(result, call)), s.open - {call},
            s.writes + (if call == s.view.counter then [call] else []), s.since)
    case Failure(call, error) =>
      State(Rejected(s.view, call, From(error, call)), s.open - {call},
            s.writes + (if call == s.view.counter then [call] else []), s.since)
  }

  function Play<T, E>(events: seq<Event<T, E>>): State<T, E> {
    if events == [] then Start()
    else Next(Play(events[..|events| - 1]), events[|events| - 1])
  }

  ghost predicate Run<T, E>(events: seq<Event<T, E>>) {
    events == []
    || (Run(events[..|events| - 1]) && Enabled(Play(events[..|events| - 1]), events[|events| - 1]))
  }

  predicate Increasing(s: seq<nat>) {
    forall i, j :: 0 <= i < j < |s| ==> s[i] < s[j]
  }

  /** The newest call has written. */
  predicate Settled<T, E>(s: State<T, E>) {
    s.writes != [] && s.writes[|s.writes| - 1] == s.view.counter
  }

  ghost predicate Inv<T, E>(s: State<T, E>) {
    var v := s.view;
    && (forall c :: c in s.open ==> 0 < c <= v.counter)
    && Increasing(s.writes) && (forall i :: 0 <= i < |s.writes| ==> 0 < s.writes[i] <= v.counter)
    && (v.loading <==> v.counter == 0 || v.counter in s.open)
    && (v.counter > 0 ==> (v.counter in s.open <==> !Settled(s)))
    && s.since <= v.counter
    && (v.data.Some? ==> s.since <= v.data.value.call && v.data.value.call in s.writes)
    && (v.error.Some? ==> s.writes != [] && v.error.value.call == s.writes[|s.writes| - 1])
  }

  lemma InvStep<T, E>(s: State<T, E>, e: Event<T, E>)
    requires Inv(s) && Enabled(s, e)
    ensures Inv(Next(s, e))
  {
    var t := Next(s, e);
    if |t.writes| > |s.writes| {
      var c := s.view.counter;
      assert t.writes == s.writes + [c];
      assert s.writes == [] || s.writes[|s.writes| - 1] < c;
      assert forall i :: 0 <= i < |s.writes| ==> t.writes[i] == s.writes[i];
      assert c in t.writes && forall x :: x in s.writes ==> x in t.writes;
    } else {
      assert t.writes == s.writes;
    }
  }

  lemma {:induction false} InvThroughout<T, E>(events: seq<Event<T, E>>)
    requires Run(events)
    ensures Inv(Play(events))
    decreases |events|
  {
    if events != [] {
      InvThroughout(events[..|events| - 1]);
      InvStep(Play(events[..|events| - 1]), events[|events| - 1]);
    }
  }

  /** In every interleaving data and error are written in strictly increasing call order, a call that
      settles late changes nothing, and loading is true exactly while the newest started call is
      unsettled (or none has started yet). */
  lemma LatestCallWins<T, E>(events: seq<Event<T, E>>, e: Event<T, E>)
    requires Run(events) && Enabled(Play(events), e)
    ensures Increasing(Play(events).writes)
    ensures var v := Play(events).view;
            v.loading <==> v.counter == 0 || v.counter in Play(events).open
    ensures (e.Answer? || e.Failure?) && e.call < Play(events).view.counter ==>
              Next(Play(events), e).view == Play(events).view
    ensures e.Answer? && e.call == Play(events).view.counter ==>
              Next(Play(events), e).view == View(e.call, Some(From(e.result, e.call)), None, false)
    ensures e.Failure? && e.call == Play(events).view.counter ==>
              Next(Play(events), e).view == View(e.call, Play(events).view.data, Some(From(e.error, e.call)), false)
    ensures var v := Play(events).view;
            && (e.Reload? ==> Next(Play(events), e).view == View(v.counter + 1, v.data, v.error, true))
            && (e.NewDeps? ==> Next(Play(events), e).view == View(v.counter + 1, None, v.error, true))
  {
    InvThroughout(events);
  }

  /** Data shown always comes from a call for the current deps. */
  lemma DataIsForCurrentDeps<T, E>(events: seq<Event<T, E>>)
    requires Run(events)
    ensures var s := Play(events); s.view.data.Some? ==> s.view.data.value.call >= s.since
  {
    InvThroughout(events);
  }

  /** An error is not dropped when the deps change. One from before is shown exactly while no call for
      the current deps has written yet. */
  lemma ErrorIsForCurrentDepsExactlyWhen<T, E>(events: seq<Event<T, E>>)
    requires Run(events) && Play(events).view.error.Some?
    ensures var s := Play(events);
            s.view.error.value.call >= s.since <==> exists c :: c in s.writes && c >= s.since
  {
    InvThroughout(events);
    var s := Play(events);
    var last := s.writes[|s.writes| - 1];
    assert last in s.writes;
    if c :| c in s.writes && c >= s.since {
      var i :| 0 <= i < |s.writes| && s.writes[i] == c;
      assert i == |s.writes| - 1 || s.writes[i] < last;
    }
  }

  /** That happens: the first deps fail, the deps change, and the old error is still shown. */
  lemma OldErrorOutlivesDeps<T, E>(error: E)
    ensures var events: seq<Event<T, E>> := [NewDeps, Failure(1, error), NewDeps];
            Run(events) && Play(events).view == View(2, None, Some(From(error, 1)), true) && Play(events).since == 2
  {
    var a: seq<Event<T, E>> := [NewDeps];
    var b: seq<Event<T, E>> := [NewDeps, Failure(1, error)];
    var c: seq<Event<T, E>> := [NewDeps, Failure(1, error), NewDeps];
    assert a[..0] == [] && b[..1] == a && c[..2] == b;
    assert Play(a) == State(View(1, None, None, true), {1}, [], 1);
    assert Play(b) == State(View(1, None, Some(From(error, 1)), false), {1} - {1}, [1], 1);
  }
}
