/** Project-service does what the cache protocol says of it: every sequence of its requests is a run of the
    protocol, with the same committed projects and, in the same order, the same commits and publishes. */
module ServiceTraces {
  import opened Wrappers
  import opened ProjectService
  import Protocol = CacheProtocol

  type Event = Protocol.Event<Project>

  /** What an event of the protocol is in the service's log; other events are not the service's. */
  function Logged(c: Protocol.Config, e: Event): seq<Effect> {
    match e
    case Create(id, _) => [Committed(id)]
    case Commit(spelling, _) =>
      var id := c.resolve(spelling);
      if id.Some? then [Committed(id.value)] else []
    case Publish(change) => [Published(change.spelling)]
    case _ => []
  }

  function Trace(c: Protocol.Config, events: seq<Event>): seq<Effect> {
    if events == [] then [] else Trace(c, events[..|events| - 1]) + Logged(c, events[|events| - 1])
  }

  /** A run that ends with these projects and nothing left to publish, and whose trace is this log. */
  ghost predicate Realises(c: Protocol.Config, states: seq<Protocol.State<Project>>, events: seq<Event>, s: State) {
    && Protocol.Run(c, states, events) && Protocol.Init(states[0])
    && states[|events|].db == s.repo && states[|events|].step == |events| && states[|events|].unpublished == multiset{}
    && Trace(c, events) == s.log
  }

  lemma Extend(c: Protocol.Config, states: seq<Protocol.State<Project>>, events: seq<Event>, e: Event)
    requires Protocol.Run(c, states, events) && Protocol.Enabled(c, states[|events|], e)
    ensures var more := states + [Protocol.Next(c, states[|events|], e)];
            Protocol.Run(c, more, events + [e]) && more[0] == states[0]
            && more[|events| + 1] == Protocol.Next(c, states[|events|], e)
    ensures Trace(c, events + [e]) == Trace(c, events) + Logged(c, e)
  {
    assert (events + [e])[..|events|] == events;
  }

  lemma CommitAndPublish(c: Protocol.Config, states: seq<Protocol.State<Project>>, events: seq<Event>, s: State,
                         spelling: string, update: Option<Project>)
      returns (more: seq<Protocol.State<Project>>, trace: seq<Event>)
    requires Realises(c, states, events, s)
    requires c.resolve(spelling).Some? && c.resolve(spelling).value in s.repo
    ensures var id := c.resolve(spelling).value;
            Realises(c, more, trace,
                     State(if update.Some? then s.repo[id := update.value] else s.repo - {id},
                           s.log + [Committed(id), Published(spelling)]))
  {
    var commit, publish := Protocol.Commit(spelling, update), Protocol.Publish(Protocol.Change(spelling, |events|));
    Extend(c, states, events, commit);
    more, trace := states + [Protocol.Next(c, states[|events|], commit)], events + [commit];
    Extend(c, more, trace, publish);
    more, trace := more + [Protocol.Next(c, more[|trace|], publish)], trace + [publish];
  }

  lemma StepIsRealised(c: Protocol.Config, states: seq<Protocol.State<Project>>, events: seq<Event>, s: State,
                       command: Command) returns (more: seq<Protocol.State<Project>>, trace: seq<Event>)
    requires Realises(c, states, events, s) && Admissible(s.repo, command)
    ensures Realises(c, more, trace, Step(c.resolve, s, command))
  {
    more, trace := states, events;
    match command
    case Create(data, id) =>
      if !NameTaken(s.repo, data.name) {
        Extend(c, states, events, Protocol.Create(id, data));
        more := states + [Protocol.Next(c, states[|events|], Protocol.Create(id, data))];
        trace := events + [Protocol.Create(id, data)];
      }
    case Update(spelling, changes) =>
      var outcome := UpdateOutcome(s.repo, c.resolve, spelling, changes);
      if outcome.Ok? {
        more, trace := CommitAndPublish(c, states, events, s, spelling, Some(outcome.value));
      }
    case Delete(spelling) =>
      var id := c.resolve(spelling);
      if id.Some? && id.value in s.repo {
        more, trace := CommitAndPublish(c, states, events, s, spelling, None);
      }
  }

  /** Every sequence of requests is a run of the protocol, so what holds of all runs holds of the service. */
  lemma {:induction false} ServiceRefinesProtocol(c: Protocol.Config, commands: seq<Command>)
      returns (states: seq<Protocol.State<Project>>, events: seq<Event>)
    requires AllAdmissible(c.resolve, commands)
    ensures Realises(c, states, events, Play(c.resolve, commands))
    decreases |commands|
  {
    if commands == [] {
      states := [Protocol.State(0.0, 0, map[], multiset{}, multiset{}, map[], map[])];
      events := [];
    } else {
      states, events := ServiceRefinesProtocol(c, commands[..|commands| - 1]);
      states, events := StepIsRealised(c, states, events, Play(c.resolve, commands[..|commands| - 1]),
                                       commands[|commands| - 1]);
    }
  }
}
