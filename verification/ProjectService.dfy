/** Changing projects (project-service/services/project_service.py): a change is checked, committed
    and then published under the id as the caller spelled it. */
module ProjectService {
  import opened Wrappers

  datatype Custom = Custom(regex: string, redaction: string)

  datatype Project = Project(name: string, entities: seq<string>, customized: seq<Custom>, redactionType: string)

  /** The fields of a PUT body; `None` leaves a field as it is. */
  datatype ProjectUpdate = ProjectUpdate(
    name: Option<string>, entities: Option<seq<string>>, customized: Option<seq<Custom>>, redactionType: Option<string>)

  datatype Error = NotFound(id: string) | AlreadyExists(name: string) | NothingToRedact

  /** What the outside sees, in order. Publishing is only attempted: the event may be lost. */
  datatype Effect = Committed(id: nat) | Published(spelling: string)

  type Repository = map<nat, Project>

  function Or<T>(update: Option<T>, current: T): T {
    match update
    case None => current
    case Some(v) => v
  }

  function Merged(p: Project, u: ProjectUpdate): Project {
    Project(Or(u.name, p.name), Or(u.entities, p.entities), Or(u.customized, p.customized),
            Or(u.redactionType, p.redactionType))
  }

  predicate NameTaken(repo: Repository, name: string) {
    exists id :: id in repo && repo[id].name == name
  }

  predicate Redacts(p: Project) {
    p.entities != [] || p.customized != []
  }

  /** What the service keeps true of the repository. */
  ghost predicate Sound(repo: Repository) {
    && (forall i, j :: i in repo && j in repo && repo[i].name == repo[j].name ==> i == j)
    && (forall i :: i in repo ==> Redacts(repo[i]))
  }

  /** An update goes through exactly when the id resolves to a project, a new name is free and the
      merged project still has something to redact; otherwise the first failing check is the error. */
  function UpdateOutcome(repo: Repository, resolve: string -> Option<nat>, id: string, u: ProjectUpdate)
      : (r: Result<Project, Error>)
    ensures r.Ok? <==>
      && resolve(id).Some? && resolve(id).value in repo
      && (var p := repo[resolve(id).value];
          && (u.name.Some? && u.name.value != "" && u.name.value != p.name ==> !NameTaken(repo, u.name.value))
          && Redacts(Merged(p, u)))
  {
    var pid := resolve(id);
    if pid == None || pid.value !in repo then Err(NotFound(id))
    else
      var p := repo[pid.value];
      if u.name.Some? && u.name.value != "" && u.name.value != p.name && NameTaken(repo, u.name.value) then
        Err(AlreadyExists(u.name.value))
      else if !Redacts(Merged(p, u)) then Err(NothingToRedact)
      else Ok(Merged(p, u))
  }

  /** An update that goes through replaces exactly the fields that it gives. */
  lemma UpdateReplacesGivenFields(repo: Repository, resolve: string -> Option<nat>, id: string, u: ProjectUpdate)
    requires UpdateOutcome(repo, resolve, id, u).Ok?
    ensures var p, q := repo[resolve(id).value], UpdateOutcome(repo, resolve, id, u).value;
            && (forall x :: u.name == Some(x) ==> q.name == x) && (u.name == None ==> q.name == p.name)
            && (forall x :: u.entities == Some(x) ==> q.entities == x)
                && (u.entities == None ==> q.entities == p.entities)
            && (forall x :: u.customized == Some(x) ==> q.customized == x)
            && (u.customized == None ==> q.customized == p.customized)
            && (forall x :: u.redactionType == Some(x) ==> q.redactionType == x)
            && (u.redactionType == None ==> q.redactionType == p.redactionType)
  {
  }

  /** Why an update is refused: the id stands for no project; else the new name is another project's; else nothing
      would be left to redact. */
  lemma RefusedExactlyWhen(repo: Repository, resolve: string -> Option<nat>, id: string, u: ProjectUpdate)
    ensures var missing := resolve(id) == None || resolve(id).value !in repo;
            var outcome := UpdateOutcome(repo, resolve, id, u);
            && (outcome == Err(NotFound(id)) <==> missing)
            && (!missing ==>
                  var p := repo[resolve(id).value];
                  var taken := u.name.Some? && u.name.value != "" && u.name.value != p.name
                               && exists other :: other in repo && repo[other].name == u.name.value;
                  && (taken <==> u.name.Some? && outcome == Err(AlreadyExists(u.name.value)))
                  && (outcome == Err(NothingToRedact) <==>
                        !taken
                        && (if u.entities.Some? then u.entities.value else p.entities) == []
                        && (if u.customized.Some? then u.customized.value else p.customized) == []))
  {
  }

  /** The requests that change projects; a new project comes with its fresh UUID. */
  datatype Command =
    | Create(data: Project, id: nat)
    | Update(spelling: string, changes: ProjectUpdate)
    | Delete(spelling: string)

  datatype State = State(repo: Repository, log: seq<Effect>)

  function Step(resolve: string -> Option<nat>, s: State, c: Command): State {
    match c
    case Create(data, id) =>
      if NameTaken(s.repo, data.name) then s else State(s.repo[id := data], s.log + [Committed(id)])
    case Update(spelling, changes) =>
      var outcome := UpdateOutcome(s.repo, resolve, spelling, changes);
      if outcome.Err? then s
      else
        var id := resolve(spelling).value;
        State(s.repo[id := outcome.value], s.log + [Committed(id), Published(spelling)])
    case Delete(spelling) =>
      var id := resolve(spelling);
      if id == None || id.value !in s.repo then s
      else State(s.repo - {id.value}, s.log + [Committed(id.value), Published(spelling)])
  }

  class ProjectService {
    const resolve: string -> Option<nat>
    var repo: Repository
    var log: seq<Effect>

    constructor (resolve: string -> Option<nat>)
      ensures this.resolve == resolve && repo == map[] && log == []
    {
      this.resolve := resolve;
      repo, log := map[], [];
    }

    function StateOf(): State
      reads this
    {
      State(repo, log)
    }

    /** The new id is a fresh UUID; the body has passed the request schema. */
    method CreateProject(data: Project, id: nat) returns (r: Result<nat, Error>)
      requires id !in repo
      modifies this
      ensures r == if NameTaken(old(repo), data.name) then Err(AlreadyExists(data.name)) else Ok(id)
      ensures StateOf() == Step(resolve, old(StateOf()), Create(data, id))
    {
      if exists i :: i in repo && repo[i].name == data.name {
        return Err(AlreadyExists(data.name));
      }
      repo := repo[id := data];
      log := log + [Committed(id)];
      return Ok(id);
    }

    method UpdateProject(projectId: string, data: ProjectUpdate) returns (r: Result<(), Error>)
      modifies this
      ensures StateOf() == Step(resolve, old(StateOf()), Update(projectId, data))
      ensures r == match UpdateOutcome(old(repo), resolve, projectId, data)
                   case Ok(_) => Ok(())
                   case Err(e) => Err(e)
    {
      var pid := resolve(projectId);
      if pid.None? || pid.value !in repo {
        return Err(NotFound(projectId));
      }
      var project := repo[pid.value];
      if data.name.Some? && data.name.value != "" && data.name.value != project.name {
        if exists i :: i in repo && repo[i].name == data.name.value {
          return Err(AlreadyExists(data.name.value));
        }
      }
      var changed := project;
      if data.name.Some? {
        changed := changed.(name := data.name.value);
      }
      if data.entities.Some? {
        changed := changed.(entities := data.entities.value);
      }
      if data.customized.Some? {
        changed := changed.(customized := data.customized.value);
      }
      if data.redactionType.Some? {
        changed := changed.(redactionType := data.redactionType.value);
      }
      assert changed == Merged(project, data);
      if changed.entities == [] && changed.customized == [] {
        return Err(NothingToRedact);
      }
      repo := repo[pid.value := changed];
      log := log + [Committed(pid.value)];
      log := log + [Published(projectId)];
      return Ok(());
    }

    method DeleteProject(projectId: string) returns (r: Result<(), Error>)
      modifies this
      ensures StateOf() == Step(resolve, old(StateOf()), Delete(projectId))
      ensures var pid := resolve(projectId);
        r == if pid.Some? && pid.value in old(repo) then Ok(()) else Err(NotFound(projectId))
    {
      var pid := resolve(projectId);
      if pid.None? || pid.value !in repo {
        return Err(NotFound(projectId));
      }
      repo := repo - {pid.value};
      log := log + [Committed(pid.value)];
      log := log + [Published(projectId)];
      return Ok(());
    }
  }

  // ----- Runs

  /** What the request schema and the choice of a fresh id guarantee. */
  predicate Admissible(repo: Repository, c: Command) {
    match c
    case Create(data, id) => id !in repo && Redacts(data)
    case Update(_, changes) => changes.name != Some("")
    case Delete(_) => true
  }

  function Play(resolve: string -> Option<nat>, commands: seq<Command>): State {
    if commands == [] then State(map[], [])
    else Step(resolve, Play(resolve, commands[..|commands| - 1]), commands[|commands| - 1])
  }

  predicate AllAdmissible(resolve: string -> Option<nat>, commands: seq<Command>) {
    commands == []
    || (AllAdmissible(resolve, commands[..|commands| - 1])
        && Admissible(Play(resolve, commands[..|commands| - 1]).repo, commands[|commands| - 1]))
  }

  /** Every publish directly follows the commit of the project that its spelling stands for. */
  predicate PublishedAfterCommit(resolve: string -> Option<nat>, log: seq<Effect>) {
    forall i :: 0 <= i < |log| && log[i].Published? ==>
      i > 0 && log[i - 1].Committed? && resolve(log[i].spelling) == Some(log[i - 1].id)
  }

  /** A request changes at most the project it is about; a created project is the one given, a deleted one is gone. */
  lemma StepChangesOneProject(resolve: string -> Option<nat>, s: State, c: Command, other: nat)
    ensures var after := Step(resolve, s, c).repo;
            && (!(c.Create? && c.id == other) && !(!c.Create? && resolve(c.spelling) == Some(other)) ==>
                  (other in after <==> other in s.repo) && (other in s.repo ==> after[other] == s.repo[other]))
            && (c.Create? && !(exists i :: i in s.repo && s.repo[i].name == c.data.name) ==>
                  c.id in after && after[c.id] == c.data)
            && (c.Create? && (exists i :: i in s.repo && s.repo[i].name == c.data.name) ==> after == s.repo)
            && (c.Delete? && resolve(c.spelling) == Some(other) ==> other !in after)
  {
  }

  lemma StepKeepsSound(resolve: string -> Option<nat>, s: State, c: Command)
    requires Sound(s.repo) && Admissible(s.repo, c)
    ensures Sound(Step(resolve, s, c).repo)
  {
    var before, after := s.repo, Step(resolve, s, c).repo;
    forall i, j | i in after && j in after && after[i].name == after[j].name
      ensures i == j
    {
      assert i in before && after[i] == before[i] && j in before && after[j] == before[j] ==> i == j;
    }
  }

  lemma StepPublishesAfterCommit(resolve: string -> Option<nat>, s: State, c: Command)
    requires PublishedAfterCommit(resolve, s.log)
    ensures PublishedAfterCommit(resolve, Step(resolve, s, c).log)
  {
  }

  /** From the empty repository every sequence of requests keeps the names unique and every project with
      something to redact, and publishes nothing that was not committed just before. */
  lemma {:induction false} RunsKeepSound(resolve: string -> Option<nat>, commands: seq<Command>)
    requires AllAdmissible(resolve, commands)
    ensures Sound(Play(resolve, commands).repo)
    ensures PublishedAfterCommit(resolve, Play(resolve, commands).log)
    decreases |commands|
  {
    if commands != [] {
      var before := Play(resolve, commands[..|commands| - 1]);
      RunsKeepSound(resolve, commands[..|commands| - 1]);
      StepKeepsSound(resolve, before, commands[|commands| - 1]);
      StepPublishesAfterCommit(resolve, before, commands[|commands| - 1]);
    }
  }
}
