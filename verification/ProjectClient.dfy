/** The project-config client of the redaction service: a TTL cache that a listener evicts from
    (instant-redaction-service/clients/project_client.py and utils/project_events.py).

    `get_project` awaits the HTTP reply, so other calls run in between. It is therefore two atomic
    methods here: what runs before the await and what runs after it. */
module ProjectClient {
  import opened Wrappers

  datatype Entry<V> = Entry(expiry: real, project: V)

  type Cache<V> = map<string, Entry<V>>

  /** The project of a live entry; an entry is live strictly before its expiry. */
  function Lookup<V>(cache: Cache<V>, ttl: real, key: string, now: real): Option<V> {
    if ttl > 0.0 && key in cache && cache[key].expiry > now then Some(cache[key].project) else None
  }

  function Stored<V>(cache: Cache<V>, ttl: real, key: string, project: V, now: real): Cache<V> {
    if ttl > 0.0 then cache[key := Entry(now + ttl, project)] else cache
  }

  /** Evicts one key, or everything if no key is given. */
  function Evicted<V>(cache: Cache<V>, key: Option<string>): Cache<V> {
    match key
    case None => map[]
    case Some(k) => cache - {k}
  }

  /** The reply of project-service: a project, an HTTP status other than 200, or no reply. */
  datatype Reply<V> = Project(project: V) | Status(code: int) | Unreachable

  /** A project, or the status of the HTTPException raised. */
  type Outcome<V> = Result<V, int>

  function OutcomeOf<V>(reply: Reply<V>): Outcome<V> {
    match reply
    case Project(p) => Ok(p)
    case Status(code) => Err(if code == 404 then 404 else 502)
    case Unreachable => Err(503)
  }

  /** Which reply raises what: a missing project 404, an unreachable service 503, every other status 502. */
  lemma RaisedExactlyWhen<V>(reply: Reply<V>)
    ensures forall p :: OutcomeOf(reply) == Ok(p) <==> reply == Project(p)
    ensures OutcomeOf(reply) == Err(404) <==> reply == Status(404)
    ensures OutcomeOf(reply) == Err(503) <==> reply == Unreachable
    ensures OutcomeOf(reply) == Err(502) <==> reply.Status? && reply.code != 404
  {
  }

  /** What is stored is found for exactly the TTL; other keys are found as before. */
  lemma StoredIsFound<V>(cache: Cache<V>, ttl: real, key: string, project: V, stored: real, now: real, other: string)
    ensures ttl > 0.0 && now < stored + ttl ==>
      Lookup(Stored(cache, ttl, key, project, stored), ttl, key, now) == Some(project)
    ensures ttl <= 0.0 || now >= stored + ttl ==>
      Lookup(Stored(cache, ttl, key, project, stored), ttl, key, now) == None
    ensures other != key ==>
      Lookup(Stored(cache, ttl, key, project, stored), ttl, other, now) == Lookup(cache, ttl, other, now)
  {
  }

  /** What is evicted is not found; evicting one key leaves the others, evicting none in particular leaves nothing. */
  lemma EvictedIsGone<V>(cache: Cache<V>, ttl: real, key: string, now: real, other: string)
    ensures Lookup(Evicted(cache, Some(key)), ttl, key, now) == None
    ensures other != key ==> Lookup(Evicted(cache, Some(key)), ttl, other, now) == Lookup(cache, ttl, other, now)
    ensures Lookup(Evicted(cache, None), ttl, other, now) == None
  {
  }

  /** What reaches the listener: a pub/sub item with its type and data, or an error. */
  datatype ListenerEvent = Item(kind: string, data: Option<string>) | ConnectionError

  class ProjectClient<V> {
    const ttl: real
    var cache: Cache<V>

    constructor (cacheTtlSeconds: real)
      ensures ttl == cacheTtlSeconds && cache == map[]
    {
      ttl := cacheTtlSeconds;
      cache := map[];
    }

    method Invalidate(projectId: Option<string>)
      modifies this`cache
      ensures cache == Evicted(old(cache), projectId)
    {
      if projectId.None? {
        cache := map[];
      } else {
        cache := cache - {projectId.value};
      }
    }

    /** `get_project` up to its await: a hit ends the call, a miss starts a fetch. */
    method BeginGet(projectId: string, now: real) returns (hit: Option<V>)
      ensures hit == Lookup(cache, ttl, projectId, now)
    {
      if ttl > 0.0 {
        if projectId in cache && cache[projectId].expiry > now {
          return Some(cache[projectId].project);
        }
      }
      return None;
    }

    /** `get_project` from its await on: only a project is stored, every other reply raises. */
    method EndGet(projectId: string, reply: Reply<V>, now: real) returns (r: Outcome<V>)
      modifies this`cache
      ensures r == OutcomeOf(reply)
      ensures cache == if reply.Project? then Stored(old(cache), ttl, projectId, reply.project, now) else old(cache)
    {
      match reply
      case Unreachable =>
        r := Err(503);
      case Status(code) =>
        r := if code == 404 then Err(404) else Err(502);
      case Project(p) =>
        if ttl > 0.0 {
          cache := cache[projectId := Entry(now + ttl, p)];
        }
        r := Ok(p);
    }

    /** One turn of the listener loop: a message evicts the key it names, an empty message or an
        error evicts everything, and anything else (a subscription notice) nothing. */
    method Listen(event: ListenerEvent)
      modifies this`cache
      ensures cache ==
        match event
        case Item(kind, data) =>
          if kind != "message" then old(cache)
          else if data == None || data == Some("") then map[]
          else old(cache) - {data.value}
        case ConnectionError => map[]
    {
      match event
      case Item(kind, data) =>
        if kind == "message" {
          var text := if data.Some? then data.value else "";
          Invalidate(if text == "" then None else Some(text));
        }
      case ConnectionError =>
        Invalidate(None);
    }
  }
}
