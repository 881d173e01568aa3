/**
 The caching proxy as a state machine: any number of requests, each a thread that is
 checked, looked up, relayed, stored and answered, their steps interleaved in any order.
 The relay's answer and the clock readings are chosen by the environment.
 */
module ProxyModel {
  import opened Basics
  import opened Recency
  import opened HttpHeader
  import opened CachePolicy
  import opened CacheKeys

  /** Names are in canonical form, as net/http and the exit's JSON give them. */
  ghost predicate CanonicalNames(h: Header) {
    forall k :: k in h ==> Canonical(k) == k
  }

  datatype Request = Request(verb: string, url: string, headers: Header)
  datatype Response = Response(status: int, headers: Header, body: seq<byte>)

  /** What SendRequest comes back with. */
  datatype Outcome =
    | Answer(resp: Response)
    | ExitError(status: int, message: string)
    | TooManyRequests
    | RelayFailed
    | BadPayload

  datatype Reply = Served(status: int, headers: Header, body: seq<byte>) | Refused(status: int)

  /** allows stands for the policy's URL check, parse for HTTP date parsing. */
  datatype Env = Env(allows: string -> bool, parse: string -> Option<int>)

  datatype Setup = Setup(
    cacheOn: bool, limits: Limits, reqOpts: RequestOptions, cachePrivate: bool, defaultTTL: int, env: Env)

  // ---------- what one step decides ----------

  const MARK: string := "X-Chunkbridge-Cache"

  /** The header after writing h out: names without values disappear. */
  function Written(h: Header): Header {
    map k | k in h && h[k] != [] :: h[k]
  }

  function HitReply(verb: string, v: Snapshot): Reply {
    Served(v.status, Written(v.header)[Canonical(MARK) := ["HIT"]], if verb != "HEAD" then v.body else [])
  }

  function MissReply(s: Setup, resp: Response): Reply {
    var h := Written(resp.headers);
    Served(resp.status, if s.cacheOn then h[Canonical(MARK) := ["MISS"]] else h, resp.body)
  }

  function KeyOf(req: Request): string { BuildKey(req.verb, req.url, req.headers) }

  predicate MayUseCache(s: Setup, req: Request) {
    s.cacheOn && IsRequestCacheable(req.verb, req.headers, s.reqOpts)
  }

  function ResponseOpts(s: Setup): ResponseOptions {
    ResponseOptions(s.limits.maxEntryBytes, s.cachePrivate)
  }

  function TTLOf(s: Setup, req: Request, resp: Response, now: int): int {
    TTLFor(resp.headers, req.url, s.defaultTTL, now, s.env.parse)
  }

  predicate ShouldStore(s: Setup, req: Request, resp: Response, now: int) {
    && MayUseCache(s, req)
    && IsResponseCacheable(req.verb, resp.status, resp.headers, |resp.body|, ResponseOpts(s))
    && TTLOf(s, req, resp, now) > 0
  }

  function EntryFor(req: Request, resp: Response, now: int, ttl: int): Snapshot {
    Snapshot(req.verb, req.url, resp.status, resp.headers, resp.body, now, now + ttl,
             Get(resp.headers, "ETag"), Get(resp.headers, "Last-Modified"))
  }

  function ErrorStatus(o: Outcome): int
    requires !o.Answer?
  {
    match o
    case ExitError(status, _) => status
    case TooManyRequests => 429
    case RelayFailed => 502
    case BadPayload => 502
  }

  // ---------- the machine ----------

  datatype Phase =
    | Arrived
    | Admitted
    | Relaying
    | Received(resp: Response)
    | Settled(resp: Response)
    | Done(reply: Reply)

  datatype Thread = Thread(req: Request, phase: Phase)

  /** What happened, in order. A reply that is a hit carries the time of its lookup. */
  datatype Event =
    | Relayed(id: nat, req: Request, resp: Response)
    | Stored(id: nat, req: Request, resp: Response, at: int, ttl: int)
    | Answered(id: nat, req: Request, reply: Reply, hitAt: Option<int>)

  datatype State = State(order: seq<Slot>, threads: map<nat, Thread>, log: seq<Event>)

  datatype Step =
    | Arrive(id: nat, req: Request)
    | Check(id: nat)
    | Look(id: nat, now: int)
    | Relay(id: nat, outcome: Outcome)
    | Keep(id: nat, now: int)
    | Write(id: nat)

  function Move(st: State, id: nat, t: Thread, phase: Phase): State {
    st.(threads := st.threads[id := t.(phase := phase)])
  }

  function Finish(st: State, id: nat, t: Thread, reply: Reply, hitAt: Option<int>): State {
    Move(st, id, t, Done(reply)).(log := st.log + [Answered(id, t.req, reply, hitAt)])
  }

  /** A step its thread is not ready for changes nothing. */
  function Next(s: Setup, st: State, step: Step): State {
    if step.Arrive? then
      if step.id in st.threads then st
      else st.(threads := st.threads[step.id := Thread(step.req, Arrived)])
    else if step.id !in st.threads then st
    else
      var id, t := step.id, st.threads[step.id];
      match step
      case Check(_) =>
        if t.phase != Arrived then st
        else if s.env.allows(t.req.url) then Move(st, id, t, Admitted)
        else Finish(st, id, t, Refused(403), None)
      case Look(_, now) =>
        if t.phase != Admitted then st
        else if !MayUseCache(s, t.req) then Move(st, id, t, Relaying)
        else
          var r := Lookup(st.order, KeyOf(t.req), now);
          if r.hit.Some? then
            Finish(st.(order := r.order), id, t, HitReply(t.req.verb, r.hit.value), Some(now))
          else
            Move(st.(order := r.order), id, t, Relaying)
      case Relay(_, outcome) =>
        if t.phase != Relaying then st
        else if outcome.Answer? then
          Move(st, id, t, Received(outcome.resp)).(log := st.log + [Relayed(id, t.req, outcome.resp)])
        else Finish(st, id, t, Refused(ErrorStatus(outcome)), None)
      case Keep(_, now) =>
        if !t.phase.Received? then st
        else if !ShouldStore(s, t.req, t.phase.resp, now) then Move(st, id, t, Settled(t.phase.resp))
        else
          var ttl := TTLOf(s, t.req, t.phase.resp, now);
          Move(st.(order := Store(s.limits, st.order, KeyOf(t.req), EntryFor(t.req, t.phase.resp, now, ttl))),
               id, t, Settled(t.phase.resp))
          .(log := st.log + [Stored(id, t.req, t.phase.resp, now, ttl)])
      case Write(_) =>
        if !t.phase.Settled? then st
        else Finish(st, id, t, MissReply(s, t.phase.resp), None)
  }

  const INITIAL := State([], map[], [])

  function RunFrom(s: Setup, st: State, steps: seq<Step>): State {
    if steps == [] then st
    else Next(s, RunFrom(s, st, steps[..|steps| - 1]), steps[|steps| - 1])
  }
}
