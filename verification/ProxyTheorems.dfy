/** What holds of every interleaving of requests through the caching proxy. */
module ProxyTheorems {
  import opened Basics
  import opened Recency
  import opened HttpHeader
  import opened CachePolicy
  import opened CacheKeys
  import opened ProxyModel
  import opened ProxyText
  import opened CacheRuns

  /** The policy parses the URL first, and parsing rejects control characters. */
  ghost predicate PolicyRejectsNul(s: Setup) {
    forall url :: s.env.allows(url) ==> NulFree(url)
  }

  // ---------- where a stored entry comes from ----------

  /**
   Event j stored the slot, no later one stored anything under its key, and event i before
   it is the relay's answer that was stored: to the same request, admitted by the policy,
   passing both cacheability tests, with a positive lifetime.
   */
  ghost predicate Backs(s: Setup, log: seq<Event>, slot: Slot, i: int, j: int) {
    && 0 <= i < j < |log|
    && log[i].Relayed? && log[j].Stored?
    && log[j].id == log[i].id && log[j].req == log[i].req && log[j].resp == log[i].resp
    && s.env.allows(log[j].req.url)
    && ShouldStore(s, log[j].req, log[j].resp, log[j].at)
    && log[j].ttl == TTLOf(s, log[j].req, log[j].resp, log[j].at)
    && slot.key == KeyOf(log[j].req)
    && slot.value == EntryFor(log[j].req, log[j].resp, log[j].at, log[j].ttl)
    && forall k :: j < k < |log| ==> !StoresUnder(log[k], slot.key)
  }

  predicate StoresUnder(e: Event, key: string) {
    e.Stored? && KeyOf(e.req) == key
  }

  ghost predicate Backed(s: Setup, log: seq<Event>, slot: Slot) {
    exists i, j :: Backs(s, log, slot, i, j)
  }

  ghost predicate ThreadTraced(s: Setup, log: seq<Event>, id: nat, t: Thread) {
    && (!t.phase.Arrived? && !t.phase.Done? ==> s.env.allows(t.req.url))
    && (t.phase.Received? || t.phase.Settled? ==> Relayed(id, t.req, t.phase.resp) in log)
  }

  /** A reply in the log that is served but not a hit is the one for the relay's answer to
      the same request. */
  ghost predicate MissTraced(s: Setup, log: seq<Event>, n: nat)
    requires n < |log|
  {
    log[n].Answered? && log[n].hitAt.None? && log[n].reply.Served? ==>
      exists i :: 0 <= i < n && log[i].Relayed? && log[i].id == log[n].id && log[i].req == log[n].req &&
                  log[n].reply == MissReply(s, log[i].resp)
  }

  /** A hit in the log was served from a slot that events before it back. */
  ghost predicate HitTraced(s: Setup, log: seq<Event>, n: nat)
    requires n < |log|
  {
    log[n].Answered? && log[n].hitAt.Some? ==>
      exists slot ::
        && Backed(s, log[..n], slot)
        && s.env.allows(log[n].req.url) && MayUseCache(s, log[n].req)
        && slot.key == KeyOf(log[n].req)
        && log[n].hitAt.value <= slot.value.expiresAt
        && log[n].reply == HitReply(log[n].req.verb, slot.value)
  }

  ghost predicate Inv(s: Setup, st: State) {
    && Distinct(st.order)
    && (forall x :: x in st.order ==> Backed(s, st.log, x))
    && (forall id :: id in st.threads ==> ThreadTraced(s, st.log, id, st.threads[id]))
    && (forall n :: 0 <= n < |st.log| ==> HitTraced(s, st.log, n) && MissTraced(s, st.log, n))
  }

  lemma BackedGrows(s: Setup, log: seq<Event>, more: seq<Event>, slot: Slot)
    requires Backed(s, log, slot) && forall k :: 0 <= k < |more| ==> !StoresUnder(more[k], slot.key)
    ensures Backed(s, log + more, slot)
  {
    var i, j :| Backs(s, log, slot, i, j);
    forall k | j < k < |log + more| ensures !StoresUnder((log + more)[k], slot.key) {
      if k >= |log| { assert (log + more)[k] == more[k - |log|]; }
    }
    assert Backs(s, log + more, slot, i, j);
  }

  lemma HitTracedGrows(s: Setup, log: seq<Event>, more: seq<Event>, n: nat)
    requires n < |log| && HitTraced(s, log, n) && MissTraced(s, log, n)
    ensures HitTraced(s, log + more, n) && MissTraced(s, log + more, n)
  {
    assert (log + more)[..n] == log[..n];
  }

  /** Adding an event that is no hit, and moving a thread, keeps what the invariant says of the rest. */
  lemma InvGrows(s: Setup, st: State, order: seq<Slot>, id: nat, t: Thread, more: seq<Event>)
    requires Inv(s, st)
    requires Distinct(order) && forall x :: x in order ==> Backed(s, st.log + more, x)
    requires ThreadTraced(s, st.log + more, id, t)
    requires |more| <= 1
    requires more != [] ==> HitTraced(s, st.log + more, |st.log|) && MissTraced(s, st.log + more, |st.log|)
    ensures Inv(s, State(order, st.threads[id := t], st.log + more))
  {
    var log := st.log + more;
    forall n | 0 <= n < |log| ensures HitTraced(s, log, n) && MissTraced(s, log, n) {
      if n < |st.log| { HitTracedGrows(s, st.log, more, n); }
    }
  }

  lemma OrderGrows(s: Setup, st: State, more: seq<Event>)
    requires Inv(s, st) && forall k :: 0 <= k < |more| ==> !more[k].Stored?
    ensures Distinct(st.order) && forall x :: x in st.order ==> Backed(s, st.log + more, x)
  {
    forall x | x in st.order ensures Backed(s, st.log + more, x) {
      BackedGrows(s, st.log, more, x);
    }
  }

  lemma LookupMembers(o: seq<Slot>, key: string, now: int)
    ensures forall x :: x in Lookup(o, key, now).order ==> x in o
    ensures Lookup(o, key, now).hit.Some? ==>
              Slot(key, Lookup(o, key, now).hit.value) in o && now <= Lookup(o, key, now).hit.value.expiresAt
  {
  }

  lemma StoreMembers(lim: Limits, o: seq<Slot>, key: string, v: Snapshot)
    ensures forall x :: x in Store(lim, o, key, v) ==> x in o || x == Slot(key, v)
    ensures Distinct(o) && Accepts(lim, v) ==>
              forall x :: x in Store(lim, o, key, v) ==> x == Slot(key, v) || (x in o && x.key != key)
  {
    EvictPrefix(lim, Without(o, key), |v.body|);
    if Distinct(o) {
      WithoutKeys(o, key);
      NotResidentAt(Without(o, key), key);
    }
  }

  lemma NextKeepsInv(s: Setup, st: State, step: Step)
    requires Inv(s, st)
    ensures Inv(s, Next(s, st, step))
  {
    hide Inv, HitTraced, MissTraced, Backed, ThreadTraced, Lookup, Store;
    hide ShouldStore, MayUseCache, TTLOf, HitReply, MissReply, EntryFor, KeyOf;
    assert st.log + [] == st.log;
    OrderGrows(s, st, []);
    if step.Arrive? {
      if step.id !in st.threads {
        ArriveTraced(s, st, step.id, step.req);
        InvGrows(s, st, st.order, step.id, Thread(step.req, Arrived), []);
      }
    } else if step.id in st.threads {
      match step
      case Check(id) => CheckKeepsInv(s, st, id);
      case Look(id, now) => LookKeepsInv(s, st, id, now);
      case Relay(id, outcome) => RelayKeepsInv(s, st, id, outcome);
      case Keep(id, now) => KeepKeepsInv(s, st, id, now);
      case Write(id) => WriteKeepsInv(s, st, id);
    }
  }

  lemma ArriveTraced(s: Setup, st: State, id: nat, req: Request)
    ensures ThreadTraced(s, st.log, id, Thread(req, Arrived))
  {
  }

  lemma FinishTraced(s: Setup, st: State, id: nat, t: Thread, reply: Reply)
    requires reply.Served? ==>
               t.phase.Settled? && reply == MissReply(s, t.phase.resp) && Relayed(id, t.req, t.phase.resp) in st.log
    ensures var log := st.log + [Answered(id, t.req, reply, None)];
            ThreadTraced(s, log, id, t.(phase := Done(reply))) &&
            HitTraced(s, log, |st.log|) && MissTraced(s, log, |st.log|)
  {
    if reply.Served? {
      var i :| 0 <= i < |st.log| && st.log[i] == Relayed(id, t.req, t.phase.resp);
      assert (st.log + [Answered(id, t.req, reply, None)])[i] == st.log[i];
    }
  }

  lemma CheckKeepsInv(s: Setup, st: State, id: nat)
    requires Inv(s, st) && id in st.threads
    ensures Inv(s, Next(s, st, Check(id)))
  {
    var t := st.threads[id];
    assert st.log + [] == st.log;
    if t.phase == Arrived {
      if s.env.allows(t.req.url) {
        OrderGrows(s, st, []);
        InvGrows(s, st, st.order, id, t.(phase := Admitted), []);
      } else {
        OrderGrows(s, st, [Answered(id, t.req, Refused(403), None)]);
        FinishTraced(s, st, id, t, Refused(403));
        InvGrows(s, st, st.order, id, t.(phase := Done(Refused(403))), [Answered(id, t.req, Refused(403), None)]);
      }
    }
  }

  lemma LookKeepsInv(s: Setup, st: State, id: nat, now: int)
    requires Inv(s, st) && id in st.threads
    ensures Inv(s, Next(s, st, Look(id, now)))
  {
    var t := st.threads[id];
    assert st.log + [] == st.log;
    OrderGrows(s, st, []);
    if t.phase == Admitted {
      if !MayUseCache(s, t.req) {
        InvGrows(s, st, st.order, id, t.(phase := Relaying), []);
      } else {
        var r := Lookup(st.order, KeyOf(t.req), now);
        LookupMembers(st.order, KeyOf(t.req), now);
        ApplyKeepsDistinct(s.limits, st.order, GetOp(KeyOf(t.req), now));
        if r.hit.Some? {
          var reply := HitReply(t.req.verb, r.hit.value);
          var e := Answered(id, t.req, reply, Some(now));
          OrderGrows(s, st, [e]);
          HitIsTraced(s, st, t, Slot(KeyOf(t.req), r.hit.value), e);
          InvGrows(s, st, r.order, id, t.(phase := Done(reply)), [e]);
        } else {
          InvGrows(s, st, r.order, id, t.(phase := Relaying), []);
        }
      }
    }
  }

  lemma HitIsTraced(s: Setup, st: State, t: Thread, slot: Slot, e: Event)
    requires Inv(s, st) && slot in st.order && s.env.allows(t.req.url) && MayUseCache(s, t.req)
    requires e.Answered? && e.req == t.req && e.hitAt.Some?
    requires slot.key == KeyOf(t.req) && e.hitAt.value <= slot.value.expiresAt
    requires e.reply == HitReply(t.req.verb, slot.value)
    ensures HitTraced(s, st.log + [e], |st.log|)
  {
    assert (st.log + [e])[..|st.log|] == st.log;
  }

  lemma RelayKeepsInv(s: Setup, st: State, id: nat, outcome: Outcome)
    requires Inv(s, st) && id in st.threads
    ensures Inv(s, Next(s, st, Relay(id, outcome)))
  {
    var t := st.threads[id];
    if t.phase == Relaying {
      if outcome.Answer? {
        var e := Relayed(id, t.req, outcome.resp);
        OrderGrows(s, st, [e]);
        InvGrows(s, st, st.order, id, t.(phase := Received(outcome.resp)), [e]);
      } else {
        var reply := Refused(ErrorStatus(outcome));
        OrderGrows(s, st, [Answered(id, t.req, reply, None)]);
        FinishTraced(s, st, id, t, reply);
        InvGrows(s, st, st.order, id, t.(phase := Done(reply)), [Answered(id, t.req, reply, None)]);
      }
    }
  }

  lemma KeepKeepsInv(s: Setup, st: State, id: nat, now: int)
    requires Inv(s, st) && id in st.threads
    ensures Inv(s, Next(s, st, Keep(id, now)))
  {
    var t := st.threads[id];
    assert st.log + [] == st.log;
    OrderGrows(s, st, []);
    if t.phase.Received? {
      var resp := t.phase.resp;
      if !ShouldStore(s, t.req, resp, now) {
        InvGrows(s, st, st.order, id, t.(phase := Settled(resp)), []);
      } else {
        var ttl := TTLOf(s, t.req, resp, now);
        var e := Stored(id, t.req, resp, now, ttl);
        var slot := Slot(KeyOf(t.req), EntryFor(t.req, resp, now, ttl));
        StoredIsBacked(s, st, id, t, e, slot);
        StoreBacked(s, st, e, slot);
        InvGrows(s, st, Store(s.limits, st.order, slot.key, slot.value), id, t.(phase := Settled(resp)), [e]);
      }
    }
  }

  /** A slot that a store leaves was stored by it, or has another key. */
  lemma StoreBacked(s: Setup, st: State, e: Event, slot: Slot)
    requires Inv(s, st) && e.Stored? && slot.key == KeyOf(e.req) && Backed(s, st.log + [e], slot)
    requires Accepts(s.limits, slot.value)
    ensures var order := Store(s.limits, st.order, slot.key, slot.value);
            Distinct(order) && forall x :: x in order ==> Backed(s, st.log + [e], x)
  {
    hide Store, KeyOf, Backed, Distinct, Accepts;
    var order := Store(s.limits, st.order, slot.key, slot.value);
    StoreMembers(s.limits, st.order, slot.key, slot.value);
    ApplyKeepsDistinct(s.limits, st.order, PutOp(slot.key, slot.value));
    forall x | x in order ensures Backed(s, st.log + [e], x) {
      if x != slot { BackedGrows(s, st.log, [e], x); }
    }
  }

  lemma StoredIsBacked(s: Setup, st: State, id: nat, t: Thread, e: Event, slot: Slot)
    requires Inv(s, st) && id in st.threads && st.threads[id] == t && t.phase.Received?
    requires e.Stored? && e == Stored(id, t.req, t.phase.resp, e.at, e.ttl)
    requires ShouldStore(s, t.req, t.phase.resp, e.at) && e.ttl == TTLOf(s, t.req, t.phase.resp, e.at)
    requires slot == Slot(KeyOf(t.req), EntryFor(t.req, t.phase.resp, e.at, e.ttl))
    ensures Backed(s, st.log + [e], slot)
  {
    var i :| 0 <= i < |st.log| && st.log[i] == Relayed(id, t.req, t.phase.resp);
    assert Backs(s, st.log + [e], slot, i, |st.log|);
  }

  lemma WriteKeepsInv(s: Setup, st: State, id: nat)
    requires Inv(s, st) && id in st.threads
    ensures Inv(s, Next(s, st, Write(id)))
  {
    var t := st.threads[id];
    if t.phase.Settled? {
      var reply := MissReply(s, t.phase.resp);
      OrderGrows(s, st, [Answered(id, t.req, reply, None)]);
      FinishTraced(s, st, id, t, reply);
      InvGrows(s, st, st.order, id, t.(phase := Done(reply)), [Answered(id, t.req, reply, None)]);
    }
  }

  lemma {:induction false} RunKeepsInv(s: Setup, steps: seq<Step>)
    ensures Inv(s, RunFrom(s, INITIAL, steps))
  {
    if steps != [] {
      RunKeepsInv(s, steps[..|steps| - 1]);
      NextKeepsInv(s, RunFrom(s, INITIAL, steps[..|steps| - 1]), steps[|steps| - 1]);
    }
  }

  // ---------- transparency ----------

  /** The two requests ask for the same thing as far as the cache can tell. */
  predicate SameTarget(a: Request, b: Request) {
    a.verb == b.verb && a.url == b.url && Get(a.headers, "Accept-Encoding") == Get(b.headers, "Accept-Encoding")
  }

  /** The hit is the response as it came, but for the cache mark and the body of a HEAD. */
  ghost predicate Replays(req: Request, resp: Response, reply: Reply) {
    Relays(reply, resp.status, resp.headers, if req.verb == "HEAD" then [] else resp.body, Some("HIT"))
  }

  /** How far requests with headers h1 and h2 agree on what a Vary line selects. */
  ghost predicate VaryRespected(line: string, h1: Header, h2: Header) {
    && (AgreeOn(line, h1, h2) <==> line == "" || Encodings(h1) == Encodings(h2))
    && (|Encodings(h1)| == |Encodings(h2)| <= 1 ==> AgreeOn(line, h1, h2))
  }

  /**
   In every interleaving, a hit replays an earlier answer of the relay: one to a request
   for the same target, let through by both cacheability tests, and looked up no later
   than the time it was stored plus its positive lifetime. It is the newest one stored
   under the hit's key. On the fields its first Vary line selects the two requests agree,
   line for line, exactly when there are none or their Accept-Encoding lines are the same;
   the key sees to that when both have one such line, or both none.
   */
  lemma HitsReplayRelayedResponses(s: Setup, steps: seq<Step>, n: nat) returns (i: int, j: int)
    requires PolicyRejectsNul(s)
    requires n < |RunFrom(s, INITIAL, steps).log|
    requires var e := RunFrom(s, INITIAL, steps).log[n]; e.Answered? && e.hitAt.Some?
    ensures 0 <= i < j < n
    ensures var log := RunFrom(s, INITIAL, steps).log;
            var hit, kept := log[n], log[j];
            && kept.Stored? && log[i] == Relayed(kept.id, kept.req, kept.resp)
            && SameTarget(hit.req, kept.req)
            && MayUseCache(s, hit.req) && ShouldStore(s, kept.req, kept.resp, kept.at)
            && 0 < kept.ttl == TTLOf(s, kept.req, kept.resp, kept.at)
            && hit.hitAt.value <= kept.at + kept.ttl
            && (forall k :: j < k < n ==> !StoresUnder(log[k], KeyOf(hit.req)))
            && Replays(hit.req, kept.resp, hit.reply)
            && VaryRespected(Get(kept.resp.headers, "Vary"), hit.req.headers, kept.req.headers)
  {
    hide RunFrom, ShouldStore, MayUseCache, KeyOf, TTLOf, HitReply, Replays, SameTarget, EntryFor, VaryRespected, Get;
    var log := RunFrom(s, INITIAL, steps).log;
    RunKeepsInv(s, steps);
    assert HitTraced(s, log, n);
    var slot :|
      && Backed(s, log[..n], slot)
      && s.env.allows(log[n].req.url) && MayUseCache(s, log[n].req)
      && slot.key == KeyOf(log[n].req)
      && log[n].hitAt.value <= slot.value.expiresAt
      && log[n].reply == HitReply(log[n].req.verb, slot.value);
    i, j :| Backs(s, log[..n], slot, i, j);
    SameKeySameTarget(s, log[n].req, log[j].req, log[j].resp, log[j].at);
    HitReplays(s, log[n].req, log[j].req, log[j].resp, log[j].at, log[j].ttl);
  }

  lemma HitReplays(s: Setup, req: Request, kept: Request, resp: Response, at: int, ttl: int)
    requires ShouldStore(s, kept, resp, at) && ttl == TTLOf(s, kept, resp, at)
    ensures ttl > 0 && EntryFor(kept, resp, at, ttl).expiresAt == at + ttl
    ensures Replays(req, resp, HitReply(req.verb, EntryFor(kept, resp, at, ttl)))
  {
    hide IsResponseCacheable, IsRequestCacheable, TTLFor, Get, Canonical, Written, Relays, HitReply;
    HitIsRelayed(req.verb, EntryFor(kept, resp, at, ttl));
  }

  lemma SameKeySameTarget(s: Setup, a: Request, b: Request, resp: Response, at: int)
    requires PolicyRejectsNul(s) && s.env.allows(a.url) && s.env.allows(b.url)
    requires MayUseCache(s, a) && ShouldStore(s, b, resp, at) && KeyOf(a) == KeyOf(b)
    ensures SameTarget(a, b) && VaryRespected(Get(resp.headers, "Vary"), a.headers, b.headers)
  {
    assert NulFree("GET") && NulFree("HEAD");
    KeyInjective(a.verb, a.url, a.headers, b.verb, b.url, b.headers);
    SameKeyAgreesOnVary(resp.status, resp.headers, |resp.body|, ResponseOpts(s),
                        b.verb, b.url, b.headers, a.verb, a.url, a.headers);
  }

  /** In every interleaving, every other served reply is what the relay answered to that
      very request, as it came, with the mark when there is a cache. */
  lemma MissesReturnTheirOwnAnswer(s: Setup, steps: seq<Step>, n: nat) returns (i: int)
    requires n < |RunFrom(s, INITIAL, steps).log|
    requires var e := RunFrom(s, INITIAL, steps).log[n]; e.Answered? && e.hitAt.None? && e.reply.Served?
    ensures var log := RunFrom(s, INITIAL, steps).log;
            && 0 <= i < n && log[i].Relayed?
            && log[i].id == log[n].id && log[i].req == log[n].req
            && Relays(log[n].reply, log[i].resp.status, log[i].resp.headers, log[i].resp.body,
                      if s.cacheOn then Some("MISS") else None)
  {
    RunKeepsInv(s, steps);
    hide RunFrom, MissReply, Relays;
    var log := RunFrom(s, INITIAL, steps).log;
    assert MissTraced(s, log, n);
    i :| 0 <= i < n && log[i].Relayed? && log[i].id == log[n].id && log[i].req == log[n].req &&
         log[n].reply == MissReply(s, log[i].resp);
    MissIsRelayed(s, log[i].resp);
  }

  // ---------- bypass traffic does not interfere ----------

  /** A request the policy denies or that may not use the cache. */
  predicate Bypasses(s: Setup, req: Request) {
    !s.env.allows(req.url) || !IsRequestCacheable(req.verb, req.headers, s.reqOpts)
  }

  function WithoutThreads(steps: seq<Step>, b: set<nat>): seq<Step> {
    if steps == [] then []
    else
      var before, last := WithoutThreads(steps[..|steps| - 1], b), steps[|steps| - 1];
      if last.id in b then before else before + [last]
  }

  function WithoutEvents(log: seq<Event>, b: set<nat>): seq<Event> {
    if log == [] then []
    else
      var before, last := WithoutEvents(log[..|log| - 1], b), log[|log| - 1];
      if last.id in b then before else before + [last]
  }

  /** x and y agree on the cache, on every thread outside b, and on what those threads did. */
  ghost predicate SameButFor(s: Setup, x: State, y: State, b: set<nat>) {
    && x.order == y.order
    && WithoutEvents(x.log, b) == y.log
    && (forall id :: id !in b ==> (id in x.threads <==> id in y.threads))
    && (forall id :: id !in b && id in x.threads ==> x.threads[id] == y.threads[id])
    && (forall id :: id in b && id in x.threads ==>
          && Bypasses(s, x.threads[id].req)
          && (!x.threads[id].phase.Arrived? && !x.threads[id].phase.Done? ==> s.env.allows(x.threads[id].req.url)))
  }

  lemma OneMoreEvent(log: seq<Event>, e: Event, b: set<nat>)
    ensures WithoutEvents(log + [e], b) == WithoutEvents(log, b) + if e.id in b then [] else [e]
  {
    assert (log + [e])[..|log|] == log;
  }

  lemma BypassStep(s: Setup, x: State, y: State, b: set<nat>, step: Step)
    requires SameButFor(s, x, y, b) && step.id in b
    requires step.Arrive? ==> Bypasses(s, step.req)
    ensures SameButFor(s, Next(s, x, step), y, b)
  {
    hide WithoutEvents, Lookup, Store, IsRequestCacheable;
    hide TTLOf, HitReply, MissReply, EntryFor, KeyOf, IsResponseCacheable;
    forall e: Event | e.id == step.id ensures WithoutEvents(x.log + [e], b) == WithoutEvents(x.log, b) {
      OneMoreEvent(x.log, e, b);
    }
  }

  lemma SharedStep(s: Setup, x: State, y: State, b: set<nat>, step: Step)
    requires SameButFor(s, x, y, b) && step.id !in b
    ensures SameButFor(s, Next(s, x, step), Next(s, y, step), b)
  {
    hide WithoutEvents, Lookup, Store, Bypasses;
    hide ShouldStore, MayUseCache, TTLOf, HitReply, MissReply, EntryFor, KeyOf;
    forall e: Event | e.id == step.id ensures WithoutEvents(x.log + [e], b) == WithoutEvents(x.log, b) + [e] {
      OneMoreEvent(x.log, e, b);
    }
  }

  /**
   Deleting from a run every thread of b, all of them denied or uncacheable, leaves the
   cache and its order, every other thread and every other event as they were.
   */
  lemma {:induction false} BypassTrafficDoesNotInterfere(s: Setup, steps: seq<Step>, b: set<nat>)
    requires forall n :: 0 <= n < |steps| && steps[n].Arrive? && steps[n].id in b ==> Bypasses(s, steps[n].req)
    ensures SameButFor(s, RunFrom(s, INITIAL, steps), RunFrom(s, INITIAL, WithoutThreads(steps, b)), b)
  {
    if steps != [] {
      var before, last := steps[..|steps| - 1], steps[|steps| - 1];
      BypassTrafficDoesNotInterfere(s, before, b);
      var x, less := RunFrom(s, INITIAL, before), WithoutThreads(before, b);
      if last.id in b {
        BypassStep(s, x, RunFrom(s, INITIAL, less), b, last);
      } else {
        SharedStep(s, x, RunFrom(s, INITIAL, less), b, last);
        assert (less + [last])[..|less|] == less;
      }
    }
  }

  // ---------- the cache inside the proxy is a run of the cache ----------

  /** The cache call a step makes, if it makes one. */
  function CallOf(s: Setup, st: State, step: Step): seq<Op> {
    if step.Arrive? || step.id !in st.threads then []
    else
      var t := st.threads[step.id];
      if step.Look? && t.phase == Admitted && MayUseCache(s, t.req) then [GetOp(KeyOf(t.req), step.now)]
      else if step.Keep? && t.phase.Received? && ShouldStore(s, t.req, t.phase.resp, step.now) then
        [PutOp(KeyOf(t.req), EntryFor(t.req, t.phase.resp, step.now, TTLOf(s, t.req, t.phase.resp, step.now)))]
      else []
  }

  function CallsOf(s: Setup, steps: seq<Step>): seq<Op> {
    if steps == [] then []
    else CallsOf(s, steps[..|steps| - 1]) + CallOf(s, RunFrom(s, INITIAL, steps[..|steps| - 1]), steps[|steps| - 1])
  }

  lemma StepIsCall(s: Setup, st: State, step: Step, ops: seq<Op>)
    requires st.order == Run(s.limits, [], ops)
    ensures Next(s, st, step).order == Run(s.limits, [], ops + CallOf(s, st, step))
  {
    hide Run, Lookup, Store, ShouldStore, MayUseCache, TTLOf, HitReply, MissReply, EntryFor, KeyOf;
    var call := CallOf(s, st, step);
    if call == [] {
      assert ops + call == ops;
    } else {
      assert call == [call[0]];
      RunStep(s.limits, [], ops, call[0]);
    }
  }

  /** So in every interleaving the cache is in a state some run of Get and Put reaches,
      and what holds of all those runs holds here. */
  lemma {:induction false} ProxyCacheIsCacheRun(s: Setup, steps: seq<Step>)
    ensures RunFrom(s, INITIAL, steps).order == Run(s.limits, [], CallsOf(s, steps))
  {
    if steps != [] {
      ProxyCacheIsCacheRun(s, steps[..|steps| - 1]);
      StepIsCall(s, RunFrom(s, INITIAL, steps[..|steps| - 1]), steps[|steps| - 1], CallsOf(s, steps[..|steps| - 1]));
    }
  }

  /** Every Put the proxy makes is of an entry the cache accepts and that outlives its storing. */
  lemma ProxyPutsAreAccepted(s: Setup, req: Request, resp: Response, now: int)
    requires ShouldStore(s, req, resp, now)
    ensures var v := EntryFor(req, resp, now, TTLOf(s, req, resp, now));
            Accepts(s.limits, v) && v.storedAt < v.expiresAt && KeyOf(req) != ""
  {
  }

  // ---------- the cache does its work ----------

  lemma {:induction false} CallsGrow(s: Setup, a: seq<Step>, b: seq<Step>)
    ensures CallsOf(s, a) <= CallsOf(s, a + b)
  {
    if b == [] {
      assert a + b == a;
    } else {
      CallsGrow(s, a, b[..|b| - 1]);
      assert (a + b)[..|a + b| - 1] == a + b[..|b| - 1];
    }
  }

  /** The cache calls the steps b make after the steps a. */
  function CallsAfter(s: Setup, a: seq<Step>, b: seq<Step>): seq<Op> {
    if |CallsOf(s, a)| <= |CallsOf(s, a + b)| then CallsOf(s, a + b)[|CallsOf(s, a)|..] else []
  }

  lemma CallsSplit(s: Setup, a: seq<Step>, b: seq<Step>)
    ensures CallsOf(s, a + b) == CallsOf(s, a) + CallsAfter(s, a, b)
  {
    CallsGrow(s, a, b);
  }

  /** A lookup by thread id now finds its key resident, and answers from the cache, without
      the relay, exactly when the entry is fresh. */
  ghost predicate IsServed(s: Setup, st: State, id: nat, now: int) {
    && id in st.threads
    && var req, next := st.threads[id].req, Next(s, st, Look(id, now));
       && Resident(st.order, KeyOf(req)) && id in next.threads
       && var v := st.order[Find(st.order, KeyOf(req))].value;
          next.threads[id].phase == if now <= v.expiresAt then Done(HitReply(req.verb, v)) else Relaying
  }

  ghost predicate AwaitsLookup(s: Setup, st: State, id: nat, key: string) {
    && id in st.threads && st.threads[id].phase == Admitted
    && MayUseCache(s, st.threads[id].req) && KeyOf(st.threads[id].req) == key
  }

  lemma LookServesResident(s: Setup, st: State, id: nat, key: string, now: int)
    requires AwaitsLookup(s, st, id, key) && Resident(st.order, key)
    ensures IsServed(s, st, id, now)
  {
    hide HitReply, KeyOf, MayUseCache;
  }

  /**
   In every interleaving: once a step has used a key, by storing or hitting, a request for
   that key is answered from the cache, without the relay, as long as the entry is fresh,
   no lookup found it stale meanwhile, and the distinct other keys used since leave room.
   */
  lemma RecentlyUsedIsServed(s: Setup, before: seq<Step>, use: Step, after: seq<Step>, op: Op, id: nat, now: int)
    requires CallOf(s, RunFrom(s, INITIAL, before), use) == [op]
    requires IsUse(s.limits, RunFrom(s, INITIAL, before).order, op)
    requires AwaitsLookup(s, RunFrom(s, INITIAL, before + [use] + after), id, op.key)
    requires LeavesRoom(s.limits, RunFrom(s, INITIAL, before + [use]).order,
                        CallsAfter(s, before + [use], after), op.key)
    ensures IsServed(s, RunFrom(s, INITIAL, before + [use] + after), id, now)
  {
    hide *;
    UsedStaysResident(s, before, use, after, op);
    LookServesResident(s, RunFrom(s, INITIAL, before + [use] + after), id, op.key, now);
  }

  lemma UsedStaysResident(s: Setup, before: seq<Step>, use: Step, after: seq<Step>, op: Op)
    requires CallOf(s, RunFrom(s, INITIAL, before), use) == [op]
    requires IsUse(s.limits, RunFrom(s, INITIAL, before).order, op)
    requires LeavesRoom(s.limits, RunFrom(s, INITIAL, before + [use]).order,
                        CallsAfter(s, before + [use], after), op.key)
    ensures Resident(RunFrom(s, INITIAL, before + [use] + after).order, op.key)
  {
    hide *;
    var calls, ops := CallsOf(s, before), CallsAfter(s, before + [use], after);
    OneCall(s, before, use, op);
    CallsSplit(s, before + [use], after);
    ProxyCacheIsCacheRun(s, before);
    ProxyCacheIsCacheRun(s, before + [use]);
    ProxyCacheIsCacheRun(s, before + [use] + after);
    RunConcat(s.limits, [], calls + [op], ops);
    UsedKeyStaysResident(s.limits, calls, op, ops);
  }

  lemma OneCall(s: Setup, before: seq<Step>, use: Step, op: Op)
    requires CallOf(s, RunFrom(s, INITIAL, before), use) == [op]
    ensures CallsOf(s, before + [use]) == CallsOf(s, before) + [op]
  {
    assert (before + [use])[..|before|] == before;
  }
}
