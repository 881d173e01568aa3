/** ServeHTTP, one request from start to finish, on the cache object. */
module HttpProxy {
  import opened Basics
  import opened Recency
  import opened HttpHeader
  import opened CachePolicy
  import opened CacheKeys
  import opened Directives
  import opened PolicyText
  import opened ProxyModel
  import opened ProxyText
  import opened ProxyTheorems
  import opened ResponseCache

  /** Writing a header out name by name gives Written, whatever the order. */
  lemma {:induction false} AddedIsWritten(h: Header, ks: seq<string>)
    requires CanonicalNames(h) && IsWalk(h, ks)
    ensures AddedInOrder(h, ks) == Written(h)
  {
    AddedCollects(h, ks);
    assert (set k | k in ks) == h.Keys;
    CollectedIsWritten(h, AddedInOrder(h, ks));
  }

  lemma CollectedIsWritten(h: Header, dst: Header)
    requires CanonicalNames(h) && Collects(dst, h, h.Keys)
    ensures dst == Written(h)
  {
    hide Canonical;
    assert forall c :: c in dst ==> c in Written(h) && dst[c] == Written(h)[c];
    assert forall c :: c in Written(h) ==> c in dst;
  }

  /** The states of the machine when one request runs alone, and its reply. */
  function Alone(s: Setup, order: seq<Slot>, req: Request, lookAt: int, outcome: Outcome, keepAt: int): State {
    Next(s, Next(s, Next(s, Next(s, Next(s, Next(s, State(order, map[], []),
      Arrive(0, req)), Check(0)), Look(0, lookAt)), Relay(0, outcome)), Keep(0, keepAt)), Write(0))
  }

  /** The order left by the lookup of a request that runs alone. */
  function AfterLook(s: Setup, order: seq<Slot>, req: Request, lookAt: int): seq<Slot> {
    if MayUseCache(s, req) then Lookup(order, KeyOf(req), lookAt).order else order
  }

  function HitOf(s: Setup, order: seq<Slot>, req: Request, lookAt: int): Option<Snapshot> {
    if MayUseCache(s, req) then Lookup(order, KeyOf(req), lookAt).hit else None
  }

  lemma AloneDenied(s: Setup, order: seq<Slot>, req: Request, lookAt: int, outcome: Outcome, keepAt: int)
    requires !s.env.allows(req.url)
    ensures var st := Alone(s, order, req, lookAt, outcome, keepAt);
            0 in st.threads && st.order == order && st.threads[0].phase == Done(Refused(403))
  {
  }

  lemma AloneHit(s: Setup, order: seq<Slot>, req: Request, lookAt: int, outcome: Outcome, keepAt: int)
    requires s.env.allows(req.url) && HitOf(s, order, req, lookAt).Some?
    ensures var st := Alone(s, order, req, lookAt, outcome, keepAt);
            && 0 in st.threads && st.order == AfterLook(s, order, req, lookAt)
            && st.threads[0].phase == Done(HitReply(req.verb, HitOf(s, order, req, lookAt).value))
  {
    hide Lookup, Store, KeyOf, HitReply, MissReply, ShouldStore, TTLOf, EntryFor;
  }

  lemma AloneMiss(s: Setup, order: seq<Slot>, req: Request, lookAt: int, outcome: Outcome, keepAt: int)
    requires s.env.allows(req.url) && HitOf(s, order, req, lookAt).None?
    ensures var st, looked := Alone(s, order, req, lookAt, outcome, keepAt), AfterLook(s, order, req, lookAt);
            && 0 in st.threads
            && (!outcome.Answer? ==> st.order == looked && st.threads[0].phase == Done(Refused(ErrorStatus(outcome))))
            && (outcome.Answer? ==>
                  && st.order == AfterKeep(s, looked, req, outcome.resp, keepAt)
                  && st.threads[0].phase == Done(MissReply(s, outcome.resp)))
  {
    hide Lookup, Store, KeyOf, HitReply, MissReply, ShouldStore, TTLOf, EntryFor, ErrorStatus;
  }

  function AfterKeep(s: Setup, order: seq<Slot>, req: Request, resp: Response, keepAt: int): seq<Slot> {
    if ShouldStore(s, req, resp, keepAt) then
      Store(s.limits, order, KeyOf(req), EntryFor(req, resp, keepAt, TTLOf(s, req, resp, keepAt)))
    else order
  }

  ghost predicate AllCanonical(order: seq<Slot>) {
    forall x :: x in order ==> CanonicalNames(x.value.header)
  }

  lemma StillCanonical(s: Setup, order: seq<Slot>, req: Request, lookAt: int)
    requires AllCanonical(order)
    ensures AllCanonical(AfterLook(s, order, req, lookAt))
    ensures HitOf(s, order, req, lookAt).Some? ==> CanonicalNames(HitOf(s, order, req, lookAt).value.header)
  {
    LookupMembers(order, KeyOf(req), lookAt);
  }

  lemma KeepCanonical(s: Setup, order: seq<Slot>, req: Request, resp: Response, keepAt: int)
    requires AllCanonical(order) && CanonicalNames(resp.headers)
    ensures AllCanonical(AfterKeep(s, order, req, resp, keepAt))
  {
    StoreMembers(s.limits, order, KeyOf(req), EntryFor(req, resp, keepAt, TTLOf(s, req, resp, keepAt)));
  }

  lemma HitOnText(s: Setup, order: seq<Slot>, req: Request, at: int, cc: seq<Item>)
    requires Distinct(order) && Reads(req.headers, "Cache-Control", cc)
    ensures HitOf(s, order, req, at).None? <==> FindsNone(s, order, req, cc, at)
    ensures forall x :: MayAsk(s, req, cc) && Answers(order, req, at, x) ==> HitOf(s, order, req, at) == Some(x.value)
  {
    MayUseOnText(s, req, cc);
    KeyOnText(req);
    hide KeyOf, KeyText, MayUseCache, MayAsk, Reads;
    var i := Find(order, KeyOf(req));
    forall x | Answers(order, req, at, x) ensures i < |order| && order[i] == x {
      var j :| 0 <= j < |order| && order[j] == x;
    }
    if i < |order| && at <= order[i].value.expiresAt { assert Answers(order, req, at, order[i]); }
  }

  /** A request that runs alone gets the reply it calls for. */
  lemma AloneOnText(
    s: Setup, order: seq<Slot>, req: Request, lookAt: int, outcome: Outcome, keepAt: int, cc: seq<Item>)
    requires Distinct(order) && Reads(req.headers, "Cache-Control", cc)
    ensures var st := Alone(s, order, req, lookAt, outcome, keepAt);
            && 0 in st.threads && st.threads[0].phase.Done?
            && IsReplyFor(s, order, req, cc, lookAt, outcome, st.threads[0].phase.reply)
  {
    hide Alone, HitOf, AfterLook, AfterKeep, Relays, HitReply, MissReply, MayAsk, Answers, Reads;
    HitOnText(s, order, req, lookAt, cc);
    if !s.env.allows(req.url) {
      AloneDenied(s, order, req, lookAt, outcome, keepAt);
    } else if HitOf(s, order, req, lookAt).Some? {
      AloneHit(s, order, req, lookAt, outcome, keepAt);
      HitIsRelayed(req.verb, HitOf(s, order, req, lookAt).value);
    } else {
      AloneMiss(s, order, req, lookAt, outcome, keepAt);
      if outcome.Answer? { MissIsRelayed(s, outcome.resp); }
    }
  }

  /** What the store step leaves, by the messages alone. */
  lemma KeepOnText(
    s: Setup, order: seq<Slot>, req: Request, resp: Response, keepAt: int,
    reqCC: seq<Item>, cc: seq<Item>, vary: seq<Item>)
    requires Reads(req.headers, "Cache-Control", reqCC)
    requires Reads(resp.headers, "Cache-Control", cc) && Reads(resp.headers, "Vary", vary)
    ensures var ttl := TTLFor(resp.headers, req.url, s.defaultTTL, keepAt, s.env.parse);
            AfterKeep(s, order, req, resp, keepAt) ==
              if MayKeep(s, req, resp, reqCC, cc, vary) && ttl > 0 then
                Store(s.limits, order, KeyText(req), Kept(req, resp, keepAt, ttl))
              else order
  {
    hide KeyOf, KeyText, Store, TTLFor, Reads, MayKeep, ShouldStore, EntryFor, Kept;
    KeyOnText(req);
    ShouldStoreOnText(s, req, resp, keepAt, reqCC, cc, vary);
    EntryOnText(req, resp, keepAt, TTLFor(resp.headers, req.url, s.defaultTTL, keepAt, s.env.parse));
  }

  lemma KeyNotEmpty(req: Request)
    ensures KeyOf(req) != ""
  {
  }

  class HttpProxy {
    const s: Setup
    /** Present exactly when caching is on. */
    const cache: Cache?

    ghost predicate Valid()
      reads this, cache, if cache != null then {cache.lru, cache.lru.l} + cache.lru.Footprint() + cache.store else {}
    {
      && s.cacheOn == (cache != null)
      && (cache != null ==>
            && cache.Valid() && cache.lim == s.limits
            && AllCanonical(cache.order))
    }

    ghost function Order(): seq<Slot>
      reads this, cache
    {
      if cache == null then [] else cache.order
    }

    lemma OrderIsDistinct()
      requires Valid()
      ensures Distinct(Order())
    {
      hide AllCanonical;
    }

    constructor (s: Setup, cache: Cache?)
      ensures this.s == s && this.cache == cache
    {
      this.s, this.cache := s, cache;
    }

    /** Writes a header out and marks it when there is a cache. */
    method WriteHeader(h: Header, mark: string) returns (w: HeaderMap)
      requires CanonicalNames(h) && Valid()
      ensures fresh(w) && Valid() && Order() == old(Order())
      ensures w.m == if cache == null then Written(h) else Written(h)[Canonical(MARK) := [mark]]
    {
      hide Cache.Valid, CanonicalNames, AllCanonical, Written;
      w := new HeaderMap();
      assert cache != null ==> w !in cache.store && w !in cache.lru.Footprint();
      ghost var ks := w.AddAll(h);
      AddedIsWritten(h, ks);
      if cache != null {
        w.Set(MARK, mark);
      }
    }

    /** The lookup step: the stored entry on a fresh hit. */
    method LookUp(req: Request, lookAt: int) returns (e: Entry?)
      requires Valid()
      modifies if cache != null then {cache} + cache.lru.Footprint() else {}
      ensures Valid() && Order() == AfterLook(s, old(Order()), req, lookAt)
      ensures cache != null ==> cache.lru.Footprint() <= old(cache.lru.Footprint())
      ensures e == null <==> HitOf(s, old(Order()), req, lookAt).None?
      ensures e != null ==> cache != null && e.Value() == HitOf(s, old(Order()), req, lookAt).value
      ensures e != null ==> CanonicalNames(e.header)
    {
      hide Cache.Valid, Lookup, BuildKey, AllCanonical, CanonicalNames, IsRequestCacheable;
      StillCanonical(s, Order(), req, lookAt);
      if cache != null {
        if IsRequestCacheable(req.verb, req.headers, s.reqOpts) {
          e := cache.Get(BuildKey(req.verb, req.url, req.headers), lookAt);
          return;
        }
      }
      e := null;
    }

    /** The store step. */
    method KeepAnswer(req: Request, resp: Response, keepAt: int)
      requires Valid() && CanonicalNames(resp.headers)
      modifies if cache != null then {cache} + cache.lru.Footprint() else {}
      ensures Valid() && Order() == AfterKeep(s, old(Order()), req, resp, keepAt)
      ensures var ttl := TTLFor(resp.headers, req.url, s.defaultTTL, keepAt, s.env.parse);
              forall reqCC, cc, vary ::
                && Reads(req.headers, "Cache-Control", reqCC)
                && Reads(resp.headers, "Cache-Control", cc) && Reads(resp.headers, "Vary", vary) ==>
                  Order() == if MayKeep(s, req, resp, reqCC, cc, vary) && ttl > 0 then
                               Store(s.limits, old(Order()), KeyText(req), Kept(req, resp, keepAt, ttl))
                             else old(Order())
      ensures cache != null ==> forall o :: o in cache.lru.Footprint() ==> o in old(cache.lru.Footprint()) || fresh(o)
    {
      hide Cache.Valid, Store, AllCanonical, CanonicalNames, IsRequestCacheable;
      hide IsResponseCacheable, TTLFor, Get, BuildKey, Reads, MayKeep, KeyText, Kept;
      forall reqCC, cc, vary |
        && Reads(req.headers, "Cache-Control", reqCC)
        && Reads(resp.headers, "Cache-Control", cc) && Reads(resp.headers, "Vary", vary)
      {
        KeepOnText(s, Order(), req, resp, keepAt, reqCC, cc, vary);
      }
      assert KeyOf(req) != "" by { KeyNotEmpty(req); }
      KeepCanonical(s, Order(), req, resp, keepAt);
      if cache != null {
        if && IsRequestCacheable(req.verb, req.headers, s.reqOpts)
           && IsResponseCacheable(req.verb, resp.status, resp.headers, |resp.body|, ResponseOpts(s))
        {
          var ttl := TTLFor(resp.headers, req.url, s.defaultTTL, keepAt, s.env.parse);
          if ttl > 0 {
            var bodyCopy := new byte[|resp.body|](i requires 0 <= i < |resp.body| => resp.body[i]);
            assert bodyCopy[..] == resp.body;
            var entry := new Entry(EntryFor(req, resp, keepAt, ttl), bodyCopy);
            assert entry.Value() == EntryFor(req, resp, keepAt, ttl);
            cache.Put(KeyOf(req), entry);
          }
        }
      }
    }

    /**
     Answers one request. Reply and cache are those of the machine when the request's six
     steps run without another between them.
     */
    method ServeHTTP(req: Request, lookAt: int, outcome: Outcome, keepAt: int) returns (reply: Reply)
      requires Valid()
      requires outcome.Answer? ==> CanonicalNames(outcome.resp.headers)
      modifies if cache != null then {cache} + cache.lru.Footprint() else {}
      ensures Valid()
      ensures var st := Alone(s, old(Order()), req, lookAt, outcome, keepAt);
              0 in st.threads && st.threads[0].phase == Done(reply) && Order() == st.order
      ensures forall cc :: Reads(req.headers, "Cache-Control", cc) ==>
                IsReplyFor(s, old(Order()), req, cc, lookAt, outcome, reply)
      ensures cache != null ==> forall o :: o in cache.lru.Footprint() ==> o in old(cache.lru.Footprint()) || fresh(o)
    {
      hide Alone, AfterLook, AfterKeep, HitOf, AllCanonical, Cache.Valid, IsReplyFor, Reads;
      ghost var order := Order();
      OrderIsDistinct();
      forall cc | Reads(req.headers, "Cache-Control", cc) {
        AloneOnText(s, order, req, lookAt, outcome, keepAt, cc);
      }
      if !s.env.allows(req.url) {
        AloneDenied(s, order, req, lookAt, outcome, keepAt);
        return Refused(403);
      }
      var e := LookUp(req, lookAt);
      if e != null {
        AloneHit(s, order, req, lookAt, outcome, keepAt);
        var w := WriteHeader(e.header, "HIT");
        return Served(e.status, w.m, if e.body.Length > 0 && req.verb != "HEAD" then e.body[..] else []);
      }
      AloneMiss(s, order, req, lookAt, outcome, keepAt);
      if !outcome.Answer? {
        return Refused(ErrorStatus(outcome));
      }
      KeepAnswer(req, outcome.resp, keepAt);
      var w := WriteHeader(outcome.resp.headers, "MISS");
      return Served(outcome.resp.status, w.m, outcome.resp.body);
    }
  }
}
