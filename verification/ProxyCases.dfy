/** What the key does not see: runs in which one request is served the answer to another. */
module ProxyCases {
  import opened Basics
  import opened Recency
  import opened HttpHeader
  import opened CachePolicy
  import opened CacheKeys
  import opened ProxyModel
  import opened ProxyTheorems

  /** The run in which a is relayed and stored at the given time, and then b is looked up. */
  function OneAfterTheOther(a: Request, b: Request, resp: Response, now: int): seq<Step> {
    FirstSteps(a, resp, now) + [Arrive(1, b)] + [Check(1)] + [Look(1, now)]
  }

  function FirstSteps(a: Request, resp: Response, now: int): seq<Step> {
    [Arrive(0, a)] + [Check(0)] + [Look(0, now)] + [Relay(0, Answer(resp))] + [Keep(0, now)]
  }

  lemma RunNext(s: Setup, steps: seq<Step>, step: Step)
    ensures RunFrom(s, INITIAL, steps + [step]) == Next(s, RunFrom(s, INITIAL, steps), step)
  {
    assert (steps + [step])[..|steps|] == steps;
  }

  lemma MissOnEmpty(s: Setup, t: Thread, now: int)
    requires t.phase == Admitted
    ensures Next(s, State([], map[0 := t], []), Look(0, now)) == State([], map[0 := t.(phase := Relaying)], [])
  {
    hide KeyOf, HitReply, MayUseCache;
  }

  lemma KeepOnEmpty(s: Setup, st: State, a: Request, resp: Response, now: int)
    requires ShouldStore(s, a, resp, now) && st.order == []
    requires 0 in st.threads && st.threads[0] == Thread(a, Received(resp))
    ensures var ttl, next := TTLOf(s, a, resp, now), Next(s, st, Keep(0, now));
            && next.order == [Slot(KeyOf(a), EntryFor(a, resp, now, ttl))]
            && next.threads == st.threads[0 := Thread(a, Settled(resp))]
            && next.log == st.log + [Stored(0, a, resp, now, ttl)]
  {
    ProxyPutsAreAccepted(s, a, resp, now);
    hide KeyOf, EntryFor, TTLOf, ShouldStore, Store, Accepts, Lookup, HitReply, MissReply;
    StoreOnEmpty(s.limits, KeyOf(a), EntryFor(a, resp, now, TTLOf(s, a, resp, now)));
  }

  lemma StoreOnEmpty(lim: Limits, key: string, v: Snapshot)
    requires Accepts(lim, v)
    ensures Store(lim, [], key, v) == [Slot(key, v)]
  {
  }

  lemma NothingRun(s: Setup)
    ensures RunFrom(s, INITIAL, []) == INITIAL
  {
  }

  lemma AnswerComes(s: Setup, a: Request, resp: Response, now: int)
    requires s.env.allows(a.url)
    ensures RunFrom(s, INITIAL, [Arrive(0, a)] + [Check(0)] + [Look(0, now)] + [Relay(0, Answer(resp))]) ==
            State([], map[0 := Thread(a, Received(resp))], [Relayed(0, a, resp)])
  {
    var p1 := [Arrive(0, a)];
    var p2 := p1 + [Check(0)];
    var p3 := p2 + [Look(0, now)];
    hide KeyOf, HitReply, RunFrom, MayUseCache, Lookup, Store, ShouldStore, TTLOf;
    NothingRun(s);
    RunNext(s, [], Arrive(0, a));
    assert [] + p1 == p1;
    RunNext(s, p1, Check(0));
    RunNext(s, p2, Look(0, now));
    MissOnEmpty(s, Thread(a, Admitted), now);
    RunNext(s, p3, Relay(0, Answer(resp)));
  }

  /** After the first five steps the answer is stored, alone. */
  lemma FirstIsStored(s: Setup, a: Request, resp: Response, now: int)
    requires s.env.allows(a.url) && ShouldStore(s, a, resp, now)
    ensures var ttl, st := TTLOf(s, a, resp, now), RunFrom(s, INITIAL, FirstSteps(a, resp, now));
            && st.order == [Slot(KeyOf(a), EntryFor(a, resp, now, ttl))] && 1 !in st.threads
            && st.log == [Relayed(0, a, resp), Stored(0, a, resp, now, ttl)]
  {
    hide RunFrom, Next, KeyOf, EntryFor, TTLOf, ShouldStore;
    var p := [Arrive(0, a)] + [Check(0)] + [Look(0, now)] + [Relay(0, Answer(resp))];
    AnswerComes(s, a, resp, now);
    RunNext(s, p, Keep(0, now));
    KeepOnEmpty(s, RunFrom(s, INITIAL, p), a, resp, now);
  }

  /** Then b is admitted. */
  lemma SecondIsAdmitted(s: Setup, st: State, b: Request)
    requires 1 !in st.threads && s.env.allows(b.url)
    ensures Next(s, Next(s, st, Arrive(1, b)), Check(1)) == st.(threads := st.threads[1 := Thread(b, Admitted)])
  {
    assert st.threads[1 := Thread(b, Arrived)][1 := Thread(b, Admitted)] == st.threads[1 := Thread(b, Admitted)];
  }

  lemma LookHits(s: Setup, st: State, b: Request, v: Snapshot, now: int)
    requires 1 in st.threads && st.threads[1] == Thread(b, Admitted) && MayUseCache(s, b)
    requires st.order == [Slot(KeyOf(b), v)] && now <= v.expiresAt
    ensures Next(s, st, Look(1, now)).log == st.log + [Answered(1, b, HitReply(b.verb, v), Some(now))]
  {
    OnlySlotHits(st.order[0], now);
    hide KeyOf, HitReply, MayUseCache, Lookup;
  }

  lemma SecondIsAnswered(s: Setup, st: State, p: seq<Step>, b: Request, v: Snapshot, now: int)
    requires st == RunFrom(s, INITIAL, p) && 1 !in st.threads && s.env.allows(b.url) && MayUseCache(s, b)
    requires st.order == [Slot(KeyOf(b), v)] && now <= v.expiresAt
    ensures RunFrom(s, INITIAL, p + [Arrive(1, b)] + [Check(1)] + [Look(1, now)]).log ==
            st.log + [Answered(1, b, HitReply(b.verb, v), Some(now))]
  {
    hide KeyOf, HitReply, RunFrom, Next, MayUseCache;
    RunNext(s, p, Arrive(1, b));
    RunNext(s, p + [Arrive(1, b)], Check(1));
    RunNext(s, p + [Arrive(1, b)] + [Check(1)], Look(1, now));
    SecondIsAdmitted(s, st, b);
    LookHits(s, st.(threads := st.threads[1 := Thread(b, Admitted)]), b, v, now);
  }

  /**
   Sharing a key is enough: whatever else sets two requests apart, one is served the
   answer to the other in some run, if both may use the cache and the answer is stored.
   */
  lemma SharedKeyIsServed(s: Setup, a: Request, b: Request, resp: Response, now: int)
    requires s.env.allows(a.url) && s.env.allows(b.url)
    requires ShouldStore(s, a, resp, now) && MayUseCache(s, b) && KeyOf(a) == KeyOf(b)
    ensures var log := RunFrom(s, INITIAL, OneAfterTheOther(a, b, resp, now)).log;
            && |log| == 3 && log[0] == Relayed(0, a, resp) && log[1].Stored?
            && log[2].Answered? && log[2].id == 1 && log[2].req == b && log[2].hitAt == Some(now)
            && Replays(b, resp, log[2].reply)
  {
    var ttl := TTLOf(s, a, resp, now);
    hide KeyOf, EntryFor, TTLOf, HitReply, RunFrom, ShouldStore, MayUseCache, Replays, FirstSteps;
    HitReplays(s, b, a, resp, now, ttl);
    FirstIsStored(s, a, resp, now);
    var p := FirstSteps(a, resp, now);
    SecondIsAnswered(s, RunFrom(s, INITIAL, p), p, b, EntryFor(a, resp, now, ttl), now);
  }

  lemma OnlySlotHits(x: Slot, now: int)
    requires now <= x.value.expiresAt
    ensures Lookup([x], x.key, now).hit == Some(x.value)
  {
    assert Find([x], x.key) == 0;
  }

  /** The request fields whose first lines decide whether and where the cache is used. */
  const FIELDS_READ: set<string> := {"Accept-Encoding", "Authorization", "Cookie", "Cache-Control"}

  /**
   So a difference anywhere but in method, URL and those first lines is not seen: a range
   asked for, with status 206 among those stored, or a second line of Accept-Encoding.
   */
  lemma OtherFieldsAreUnseen(s: Setup, a: Request, b: Request, resp: Response, now: int)
    requires s.env.allows(a.url) && ShouldStore(s, a, resp, now)
    requires b.verb == a.verb && b.url == a.url
    requires forall f :: f in FIELDS_READ ==> Get(b.headers, f) == Get(a.headers, f)
    ensures var log := RunFrom(s, INITIAL, OneAfterTheOther(a, b, resp, now)).log;
            |log| == 3 && log[2].Answered? && log[2].req == b && Replays(b, resp, log[2].reply)
  {
    SameUse(s, a, b);
    hide *;
    SharedKeyIsServed(s, a, b, resp, now);
  }

  lemma SameUse(s: Setup, a: Request, b: Request)
    requires b.verb == a.verb && b.url == a.url
    requires forall f :: f in FIELDS_READ ==> Get(b.headers, f) == Get(a.headers, f)
    ensures KeyOf(a) == KeyOf(b) && (MayUseCache(s, a) <==> MayUseCache(s, b))
  {
    hide Get, HasDirective;
    assert "Accept-Encoding" in FIELDS_READ && "Authorization" in FIELDS_READ;
    assert "Cookie" in FIELDS_READ && "Cache-Control" in FIELDS_READ;
  }

  /** A request that asks for a range, or none, is served a partial answer to any other range. */
  lemma RangeIsUnseen(s: Setup, a: Request, b: Request, resp: Response, now: int)
    requires s.env.allows(a.url) && ShouldStore(s, a, resp, now)
    requires b.verb == a.verb && b.url == a.url && b.headers - {"Range"} == a.headers - {"Range"}
    ensures var log := RunFrom(s, INITIAL, OneAfterTheOther(a, b, resp, now)).log;
            |log| == 3 && log[2].Answered? && log[2].req == b && Replays(b, resp, log[2].reply)
  {
    RangeIsNotRead();
    hide RunFrom, OneAfterTheOther, Replays, ShouldStore, Canonical, FIELDS_READ;
    forall f | f in FIELDS_READ ensures Get(b.headers, f) == Get(a.headers, f) {
      var k := Canonical(f);
      assert k in b.headers <==> k in b.headers - {"Range"};
      assert k in a.headers <==> k in a.headers - {"Range"};
      assert k in a.headers ==> a.headers[k] == (a.headers - {"Range"})[k];
      assert k in b.headers ==> b.headers[k] == (b.headers - {"Range"})[k];
    }
    OtherFieldsAreUnseen(s, a, b, resp, now);
  }

  lemma RangeIsNotRead()
    ensures forall f :: f in FIELDS_READ ==> Canonical(f) != "Range"
  {
    assert |"Range"| == 5 && |"Cookie"| == 6 && |"Authorization"| == |"Cache-Control"| == 13;
    assert |"Accept-Encoding"| == 15;
  }

  /** The br body fetched for one client is served to one that takes gzip only, when br stood
      on a second Accept-Encoding line. */
  lemma SecondEncodingLineServed(s: Setup, url: string, resp: Response, now: int)
    requires s.env.allows(url) && ShouldStore(s, Request("GET", url, Accepting(["gzip", "br"])), resp, now)
    ensures var a, b := Request("GET", url, Accepting(["gzip", "br"])), Request("GET", url, Accepting(["gzip"]));
            var log := RunFrom(s, INITIAL, OneAfterTheOther(a, b, resp, now)).log;
            && |log| == 3 && log[2].Answered? && log[2].req == b && Replays(b, resp, log[2].reply)
            && Encodings(a.headers) != Encodings(b.headers)
  {
    var a, b := Request("GET", url, Accepting(["gzip", "br"])), Request("GET", url, Accepting(["gzip"]));
    hide RunFrom, OneAfterTheOther, Replays, ShouldStore, Encodings, Accepting, Get;
    EncodingsOf(["gzip", "br"]);
    EncodingsOf(["gzip"]);
    AcceptingElse(["gzip", "br"]);
    AcceptingElse(["gzip"]);
    OtherFieldsAreUnseen(s, a, b, resp, now);
  }

  lemma AcceptingElse(lines: seq<string>)
    ensures forall f :: f in FIELDS_READ && f != "Accept-Encoding" ==> Get(Accepting(lines), f) == ""
  {
    assert |"Cookie"| == 6 && |"Authorization"| == |"Cache-Control"| == 13 && |"Accept-Encoding"| == 15;
    forall f | f in FIELDS_READ && f != "Accept-Encoding" ensures Canonical(f) != "Accept-Encoding" {
      assert |Canonical(f)| == |f|;
    }
    hide Canonical;
  }
}
