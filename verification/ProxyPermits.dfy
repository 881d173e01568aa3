/** What is stored, replayed and relayed in any interleaving, by the settings and the messages. */
module ProxyPermits {
  import opened Basics
  import opened Text
  import opened Directives
  import opened Recency
  import opened HttpHeader
  import opened CachePolicy
  import opened PolicyText
  import opened ProxyModel
  import opened ProxyText
  import opened ProxyTheorems

  /** Only what the policy allows is relayed. */
  lemma RelayedIsAllowed(s: Setup, steps: seq<Step>, n: nat)
    requires n < |RunFrom(s, INITIAL, steps).log| && RunFrom(s, INITIAL, steps).log[n].Relayed?
    ensures s.env.allows(RunFrom(s, INITIAL, steps).log[n].req.url)
  {
    var m := EveryEventDocumented(s, steps, n);
    RunKeepsInv(s, steps[..m]);
    hide RunFrom;
  }

  /**
   In every interleaving, what is stored is what the settings, the request and the first
   lines of the response permit, for the lifetime those give.
   */
  lemma StoredIsPermitted(
    s: Setup, steps: seq<Step>, n: nat, reqCC: seq<Item>, cc: seq<Item>, vary: seq<Item>)
    requires n < |RunFrom(s, INITIAL, steps).log| && RunFrom(s, INITIAL, steps).log[n].Stored?
    requires var e := RunFrom(s, INITIAL, steps).log[n];
             && Reads(e.req.headers, "Cache-Control", reqCC)
             && Reads(e.resp.headers, "Cache-Control", cc) && Reads(e.resp.headers, "Vary", vary)
    ensures var e := RunFrom(s, INITIAL, steps).log[n];
            && MayKeep(s, e.req, e.resp, reqCC, cc, vary)
            && 0 < e.ttl == TTLFor(e.resp.headers, e.req.url, s.defaultTTL, e.at, s.env.parse)
  {
    hide RunFrom, MayKeep, ShouldStore, TTLFor, Reads;
    var m := EveryEventDocumented(s, steps, n);
    var e := RunFrom(s, INITIAL, steps).log[n];
    ShouldStoreOnText(s, e.req, e.resp, e.at, reqCC, cc, vary);
  }

  /** The first line of any field but the mark goes through a reply unchanged. */
  lemma LineReplayed(reply: Reply, status: int, h: Header, body: seq<byte>, mark: Option<string>, field: string)
    requires Relays(reply, status, h, body, mark) && field != "X-Chunkbridge-Cache"
    ensures FirstLine(reply.headers, field) == FirstLine(h, field)
  {
  }

  lemma NotTheMark()
    ensures "Set-Cookie" != "X-Chunkbridge-Cache" && "Cache-Control" != "X-Chunkbridge-Cache"
  {
    assert |"Set-Cookie"| == 10 && |"Cache-Control"| == 13 && |"X-Chunkbridge-Cache"| == 19;
  }

  /**
   Without CachePrivate, in every interleaving: nothing is stored whose first Set-Cookie
   line is not empty or whose first Cache-Control line names private; and nothing such is
   ever replayed. No-store is neither stored nor replayed whatever the settings.
   */
  lemma NothingPrivateIsKept(s: Setup, steps: seq<Step>, n: nat, cc: seq<Item>)
    requires n < |RunFrom(s, INITIAL, steps).log| && RunFrom(s, INITIAL, steps).log[n].Stored?
    requires Reads(RunFrom(s, INITIAL, steps).log[n].resp.headers, "Cache-Control", cc)
    ensures !NamedIn(cc, "no-store")
    ensures !s.cachePrivate ==>
              !NamedIn(cc, "private") && FirstLine(RunFrom(s, INITIAL, steps).log[n].resp.headers, "Set-Cookie") == ""
  {
    hide RunFrom, NamedIn, FirstLine, Reads;
    var e := RunFrom(s, INITIAL, steps).log[n];
    var reqCC, _, vary := LinesRead(e.req, e.resp);
    StoredIsPermitted(s, steps, n, reqCC, cc, vary);
  }

  lemma NothingPrivateIsReplayed(s: Setup, steps: seq<Step>, n: nat, cc: seq<Item>)
    requires PolicyRejectsNul(s)
    requires n < |RunFrom(s, INITIAL, steps).log|
    requires var e := RunFrom(s, INITIAL, steps).log[n];
             e.Answered? && e.hitAt.Some? && e.reply.Served? && Reads(e.reply.headers, "Cache-Control", cc)
    ensures !NamedIn(cc, "no-store")
    ensures !s.cachePrivate ==>
              && !NamedIn(cc, "private")
              && FirstLine(RunFrom(s, INITIAL, steps).log[n].reply.headers, "Set-Cookie") == ""
  {
    hide RunFrom, NamedIn, FirstLine, Relays, ShouldStore, MayUseCache, SameTarget, VaryRespected, TTLOf, KeyOf;
    var log := RunFrom(s, INITIAL, steps).log;
    var i, j := HitsReplayRelayedResponses(s, steps, n);
    var resp := log[j].resp;
    var body := if log[n].req.verb == "HEAD" then [] else resp.body;
    NotTheMark();
    LineReplayed(log[n].reply, resp.status, resp.headers, body, Some("HIT"), "Set-Cookie");
    LineReplayed(log[n].reply, resp.status, resp.headers, body, Some("HIT"), "Cache-Control");
    NothingPrivateIsKept(s, steps, j, cc);
  }

  /** A hit is served only to a request that may ask, and within the lifetime that the
      response's own text gave it. */
  lemma HitsAreFresh(s: Setup, steps: seq<Step>, n: nat, reqCC: seq<Item>, cc: seq<Item>) returns (j: int)
    requires PolicyRejectsNul(s)
    requires n < |RunFrom(s, INITIAL, steps).log|
    requires var e := RunFrom(s, INITIAL, steps).log[n];
             e.Answered? && e.hitAt.Some? && Reads(e.req.headers, "Cache-Control", reqCC)
    ensures 0 <= j < n
    ensures var log := RunFrom(s, INITIAL, steps).log;
            && MayAsk(s, log[n].req, reqCC)
            && log[j].Stored? && Replays(log[n].req, log[j].resp, log[n].reply)
            && (Reads(log[j].resp.headers, "Cache-Control", cc) ==>
                  forall k, age ::
                    0 <= k < |cc| && GivesAge(cc[k], age) && (forall l, m :: 0 <= l < k ==> !GivesAge(cc[l], m)) ==>
                      log[n].hitAt.value <= log[j].at + age * 1_000_000_000)
  {
    hide RunFrom, FirstLine, Relays, ShouldStore, MayUseCache, SameTarget, VaryRespected, TTLFor, KeyOf, MayAsk;
    hide GivesAge, LineOf, AreItems;
    var i;
    i, j := HitsReplayRelayedResponses(s, steps, n);
    var log := RunFrom(s, INITIAL, steps).log;
    MayUseOnText(s, log[n].req, reqCC);
    if Reads(log[j].resp.headers, "Cache-Control", cc) {
      LifetimeOnText(log[j].resp.headers, log[j].req.url, s.defaultTTL, log[j].at, s.env.parse, cc);
    }
  }
}
