/** What the proxy keeps and answers, in terms of the messages alone. */
module ProxyText {
  import opened Basics
  import opened Text
  import opened Directives
  import opened Recency
  import opened HttpHeader
  import opened CachePolicy
  import opened CacheKeys
  import opened PolicyText
  import opened ProxyModel

  // ---------- replies ----------

  /** reply has this status and body, the cache mark if one is given, and of every other
      field the values of headers, if it has any. */
  ghost predicate Relays(reply: Reply, status: int, headers: Header, body: seq<byte>, mark: Option<string>) {
    && reply.Served? && reply.status == status && reply.body == body
    && (forall k :: k != "X-Chunkbridge-Cache" || mark.None? ==>
          (k in reply.headers <==> k in headers && headers[k] != []) &&
          (k in reply.headers ==> reply.headers[k] == headers[k]))
    && (mark.Some? ==>
          "X-Chunkbridge-Cache" in reply.headers && reply.headers["X-Chunkbridge-Cache"] == [mark.value])
  }

  lemma MarkIsCanonical()
    ensures Canonical(MARK) == "X-Chunkbridge-Cache"
  {
    hide Canonical, IsToken;
    var a, b, c := "X-", "Chunkbridge-", "Cache";
    FirstPart();
    MiddlePart();
    LastPart();
    assert a[1] == '-' && b[11] == '-' && |b| == 12;
    CanonicalParts(a, b);
    CanonicalParts(a + b, c);
    assert a + b + c == "X-Chunkbridge-Cache";
  }

  lemma FirstPart()
    ensures IsToken("X-") && Canonical("X-") == "X-"
  {
  }

  lemma MiddlePart()
    ensures IsToken("Chunkbridge-") && Canonical("Chunkbridge-") == "Chunkbridge-"
  {
  }

  lemma LastPart()
    ensures IsToken("Cache") && Canonical("Cache") == "Cache"
  {
  }

  /** The reply to a miss is the response itself, marked when there is a cache. */
  lemma MissIsRelayed(s: Setup, resp: Response)
    ensures Relays(MissReply(s, resp), resp.status, resp.headers, resp.body, if s.cacheOn then Some("MISS") else None)
  {
    MarkIsCanonical();
    hide Canonical;
  }

  /** The reply to a hit is the stored response, without the body for a HEAD. */
  lemma HitIsRelayed(verb: string, v: Snapshot)
    ensures Relays(HitReply(verb, v), v.status, v.header, if verb == "HEAD" then [] else v.body, Some("HIT"))
  {
    MarkIsCanonical();
    hide Canonical;
  }

  // ---------- looking up ----------

  /** The key of a request. */
  function KeyText(req: Request): string {
    req.verb + ['\0'] + req.url + ['\0'] + FirstLine(req.headers, "Accept-Encoding")
  }

  lemma KeyOnText(req: Request)
    ensures KeyOf(req) == KeyText(req)
  {
    EncodingField(req.headers);
    hide Get, FirstLine;
  }

  /** The request may use the cache; cc is its first Cache-Control line. */
  ghost predicate MayAsk(s: Setup, req: Request, cc: seq<Item>) {
    && s.cacheOn && (req.verb == "GET" || req.verb == "HEAD")
    && (s.reqOpts.withAuthorization || FirstLine(req.headers, "Authorization") == "")
    && (s.reqOpts.withCookies || FirstLine(req.headers, "Cookie") == "")
    && !NamedIn(cc, "no-store") && !NamedIn(cc, "no-cache")
  }

  /** cc are the elements of the first line of the field. */
  ghost predicate Reads(h: Header, field: string, cc: seq<Item>) {
    AreItems(cc) && FirstLine(h, field) == LineOf(cc)
  }

  lemma MayUseOnText(s: Setup, req: Request, cc: seq<Item>)
    requires Reads(req.headers, "Cache-Control", cc)
    ensures MayUseCache(s, req) <==> MayAsk(s, req, cc)
  {
    hide IsRequestCacheable, FirstLine, NamedIn, LineOf;
    RequestTestOnText(req.verb, req.headers, s.reqOpts, cc);
  }

  // ---------- storing ----------

  /**
   An answer is kept, if its lifetime is positive: by the settings, the method, the status,
   the size and the first lines of request and response.
   */
  ghost predicate MayKeep(s: Setup, req: Request, resp: Response, reqCC: seq<Item>, cc: seq<Item>, vary: seq<Item>) {
    && MayAsk(s, req, reqCC)
    && (resp.status == 200 || resp.status == 203 || resp.status == 204 || resp.status == 206
        || resp.status == 301 || resp.status == 308)
    && !NamedIn(cc, "no-store")
    && (s.cachePrivate || (!NamedIn(cc, "private") && FirstLine(resp.headers, "Set-Cookie") == ""))
    && (LineOf(vary) == "" ||
        forall i :: 0 <= i < |vary| ==> vary[i].value.None? && EqualFold(vary[i].name, "Accept-Encoding"))
    && (s.limits.maxEntryBytes <= 0 || |resp.body| <= s.limits.maxEntryBytes)
  }

  lemma ShouldStoreOnText(
    s: Setup, req: Request, resp: Response, now: int, reqCC: seq<Item>, cc: seq<Item>, vary: seq<Item>)
    requires Reads(req.headers, "Cache-Control", reqCC)
    requires Reads(resp.headers, "Cache-Control", cc) && Reads(resp.headers, "Vary", vary)
    ensures ShouldStore(s, req, resp, now) <==>
            && MayKeep(s, req, resp, reqCC, cc, vary)
            && TTLFor(resp.headers, req.url, s.defaultTTL, now, s.env.parse) > 0
  {
    hide IsResponseCacheable, MayUseCache, FirstLine, NamedIn, LineOf, TTLFor, EqualFold;
    MayUseOnText(s, req, reqCC);
    ResponseTestOnText(req.verb, resp.status, resp.headers, |resp.body|, ResponseOpts(s), cc, vary);
  }

  /** What is kept: the response as it came, with the time and its lifetime from then on. */
  function Kept(req: Request, resp: Response, now: int, ttl: int): Snapshot {
    Snapshot(req.verb, req.url, resp.status, resp.headers, resp.body, now, now + ttl,
             FirstLine(resp.headers, "Etag"), FirstLine(resp.headers, "Last-Modified"))
  }

  lemma ValidatorFields(h: Header)
    ensures Get(h, "ETag") == FirstLine(h, "Etag")
    ensures Get(h, "Last-Modified") == FirstLine(h, "Last-Modified")
  {
    hide Canonical, IsToken, FirstLine;
    ValidatorNames();
    CanonicalParts("Last-", "Modified");
    assert "Last-" + "Modified" == "Last-Modified";
    FirstLineIsGet(h, "Last-Modified");
    EtagLine(h);
  }

  lemma ValidatorNames()
    ensures IsToken("Last-") && Canonical("Last-") == "Last-"
    ensures IsToken("Modified") && Canonical("Modified") == "Modified"
  {
  }

  lemma EtagLine(h: Header)
    ensures Get(h, "ETag") == FirstLine(h, "Etag")
  {
    assert Canonical("ETag") == "Etag";
    hide Canonical;
  }

  lemma EntryOnText(req: Request, resp: Response, now: int, ttl: int)
    ensures EntryFor(req, resp, now, ttl) == Kept(req, resp, now, ttl)
  {
    hide Get, FirstLine;
    ValidatorFields(resp.headers);
  }

  /** The three lines that decide about a response do have elements. */
  lemma LinesRead(req: Request, resp: Response) returns (reqCC: seq<Item>, cc: seq<Item>, vary: seq<Item>)
    ensures Reads(req.headers, "Cache-Control", reqCC)
    ensures Reads(resp.headers, "Cache-Control", cc) && Reads(resp.headers, "Vary", vary)
  {
    reqCC := EveryLineHasItems(FirstLine(req.headers, "Cache-Control"));
    cc := EveryLineHasItems(FirstLine(resp.headers, "Cache-Control"));
    vary := EveryLineHasItems(FirstLine(resp.headers, "Vary"));
  }

  // ---------- what every step does ----------

  /** A refusal for each way the relay can fail. */
  predicate IsRefusalFor(reply: Reply, outcome: Outcome) {
    match outcome
    case Answer(_) => false
    case ExitError(status, _) => reply == Refused(status)
    case TooManyRequests => reply == Refused(429)
    case RelayFailed => reply == Refused(502)
    case BadPayload => reply == Refused(502)
  }

  /** x answers the request at this time. */
  ghost predicate Answers(order: seq<Slot>, req: Request, at: int, x: Slot) {
    x in order && x.key == KeyText(req) && at <= x.value.expiresAt
  }

  /** No stored slot may answer the request now; cc is its first Cache-Control line. */
  ghost predicate FindsNone(s: Setup, order: seq<Slot>, req: Request, cc: seq<Item>, at: int) {
    MayAsk(s, req, cc) ==> forall x :: !Answers(order, req, at, x)
  }

  /**
   The reply a request calls for: 403 when the policy denies it; what a stored slot holds
   that answers it; else what the relay came back with.
   */
  ghost predicate IsReplyFor(
    s: Setup, order: seq<Slot>, req: Request, cc: seq<Item>, at: int, outcome: Outcome, reply: Reply)
  {
    && (!s.env.allows(req.url) ==> reply == Refused(403))
    && (s.env.allows(req.url) ==>
          && (forall x :: MayAsk(s, req, cc) && Answers(order, req, at, x) ==>
                Relays(reply, x.value.status, x.value.header,
                       if req.verb == "HEAD" then [] else x.value.body, Some("HIT")))
          && (FindsNone(s, order, req, cc, at) ==>
                if outcome.Answer? then
                  Relays(reply, outcome.resp.status, outcome.resp.headers, outcome.resp.body,
                         if s.cacheOn then Some("MISS") else None)
                else IsRefusalFor(reply, outcome)))
  }

  /** What an event says of the step that caused it, and of the state before. */
  ghost predicate Documents(s: Setup, st: State, step: Step, e: Event) {
    && !step.Arrive? && step.id in st.threads && e.id == step.id && e.req == st.threads[step.id].req
    && var phase := st.threads[step.id].phase;
       match e
       case Relayed(_, _, resp) => step.Relay? && phase == Relaying && step.outcome == Answer(resp)
       case Stored(_, req, resp, at, ttl) =>
         && step.Keep? && phase == Received(resp) && at == step.now
         && ttl == TTLFor(resp.headers, req.url, s.defaultTTL, at, s.env.parse)
         && ShouldStore(s, req, resp, at)
       case Answered(_, req, reply, hitAt) =>
         match step
         case Check(_) => phase == Arrived && !s.env.allows(req.url) && hitAt.None? && reply == Refused(403)
         case Look(_, now) =>
           && phase == Admitted && MayUseCache(s, req) && hitAt == Some(now)
           && exists x :: Answers(st.order, req, now, x) &&
                Relays(reply, x.value.status, x.value.header,
                       if req.verb == "HEAD" then [] else x.value.body, Some("HIT"))
         case Relay(_, outcome) => phase == Relaying && hitAt.None? && IsRefusalFor(reply, outcome)
         case Write(_) =>
           && phase.Settled? && hitAt.None?
           && Relays(reply, phase.resp.status, phase.resp.headers, phase.resp.body,
                     if s.cacheOn then Some("MISS") else None)
         case _ => false
  }

  lemma StepDocumented(s: Setup, st: State, step: Step)
    ensures var more := Next(s, st, step).log;
            more == st.log ||
            (|more| == |st.log| + 1 && more[..|st.log|] == st.log && Documents(s, st, step, more[|st.log|]))
  {
    hide HitReply, MissReply, Relays, Lookup, Store, KeyOf, ShouldStore, MayUseCache, EntryFor;
    hide TTLFor, KeyText, Answers;
    if !step.Arrive? && step.id in st.threads {
      var t := st.threads[step.id];
      match step
      case Look(id, now) =>
        if t.phase == Admitted && MayUseCache(s, t.req) { LookDocumented(s, st, id, now); }
      case Write(id) =>
        if t.phase.Settled? { MissIsRelayed(s, t.phase.resp); }
      case _ =>
    }
  }

  lemma LookDocumented(s: Setup, st: State, id: nat, now: int)
    requires id in st.threads
    ensures var req := st.threads[id].req;
            var r := Lookup(st.order, KeyOf(req), now);
            r.hit.Some? ==>
              exists x :: Answers(st.order, req, now, x) &&
                Relays(HitReply(req.verb, r.hit.value), x.value.status, x.value.header,
                       if req.verb == "HEAD" then [] else x.value.body, Some("HIT"))
  {
    var req := st.threads[id].req;
    var r := Lookup(st.order, KeyOf(req), now);
    KeyOnText(req);
    if r.hit.Some? {
      var x := st.order[Find(st.order, KeyOf(req))];
      HitIsRelayed(req.verb, x.value);
      hide Relays, KeyText, KeyOf;
      assert Answers(st.order, req, now, x);
    }
  }

  /** In every interleaving every event in the log is what its step, in the state it met,
      calls for; in particular every reply. */
  lemma {:induction false} EveryEventDocumented(s: Setup, steps: seq<Step>, n: nat) returns (m: nat)
    requires n < |RunFrom(s, INITIAL, steps).log|
    ensures m < |steps|
    ensures RunFrom(s, INITIAL, steps[..m]).log == RunFrom(s, INITIAL, steps).log[..n]
    ensures Documents(s, RunFrom(s, INITIAL, steps[..m]), steps[m], RunFrom(s, INITIAL, steps).log[n])
  {
    hide Documents, Next;
    var before := steps[..|steps| - 1];
    var st := RunFrom(s, INITIAL, before);
    StepDocumented(s, st, steps[|steps| - 1]);
    if n < |st.log| {
      m := EveryEventDocumented(s, before, n);
      assert before[..m] == steps[..m];
    } else {
      m := |steps| - 1;
    }
  }
}
