/** handleRequest and its send path, one request from start to finish. */
module HttpExecutor {
  import opened Basics
  import opened ExitModel
  import opened ExitTheorems

  /** What becomes of one chunk: it cannot be encoded, no token is granted, sending it
      fails (though it may have gone out), or it is sent. */
  datatype Fate = EncodeFails | LimiterFails | SendFails(reached: bool) | IsSent

  /** The steps sender id takes alone when its chunks meet these fates. */
  function Schedule(id: nat, fates: seq<Fate>): seq<Step> {
    if fates == [] then []
    else
      [Draw(id)] +
      match fates[0]
      case IsSent => [Send(id)] + Schedule(id, fates[1..])
      case SendFails(reached) => [Fail(id, reached)]
      case EncodeFails => [Fail(id, false)]
      case LimiterFails => [Fail(id, false)]
  }

  /** One chunk: a draw and what its fate makes of it. */
  ghost function After(st: State, id: nat, fate: Fate): State {
    Next(Next(st, Draw(id)),
         match fate
         case IsSent => Send(id)
         case SendFails(reached) => Fail(id, reached)
         case EncodeFails => Fail(id, false)
         case LimiterFails => Fail(id, false))
  }

  ghost function Alone(st: State, id: nat, fates: seq<Fate>): State
    decreases |fates|
  {
    if fates == [] then st
    else if fates[0].IsSent? then Alone(After(st, id, fates[0]), id, fates[1..])
    else After(st, id, fates[0])
  }

  lemma {:induction false} RunConcat(st: State, a: seq<Step>, b: seq<Step>)
    ensures RunFrom(st, a + b) == RunFrom(RunFrom(st, a), b)
  {
    if b == [] {
      assert a + b == a;
    } else {
      RunConcat(st, a, b[..|b| - 1]);
      assert (a + b)[..|a + b| - 1] == a + b[..|b| - 1];
    }
  }

  lemma RunTwo(st: State, x: Step, y: Step)
    ensures RunFrom(st, [x] + [y]) == Next(Next(st, x), y)
  {
    hide Next;
    var xy := [x] + [y];
    assert xy[..1] == [x] && xy[1] == y;
    assert [x][..0] == [];
    assert RunFrom(st, [x]) == Next(st, x);
  }

  lemma {:induction false} AloneIsRun(st: State, id: nat, fates: seq<Fate>)
    ensures Alone(st, id, fates) == RunFrom(st, Schedule(id, fates))
    decreases |fates|
  {
    if fates != [] {
      hide Next;
      match fates[0]
      case IsSent =>
        AloneIsRun(After(st, id, IsSent), id, fates[1..]);
        RunConcat(st, [Draw(id)] + [Send(id)], Schedule(id, fates[1..]));
        RunTwo(st, Draw(id), Send(id));
        assert Schedule(id, fates) == ([Draw(id)] + [Send(id)]) + Schedule(id, fates[1..]);
      case SendFails(reached) => RunTwo(st, Draw(id), Fail(id, reached));
      case EncodeFails => RunTwo(st, Draw(id), Fail(id, false));
      case LimiterFails => RunTwo(st, Draw(id), Fail(id, false));
    }
  }

  /** What one chunk does to the counter, the transport and its sender. */
  lemma AfterFacts(st: State, id: nat, f: Frame, chunks: seq<Chunk>, i: nat, fate: Fate)
    requires id in st.senders && st.senders[id] == Sender(f, chunks, i, None, false) && i < |chunks|
    ensures var next := After(st, id, fate);
            && next.draws == st.draws + 1
            && Chunks(next.wire) ==
                 Chunks(st.wire) + (if fate.IsSent? || fate == SendFails(true)
                                    then [chunks[i].(seqNum := (st.draws + 1) % UINT32)] else [])
            && id in next.senders
            && (fate.IsSent? ==> next.senders[id] == Sender(f, chunks, i + 1, None, false))
  {
    assert Chunks(st.wire) + [] == Chunks(st.wire);
  }

  /** The chunks numbered on from last, in 32 bits. */
  function NumberedOn(chunks: seq<Chunk>, last: nat): (r: seq<Chunk>)
    ensures |r| == |chunks|
    ensures forall i :: 0 <= i < |r| ==> r[i] == chunks[i].(seqNum := (last + 1 + i) % 4294967296)
  {
    seq(|chunks|, i requires 0 <= i < |chunks| => chunks[i].(seqNum := (last + 1 + i) % 4294967296))
  }

  lemma OneMoreNumber(w: seq<Chunk>, c: Chunk, chunks: seq<Chunk>, last: nat)
    ensures w + [c.(seqNum := (last + 1) % 4294967296)] + NumberedOn(chunks, last + 1) ==
            w + NumberedOn([c] + chunks, last)
  {
    assert NumberedOn([c] + chunks, last) == [c.(seqNum := (last + 1) % 4294967296)] + NumberedOn(chunks, last + 1);
  }

  lemma NumberedModulo(chunks: seq<Chunk>, last: nat)
    ensures NumberedOn(chunks, last % 4294967296) == NumberedOn(chunks, last)
  {
    forall i | 0 <= i < |chunks|
      ensures NumberedOn(chunks, last % 4294967296)[i] == NumberedOn(chunks, last)[i]
    {
      AddModulo(last, 1 + i);
    }
  }

  lemma AddModulo(n: nat, m: nat)
    ensures (n % 4294967296 + m) % 4294967296 == (n + m) % 4294967296
  {
  }

  /** How many chunks go out when the first k are sent and the next, if there is one, is not. */
  function Out(fates: seq<Fate>, k: nat): (n: nat)
    requires k <= |fates|
    ensures n <= |fates|
  {
    if k < |fates| && fates[k] == SendFails(true) then k + 1 else k
  }

  /** What a sender that moves alone draws and puts on the transport. */
  lemma {:induction false} AloneSends(
    st: State, id: nat, f: Frame, chunks: seq<Chunk>, i: nat, fates: seq<Fate>, k: nat)
    requires i + |fates| == |chunks| && id in st.senders && st.senders[id] == Sender(f, chunks, i, None, false)
    requires k <= |fates| && (forall j :: 0 <= j < k ==> fates[j].IsSent?) && (k < |fates| ==> !fates[k].IsSent?)
    ensures var end := Alone(st, id, fates);
            && end.draws == st.draws + (if k < |fates| then k + 1 else k)
            && Chunks(end.wire) == Chunks(st.wire) + NumberedOn(chunks[i..i + Out(fates, k)], st.draws)
    decreases |fates|
  {
    hide After, NumberedOn, Chunks;
    var w := Chunks(st.wire);
    if fates == [] {
      NoneNumbered(st.draws, w);
      assert chunks[i..i] == [];
    } else {
      AfterFacts(st, id, f, chunks, i, fates[0]);
      var n := Out(fates, k);
      if fates[0].IsSent? {
        AloneSends(After(st, id, fates[0]), id, f, chunks, i + 1, fates[1..], k - 1);
        assert n == 1 + Out(fates[1..], k - 1);
        assert chunks[i..i + n] == [chunks[i]] + chunks[i + 1..i + n];
        OneMoreNumber(w, chunks[i], chunks[i + 1..i + n], st.draws);
      } else if n == 1 {
        assert chunks[i..i + 1] == [chunks[i]] + [];
        OneMoreNumber(w, chunks[i], [], st.draws);
        NoneNumbered(st.draws + 1, w + [chunks[i].(seqNum := (st.draws + 1) % 4294967296)]);
      } else {
        NoneNumbered(st.draws, w);
        assert chunks[i..i] == [];
      }
    }
  }

  lemma NoneNumbered(last: nat, w: seq<Chunk>)
    ensures w + NumberedOn([], last) == w
  {
  }

  /** Up to the first chunk that is not sent, every chunk takes the next number and goes out;
      that one takes a number too. Counter and transport stood at last and before. */
  ghost predicate GoesOut(
    chunks: seq<Chunk>, fates: seq<Fate>, last: nat, before: seq<Chunk>, seqNum: nat, wire: seq<Chunk>)
    requires |fates| == |chunks|
  {
    forall k ::
      && 0 <= k <= |fates| && (forall i :: 0 <= i < k ==> fates[i].IsSent?)
      && (k < |fates| ==> !fates[k].IsSent?) ==>
        && wire == before + NumberedOn(chunks[..Out(fates, k)], last)
        && seqNum == (last + if k < |fates| then k + 1 else k) % 4294967296
  }

  lemma SendsOnText(st: State, id: nat, f: Frame, chunks: seq<Chunk>, fates: seq<Fate>)
    requires |fates| == |chunks| && id in st.senders && st.senders[id] == Sender(f, chunks, 0, None, false)
    ensures var end := Alone(st, id, fates);
            GoesOut(chunks, fates, st.draws % UINT32, Chunks(st.wire), end.draws % UINT32, Chunks(end.wire))
  {
    hide Alone, NumberedOn, Out;
    var end := Alone(st, id, fates);
    forall k |
      && 0 <= k <= |fates| && (forall i :: 0 <= i < k ==> fates[i].IsSent?)
      && (k < |fates| ==> !fates[k].IsSent?)
      ensures && Chunks(end.wire) == Chunks(st.wire) + NumberedOn(chunks[..Out(fates, k)], st.draws % 4294967296)
              && end.draws % 4294967296 == (st.draws % 4294967296 + if k < |fates| then k + 1 else k) % 4294967296
    {
      AloneSends(st, id, f, chunks, 0, fates, k);
      NumberedModulo(chunks[..Out(fates, k)], st.draws);
      AddModulo(st.draws, if k < |fates| then k + 1 else k);
      assert chunks[0..0 + Out(fates, k)] == chunks[..Out(fates, k)];
    }
  }

  class HTTPExecutor {
    const maxResponseBytes: int
    const encode: Failure -> seq<byte>
    /** The shared 32-bit counter. */
    var seqNum: nat
    var wire: seq<Chunk>
    ghost var issued: seq<Frame>

    constructor (maxResponseBytes: int, encode: Failure -> seq<byte>)
      ensures this.maxResponseBytes == maxResponseBytes && this.encode == encode
      ensures seqNum == 0 && wire == [] && issued == []
    {
      this.maxResponseBytes, this.encode := maxResponseBytes, encode;
      seqNum, wire, issued := 0, [], [];
    }

    /** The counter and the transport are those of the machine state st. */
    ghost predicate At(st: State)
      reads this
    {
      seqNum == st.draws % UINT32 && wire == Chunks(st.wire)
    }

    /** Sends the chunks of f until one fails. Counter and transport are then those of the
        machine after sender id alone has moved as the fates say. */
    method SendFrame(f: Frame, chunks: seq<Chunk>, fates: seq<Fate>, ghost st: State, ghost id: nat) returns (ok: bool)
      requires |fates| == |chunks| && At(st)
      requires id in st.senders && st.senders[id] == Sender(f, chunks, 0, None, false)
      modifies this
      ensures issued == old(issued) + [f]
      ensures At(RunFrom(st, Schedule(id, fates)))
      ensures ok <==> forall i :: 0 <= i < |fates| ==> fates[i].IsSent?
      ensures GoesOut(chunks, fates, old(seqNum), old(wire), seqNum, wire)
    {
      hide Alone, Schedule, RunFrom, GoesOut;
      AloneIsRun(st, id, fates);
      SendsOnText(st, id, f, chunks, fates);
      ok := SendChunks(f, chunks, fates, st, id);
      issued := issued + [f];
    }

    /** The loop over the chunks. */
    method SendChunks(f: Frame, chunks: seq<Chunk>, fates: seq<Fate>, ghost st: State, ghost id: nat) returns (ok: bool)
      requires |fates| == |chunks| && At(st)
      requires id in st.senders && st.senders[id] == Sender(f, chunks, 0, None, false)
      modifies this`seqNum, this`wire
      ensures At(Alone(st, id, fates))
      ensures ok <==> forall i :: 0 <= i < |fates| ==> fates[i].IsSent?
    {
      hide After;
      ghost var cur := st;
      assert fates[0..] == fates;
      for i := 0 to |chunks|
        invariant At(cur) && Alone(cur, id, fates[i..]) == Alone(st, id, fates)
        invariant id in cur.senders && cur.senders[id] == Sender(f, chunks, i, None, false)
        invariant forall k :: 0 <= k < i ==> fates[k].IsSent?
      {
        AfterFacts(cur, id, f, chunks, i, fates[i]);
        assert fates[i..][0] == fates[i] && fates[i..][1..] == fates[i + 1..];
        seqNum := (seqNum + 1) % UINT32;
        var c := chunks[i].(seqNum := seqNum);
        match fates[i] {
          case EncodeFails =>
            return false;
          case LimiterFails =>
            return false;
          case SendFails(reached) =>
            if reached {
              wire := wire + [c];
            }
            return false;
          case IsSent =>
            wire := wire + [c];
        }
        cur := After(cur, id, fates[i]);
      }
      ok := true;
    }

    /** Answers a failed request. */
    method SendError(req: Frame, code: string, status: int, chunks: seq<Chunk>, fates: seq<Fate>,
                     ghost st: State, ghost id: nat)
      requires |fates| == |chunks| && At(st)
      requires var frame := Frame(ERROR, req.sid, req.rid, encode(Failure(code, status)));
               id in st.senders && st.senders[id] == Sender(frame, chunks, 0, None, false)
      modifies this
      ensures issued == old(issued) + [Frame(ERROR, req.sid, req.rid, encode(Failure(code, status)))]
      ensures At(RunFrom(st, Schedule(id, fates)))
    {
      var frame := Frame(ERROR, req.sid, req.rid, encode(Failure(code, status)));
      var _ := SendFrame(frame, chunks, fates, st, id);
    }

    /** Handles one request: whatever happens upstream, exactly one frame is issued, and it
        is the reply to the request, under its IDs; data exactly when the body was read
        within the limit and marshalled. chunks is the chunking of that reply. */
    method HandleRequest(req: Frame, o: Outcome, chunks: seq<Chunk>, fates: seq<Fate>, ghost st: State, ghost id: nat)
      requires |fates| == |chunks| && At(st) && id !in st.senders
      requires IsChunking(ReplyTo(req, o, maxResponseBytes, encode), chunks)
      modifies this
      ensures issued == old(issued) + [ReplyTo(req, o, maxResponseBytes, encode)]
      ensures var r, limit := issued[|old(issued)|], if maxResponseBytes <= 0 then 10485760 else maxResponseBytes;
              && r.sid == req.sid && r.rid == req.rid
              && (r.kind == DATA <==> o.Body? && o.length <= limit && o.payload.Some?)
              && (r.kind == DATA ==> r.payload == o.payload.value)
              && (o.BadPayload? || o.BadRequest? ==> r.payload == encode(Failure("bad_request", 400)))
              && (o.PolicyDenied? || o.ContentTypeDenied? ==> r.payload == encode(Failure("policy_denied", 403)))
              && (o.UpstreamTimeout? ==> r.payload == encode(Failure("upstream_timeout", 504)))
              && (o.UpstreamUnavailable? ==> r.payload == encode(Failure("upstream_unavailable", 502)))
              && (o.ReadFailed? ==> r.payload == encode(Failure("internal_error", 502)))
              && (o.Body? && o.length > limit ==> r.payload == encode(Failure("response_too_large", 502)))
              && (o.Body? && o.length <= limit && o.payload.None? ==>
                    r.payload == encode(Failure("internal_error", 500)))
      ensures At(RunFrom(Next(st, Begin(id, ReplyTo(req, o, maxResponseBytes, encode), chunks)), Schedule(id, fates)))
    {
      hide Schedule, RunFrom, IsChunking;
      ghost var begun := Next(st, Begin(id, ReplyTo(req, o, maxResponseBytes, encode), chunks));
      match o {
        case BadPayload => SendError(req, "bad_request", 400, chunks, fates, begun, id);
        case PolicyDenied => SendError(req, "policy_denied", 403, chunks, fates, begun, id);
        case BadRequest => SendError(req, "bad_request", 400, chunks, fates, begun, id);
        case UpstreamTimeout => SendError(req, "upstream_timeout", 504, chunks, fates, begun, id);
        case UpstreamUnavailable => SendError(req, "upstream_unavailable", 502, chunks, fates, begun, id);
        case ContentTypeDenied => SendError(req, "policy_denied", 403, chunks, fates, begun, id);
        case ReadFailed => SendError(req, "internal_error", 502, chunks, fates, begun, id);
        case Body(length, payload) =>
          var maxBytes := if maxResponseBytes <= 0 then DEFAULT_LIMIT else maxResponseBytes;
          if length > maxBytes {
            SendError(req, "response_too_large", 502, chunks, fates, begun, id);
          } else if payload.None? {
            SendError(req, "internal_error", 500, chunks, fates, begun, id);
          } else {
            var _ := SendFrame(Frame(DATA, req.sid, req.rid, payload.value), chunks, fates, begun, id);
          }
      }
    }
  }
}
