/**
 The exit's replies as a state machine. Every handled request is a sender of one reply
 frame; senders draw sequence numbers from one shared counter and put their chunks on
 one transport, their steps interleaved in any order.
 */
module ExitModel {
  import opened Basics

  datatype Kind = DATA | ERROR

  datatype Frame = Frame(kind: Kind, sid: string, rid: string, payload: seq<byte>)

  datatype Chunk = Chunk(kind: Kind, sid: string, rid: string, seqNum: nat, index: nat, total: nat, payload: seq<byte>)

  function Flatten(cs: seq<Chunk>): seq<byte> {
    if cs == [] then [] else Flatten(cs[..|cs| - 1]) + cs[|cs| - 1].payload
  }

  /** The documented contract of chunking a frame. */
  ghost predicate IsChunking(f: Frame, cs: seq<Chunk>) {
    && |cs| >= 1
    && Flatten(cs) == f.payload
    && forall i :: 0 <= i < |cs| ==>
         && cs[i].kind == f.kind && cs[i].sid == f.sid && cs[i].rid == f.rid
         && cs[i].index == i && cs[i].total == |cs|
  }

  /** How handling a request can turn out. Payloads are as marshalled. */
  datatype Outcome =
    | BadPayload
    | PolicyDenied
    | BadRequest
    | UpstreamTimeout
    | UpstreamUnavailable
    | ContentTypeDenied
    | ReadFailed
    | Body(length: nat, payload: Option<seq<byte>>)

  const DEFAULT_LIMIT: int := 10 * 1024 * 1024

  function ResponseLimit(configured: int): int {
    if configured <= 0 then DEFAULT_LIMIT else configured
  }

  datatype Failure = Failure(code: string, status: int)

  /** The error a request ends in, if it does. */
  function FailureOf(o: Outcome, configured: int): Option<Failure> {
    match o
    case BadPayload => Some(Failure("bad_request", 400))
    case PolicyDenied => Some(Failure("policy_denied", 403))
    case BadRequest => Some(Failure("bad_request", 400))
    case UpstreamTimeout => Some(Failure("upstream_timeout", 504))
    case UpstreamUnavailable => Some(Failure("upstream_unavailable", 502))
    case ContentTypeDenied => Some(Failure("policy_denied", 403))
    case ReadFailed => Some(Failure("internal_error", 502))
    case Body(length, payload) =>
      if length > ResponseLimit(configured) then Some(Failure("response_too_large", 502))
      else if payload.None? then Some(Failure("internal_error", 500))
      else None
  }

  /** The one frame a request is answered with. */
  function ReplyTo(req: Frame, o: Outcome, configured: int, encode: Failure -> seq<byte>): Frame {
    var failure := FailureOf(o, configured);
    if failure.Some? then Frame(ERROR, req.sid, req.rid, encode(failure.value))
    else Frame(DATA, req.sid, req.rid, o.payload.value)
  }

  // ---------- the machine ----------

  /** next chunks are on the transport; pending is the draw made for the one after them. */
  datatype Sender = Sender(frame: Frame, chunks: seq<Chunk>, next: nat, pending: Option<nat>, failed: bool)

  /** A chunk on the transport, with the sender and the draw behind it. */
  datatype Sent = Sent(id: nat, draw: nat, chunk: Chunk)

  /** draws counts every number drawn; the counter itself is draws modulo 2^32. */
  datatype State = State(draws: nat, senders: map<nat, Sender>, wire: seq<Sent>)

  const INITIAL := State(0, map[], [])
  const UINT32: nat := 0x1_0000_0000

  /** A failed send may still have reached the transport. */
  datatype Step =
    | Begin(id: nat, frame: Frame, chunks: seq<Chunk>)
    | Draw(id: nat)
    | Send(id: nat)
    | Fail(id: nat, reached: bool)

  /** Starting a send is possible only with chunks of the frame. */
  ghost predicate Enabled(st: State, step: Step) {
    match step
    case Begin(id, frame, chunks) => id !in st.senders && IsChunking(frame, chunks)
    case Draw(id) =>
      id in st.senders && var x := st.senders[id]; !x.failed && x.next < |x.chunks| && x.pending.None?
    case Send(id) =>
      id in st.senders && var x := st.senders[id]; !x.failed && x.next < |x.chunks| && x.pending.Some?
    case Fail(id, reached) =>
      id in st.senders && var x := st.senders[id]; !x.failed && x.next < |x.chunks| && x.pending.Some?
  }

  /** The chunk sender x has drawn a number for. */
  function Numbered(x: Sender): Chunk
    requires x.next < |x.chunks| && x.pending.Some?
  {
    x.chunks[x.next].(seqNum := x.pending.value % UINT32)
  }

  ghost function Next(st: State, step: Step): State {
    if !Enabled(st, step) then st
    else
      match step
      case Begin(id, frame, chunks) => st.(senders := st.senders[id := Sender(frame, chunks, 0, None, false)])
      case Draw(id) =>
        st.(draws := st.draws + 1, senders := st.senders[id := st.senders[id].(pending := Some(st.draws + 1))])
      case Send(id) =>
        var x := st.senders[id];
        st.(senders := st.senders[id := x.(next := x.next + 1, pending := None)],
            wire := st.wire + [Sent(id, x.pending.value, Numbered(x))])
      case Fail(id, reached) =>
        var x := st.senders[id];
        if reached then
          st.(senders := st.senders[id := x.(next := x.next + 1, pending := None, failed := true)],
              wire := st.wire + [Sent(id, x.pending.value, Numbered(x))])
        else
          st.(senders := st.senders[id := x.(pending := None, failed := true)])
  }

  ghost function RunFrom(st: State, steps: seq<Step>): State {
    if steps == [] then st else Next(RunFrom(st, steps[..|steps| - 1]), steps[|steps| - 1])
  }
}
