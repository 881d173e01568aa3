/** What the MAX poll loop does with each poll, as functions on its state. */
module PollSpec {
  import opened Basics

  datatype Message = Message(id: string, from: string, text: string, createdAt: string)

  /**
   One exchange with GET /messages/poll; a body that does not decode is None. ContextError
   is any error that matches context.Canceled or context.DeadlineExceeded: the loop's own
   context ended, or the HTTP client's timeout, also while the body is read.
   */
  datatype Exchange =
    | HttpReply(status: int, body: Option<seq<Message>>)
    | NetworkError
    | ContextError

  /** A poll, and where cancellation strikes while its outcome is handled, if it does:
      at the stop-th delivery, or in the wait the outcome leads to. */
  datatype Poll = Poll(exchange: Exchange, stop: Option<nat>)

  datatype Outcome = Messages(messages: seq<Message>) | RateLimited | AuthError | OtherError | ContextFailed

  /** The status check, with an undecodable body an error like any other. */
  function Classify(e: Exchange): Outcome {
    match e
    case ContextError => ContextFailed
    case NetworkError => OtherError
    case HttpReply(status, body) =>
      if 200 <= status < 300 then (if body.Some? then Messages(body.value) else OtherError)
      else if status == 401 || status == 403 then AuthError
      else if status == 429 then RateLimited
      else OtherError
  }

  /** The window size used when the configured one is not positive. */
  function WindowSize(configured: int): (n: nat)
    ensures n > 0
  {
    if configured <= 0 then 4096 else configured
  }

  datatype Receiver = Receiver(fromHandle: string, max: nat)

  /** accepted is the history of IDs let into the window; fifo is the window itself. */
  datatype State = State(
    fifo: seq<string>, afterID: string, out: seq<Message>, accepted: seq<string>, on429: nat, stopped: bool)

  const INITIAL := State([], "", [], [], 0, false)

  function Push(max: nat, fifo: seq<string>, id: string): seq<string> {
    (if |fifo| >= max && fifo != [] then fifo[1..] else fifo) + [id]
  }

  predicate IsEcho(r: Receiver, m: Message) {
    r.fromHandle != "" && m.from == r.fromHandle
  }

  predicate IsDuplicate(st: State, m: Message) { m.id != "" && m.id in st.fifo }

  /** Enters a message's ID, if it has one. */
  function Accept(r: Receiver, st: State, m: Message): State {
    if m.id == "" then st
    else st.(fifo := Push(r.max, st.fifo, m.id), afterID := m.id, accepted := st.accepted + [m.id])
  }

  function Deliver(r: Receiver, st: State, ms: seq<Message>, stop: Option<nat>): State
    decreases |ms|
  {
    if ms == [] || st.stopped then st
    else if IsDuplicate(st, ms[0]) then Deliver(r, st, ms[1..], stop)
    else
      var entered := Accept(r, st, ms[0]);
      if IsEcho(r, ms[0]) then Deliver(r, entered, ms[1..], stop)
      else if stop == Some(0) then entered.(stopped := true)
      else Deliver(r, entered.(out := entered.out + [ms[0]]), ms[1..],
                   if stop.Some? then Some(stop.value - 1) else None)
  }

  /** A poll answered 429 reports it twice: in the status check and in the loop. */
  function OnePoll(r: Receiver, st: State, p: Poll): State {
    match Classify(p.exchange)
    case Messages(ms) => if ms == [] then st.(stopped := p.stop.Some?) else Deliver(r, st, ms, p.stop)
    case RateLimited => st.(on429 := st.on429 + 2, stopped := p.stop.Some?)
    case AuthError => st.(stopped := true)
    case OtherError => st.(stopped := p.stop.Some?)
    case ContextFailed => st.(stopped := true)
  }

  function RunPolls(r: Receiver, polls: seq<Poll>): State {
    if polls == [] then INITIAL
    else
      var before := RunPolls(r, polls[..|polls| - 1]);
      if before.stopped then before else OnePoll(r, before, polls[|polls| - 1])
  }

  lemma {:induction false} StoppedStays(r: Receiver, polls: seq<Poll>, n: nat)
    requires n <= |polls| && RunPolls(r, polls[..n]).stopped
    ensures RunPolls(r, polls) == RunPolls(r, polls[..n])
  {
    if n == |polls| {
      assert polls[..n] == polls;
    } else {
      var before := polls[..|polls| - 1];
      assert before[..n] == polls[..n];
      StoppedStays(r, before, n);
    }
  }
}
