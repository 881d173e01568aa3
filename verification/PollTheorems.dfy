/** What every run of the poll loop keeps, whatever the server sends. */
module PollTheorems {
  import opened Basics
  import opened PollSpec

  // ---------- the window ----------

  /** The window is the last max accepted IDs, and no max + 1 IDs accepted in a row repeat. */
  ghost predicate Windowed(max: nat, st: State) {
    && st.fifo == LastN(st.accepted, max)
    && forall i, j :: 0 <= i < j < |st.accepted| && j - i <= max ==> st.accepted[i] != st.accepted[j]
  }

  lemma AcceptKeepsWindow(r: Receiver, st: State, m: Message)
    requires r.max > 0 && Windowed(r.max, st) && !IsDuplicate(st, m)
    ensures Windowed(r.max, Accept(r, st, m))
  {
    if m.id != "" {
      hide LastN, Push;
      var acc := st.accepted;
      PushLastN(r.max, acc, m.id);
      forall i | 0 <= i < |acc| && |acc| - i <= r.max ensures acc[i] != m.id {
        InLastN(acc, r.max, i);
      }
    }
  }

  lemma PushLastN(max: nat, acc: seq<string>, id: string)
    requires max > 0
    ensures Push(max, LastN(acc, max), id) == LastN(acc + [id], max)
  {
  }

  lemma InLastN(acc: seq<string>, max: nat, i: nat)
    requires i < |acc| && |acc| - i <= max
    ensures acc[i] in LastN(acc, max)
  {
    assert LastN(acc, max)[if |acc| <= max then i else i - (|acc| - max)] == acc[i];
  }

  lemma {:induction false} DeliverKeepsWindow(r: Receiver, st: State, ms: seq<Message>, stop: Option<nat>)
    requires r.max > 0 && Windowed(r.max, st)
    ensures Windowed(r.max, Deliver(r, st, ms, stop))
    decreases |ms|
  {
    if ms != [] && !st.stopped {
      if IsDuplicate(st, ms[0]) {
        DeliverKeepsWindow(r, st, ms[1..], stop);
      } else {
        hide Windowed, IsDuplicate;
        AcceptKeepsWindow(r, st, ms[0]);
        var entered := Accept(r, st, ms[0]);
        if IsEcho(r, ms[0]) {
          DeliverKeepsWindow(r, entered, ms[1..], stop);
        } else {
          SameWindow(r.max, entered, entered.(stopped := true));
          SameWindow(r.max, entered, entered.(out := entered.out + [ms[0]]));
          if stop != Some(0) {
            DeliverKeepsWindow(r, entered.(out := entered.out + [ms[0]]), ms[1..],
                               if stop.Some? then Some(stop.value - 1) else None);
          }
        }
      }
    }
  }

  lemma SameWindow(max: nat, a: State, b: State)
    requires Windowed(max, a) && a.fifo == b.fifo && a.accepted == b.accepted
    ensures Windowed(max, b)
  {
  }

  /** The window theorem, for every server and every run. */
  lemma {:induction false} RunKeepsWindow(r: Receiver, polls: seq<Poll>)
    requires r.max > 0
    ensures Windowed(r.max, RunPolls(r, polls))
  {
    if polls != [] {
      RunKeepsWindow(r, polls[..|polls| - 1]);
      var before, p := RunPolls(r, polls[..|polls| - 1]), polls[|polls| - 1];
      if !before.stopped {
        match Classify(p.exchange)
        case Messages(ms) => DeliverKeepsWindow(r, before, ms, p.stop);
        case _ =>
      }
    }
  }

  /** Between two acceptances of one ID lie max acceptances of pairwise different other IDs. */
  lemma RedeliveryNeedsFullWindow(r: Receiver, polls: seq<Poll>, i: nat, j: nat)
    requires r.max > 0
    requires var acc := RunPolls(r, polls).accepted; i < j < |acc| && acc[i] == acc[j]
    ensures j - i > r.max
    ensures var between := RunPolls(r, polls).accepted[i + 1..i + 1 + r.max];
            NoDup(between) && RunPolls(r, polls).accepted[i] !in between
  {
    RunKeepsWindow(r, polls);
  }

  // ---------- batching and failures ----------

  /** The messages the server's answers carried, put end to end. */
  function Received(polls: seq<Poll>): seq<Message> {
    if polls == [] then []
    else
      Received(polls[..|polls| - 1]) + Carried(polls[|polls| - 1])
  }

  /** The messages one answer carried. */
  function Carried(p: Poll): seq<Message> {
    match p.exchange
    case HttpReply(status, body) => if 200 <= status < 300 && body.Some? then body.value else []
    case _ => []
  }

  /** One message, without cancellation. */
  function Fold1(r: Receiver, st: State, m: Message): State {
    if IsDuplicate(st, m) then st
    else
      var entered := Accept(r, st, m);
      if IsEcho(r, m) then entered else entered.(out := entered.out + [m])
  }

  function Fold(r: Receiver, st: State, ms: seq<Message>): State {
    if ms == [] then st else Fold1(r, Fold(r, st, ms[..|ms| - 1]), ms[|ms| - 1])
  }

  /** Equal up to the 429 count and the stop flag. */
  predicate SameCore(a: State, b: State) {
    a.fifo == b.fifo && a.afterID == b.afterID && a.out == b.out && a.accepted == b.accepted
  }

  lemma {:induction false} FoldConcat(r: Receiver, st: State, a: seq<Message>, b: seq<Message>)
    ensures Fold(r, st, a + b) == Fold(r, Fold(r, st, a), b)
  {
    if b == [] {
      assert a + b == a;
    } else {
      FoldConcat(r, st, a, b[..|b| - 1]);
      assert (a + b)[..|a + b| - 1] == a + b[..|b| - 1];
    }
  }

  lemma FoldFirst(r: Receiver, st: State, ms: seq<Message>)
    requires ms != []
    ensures Fold(r, st, ms) == Fold(r, Fold1(r, st, ms[0]), ms[1..])
  {
    FoldConcat(r, st, [ms[0]], ms[1..]);
    assert [ms[0]] + ms[1..] == ms;
    assert [ms[0]][..0] == [];
  }

  lemma {:induction false} FoldCore(r: Receiver, a: State, b: State, ms: seq<Message>)
    requires SameCore(a, b)
    ensures SameCore(Fold(r, a, ms), Fold(r, b, ms))
  {
    if ms != [] { FoldCore(r, a, b, ms[..|ms| - 1]); }
  }

  /** Delivering a batch is folding some prefix of it, all of it unless cancelled; when
      cancelled the last message of the prefix was accepted and not sent. */
  lemma {:induction false} DeliverIsFold(r: Receiver, st: State, ms: seq<Message>, stop: Option<nat>) returns (n: nat)
    requires !st.stopped
    ensures n <= |ms|
    ensures var end, fold := Deliver(r, st, ms, stop), Fold(r, st, ms[..n]);
            && end.on429 == st.on429
            && (!end.stopped ==> n == |ms| && SameCore(end, fold))
            && (end.stopped ==>
                  && n > 0 && SameCore(end.(out := end.out + [ms[n - 1]]), fold)
                  && !IsEcho(r, ms[n - 1]) && !IsDuplicate(Fold(r, st, ms[..n - 1]), ms[n - 1]))
    decreases |ms|
  {
    hide IsDuplicate, IsEcho;
    if ms == [] {
      n := 0;
    } else {
      var m, rest := ms[0], ms[1..];
      if !IsDuplicate(st, m) && !IsEcho(r, m) && stop == Some(0) {
        n := 1;
        assert ms[..1] == [m] && [m][..0] == [] && ms[..0] == [];
      } else {
        var next := Fold1(r, st, m);
        var left := if IsDuplicate(st, m) || IsEcho(r, m) || stop.None? then stop else Some(stop.value - 1);
        var k := DeliverIsFold(r, next, rest, left);
        n := k + 1;
        assert ms[..n][0] == m && ms[..n][1..] == rest[..k];
        FoldFirst(r, st, ms[..n]);
        assert Deliver(r, st, ms, stop) == Deliver(r, next, rest, left);
        if k > 0 {
          assert rest[k - 1] == ms[n - 1];
          assert ms[..n - 1][0] == m && ms[..n - 1][1..] == rest[..k - 1];
          FoldFirst(r, st, ms[..n - 1]);
        }
      }
    }
  }

  /**
   Window, cursor and output of a loop that is still polling depend on nothing but the
   messages received, end to end: how they were split into polls, and the 429s, errors
   and empty polls between them, change nothing. Each 429 was reported twice.
   */
  lemma {:induction false} PollingIsOneFold(r: Receiver, polls: seq<Poll>)
    requires !RunPolls(r, polls).stopped
    ensures SameCore(RunPolls(r, polls), Fold(r, INITIAL, Received(polls)))
    ensures RunPolls(r, polls).on429 == 2 * Limited(polls)
  {
    if polls != [] {
      var before, p := polls[..|polls| - 1], polls[|polls| - 1];
      PollingIsOneFold(r, before);
      var st, ms := RunPolls(r, before), Carried(p);
      FoldConcat(r, INITIAL, Received(before), ms);
      FoldCore(r, st, Fold(r, INITIAL, Received(before)), ms);
      hide Fold;
      PollIsFold(r, st, p);
    }
  }

  lemma PollIsFold(r: Receiver, st: State, p: Poll)
    requires !st.stopped && !OnePoll(r, st, p).stopped
    ensures SameCore(OnePoll(r, st, p), Fold(r, st, Carried(p)))
    ensures OnePoll(r, st, p).on429 == st.on429 + if p.exchange.HttpReply? && p.exchange.status == 429 then 2 else 0
  {
    hide Deliver, Fold1;
    match Classify(p.exchange)
    case Messages(ms) =>
      if ms != [] {
        var n := DeliverIsFold(r, st, ms, p.stop);
        assert ms[..|ms|] == ms;
      }
    case _ =>
  }

  /** Unless cancelled meanwhile, the loop stops only on 401, 403 and a context error, which
      is also what the HTTP client's own timeout reports. */
  lemma StopsOnlyOnAuthOrContextErrors(r: Receiver, st: State, p: Poll)
    requires !st.stopped && p.stop.None?
    ensures OnePoll(r, st, p).stopped <==>
            p.exchange.ContextError? || (p.exchange.HttpReply? && p.exchange.status in {401, 403})
  {
    match Classify(p.exchange)
    case Messages(ms) => NeverStops(r, st, ms);
    case _ =>
  }

  lemma {:induction false} NeverStops(r: Receiver, st: State, ms: seq<Message>)
    requires !st.stopped
    ensures !Deliver(r, st, ms, None).stopped
    decreases |ms|
  {
    if ms != [] { NeverStops(r, Fold1(r, st, ms[0]), ms[1..]); }
  }

  /** How many polls were answered 429. */
  function Limited(polls: seq<Poll>): nat {
    if polls == [] then 0
    else
      var e := polls[|polls| - 1].exchange;
      Limited(polls[..|polls| - 1]) + if e.HttpReply? && e.status == 429 then 1 else 0
  }

  /** Two runs that received the same messages, however split and interrupted, agree. */
  lemma BatchingDoesNotMatter(r: Receiver, a: seq<Poll>, b: seq<Poll>)
    requires !RunPolls(r, a).stopped && !RunPolls(r, b).stopped && Received(a) == Received(b)
    ensures SameCore(RunPolls(r, a), RunPolls(r, b))
  {
    PollingIsOneFold(r, a);
    PollingIsOneFold(r, b);
  }

  lemma {:induction false} FoldSendsInOrder(r: Receiver, st: State, a: seq<Message>, ms: seq<Message>)
    requires Subsequence(st.out, a)
    ensures Subsequence(Fold(r, st, ms).out, a + ms)
  {
    if ms == [] {
      assert a + ms == a;
    } else {
      var before, m := ms[..|ms| - 1], ms[|ms| - 1];
      FoldSendsInOrder(r, st, a, before);
      SubsequenceAppend(Fold(r, st, before).out, a + before, m);
      assert a + ms == (a + before) + [m];
    }
  }

  lemma {:induction false} SubsequenceExtend<T>(a: seq<T>, b: seq<T>, c: seq<T>)
    requires Subsequence(a, b)
    ensures Subsequence(a, b + c)
  {
    if c == [] {
      assert b + c == b;
    } else {
      SubsequenceExtend(a, b, c[..|c| - 1]);
      SubsequenceAppend(a, b + c[..|c| - 1], c[|c| - 1]);
      assert b + c == (b + c[..|c| - 1]) + [c[|c| - 1]];
    }
  }

  lemma DeliverSendsInOrder(r: Receiver, st: State, a: seq<Message>, ms: seq<Message>, stop: Option<nat>)
    requires !st.stopped && Subsequence(st.out, a)
    ensures Subsequence(Deliver(r, st, ms, stop).out, a + ms)
  {
    hide Subsequence, Deliver, Fold, IsDuplicate;
    var end := Deliver(r, st, ms, stop);
    var n := DeliverIsFold(r, st, ms, stop);
    FoldSendsInOrder(r, st, a, ms[..n]);
    if end.stopped {
      SubsequenceShortenLeft(end.out + [ms[n - 1]], a + ms[..n]);
      assert (end.out + [ms[n - 1]])[..|end.out|] == end.out;
    }
    SubsequenceExtend(end.out, a + ms[..n], ms[n..]);
    assert a + ms == (a + ms[..n]) + ms[n..];
  }

  /** In every run, stopped or not, what is sent is the received messages with some left
      out, in the same order. */
  lemma {:induction false} RunSendsInOrder(r: Receiver, polls: seq<Poll>)
    ensures Subsequence(RunPolls(r, polls).out, Received(polls))
  {
    if polls != [] {
      var before, p := polls[..|polls| - 1], polls[|polls| - 1];
      RunSendsInOrder(r, before);
      var st := RunPolls(r, before);
      assert Received(before) + [] == Received(before);
      hide Subsequence, Deliver;
      match Classify(p.exchange)
      case Messages(ms) =>
        if st.stopped {
          SubsequenceExtend(st.out, Received(before), ms);
        } else {
          DeliverSendsInOrder(r, st, Received(before), ms, p.stop);
        }
      case _ =>
    }
  }

  lemma {:induction false} SubsequenceAppend<T>(a: seq<T>, b: seq<T>, x: T)
    requires Subsequence(a, b)
    ensures Subsequence(a, b + [x]) && Subsequence(a + [x], b + [x])
  {
    if b == [] {
      assert a + [x] == [x] && b + [x] == [x];
      assert [x][1..] == [];
    } else {
      assert (b + [x])[1..] == b[1..] + [x];
      if a == [] {
        SubsequenceAppend(a, b[1..], x);
        if x == b[0] { assert (a + [x])[1..] == []; }
      } else if a[0] == b[0] {
        SubsequenceAppend(a[1..], b[1..], x);
        assert (a + [x])[1..] == a[1..] + [x];
      } else {
        SubsequenceAppend(a, b[1..], x);
      }
    }
  }

  // ---------- exactly once, in order ----------

  /** A server log: every entry has an ID of its own. */
  ghost predicate IsLog(log: seq<Message>) {
    && (forall i :: 0 <= i < |log| ==> log[i].id != "")
    && (forall i, j :: 0 <= i < j < |log| ==> log[i].id != log[j].id)
  }

  function Ids(log: seq<Message>): (s: seq<string>)
    ensures |s| == |log| && forall i :: 0 <= i < |log| ==> s[i] == log[i].id
  {
    seq(|log|, i requires 0 <= i < |log| => log[i].id)
  }

  /** How much of the log a cursor stands behind. */
  function Position(log: seq<Message>, afterID: string): (p: nat)
    ensures p <= |log|
  {
    var i := IndexOf(Ids(log), afterID);
    if afterID == "" || i == |log| then 0 else i + 1
  }

  /**
   The server answers with any stretch of its log that starts no later than the entry
   after the cursor and goes back at most max entries before it; or it does not answer.
   */
  ghost predicate Honest(r: Receiver, log: seq<Message>, p: nat, poll: Poll) {
    Carried(poll) == [] ||
    exists a: nat, b: nat :: a <= p && p - a <= r.max && a <= b <= |log| && Carried(poll) == log[a..b]
  }

  ghost predicate HonestRun(r: Receiver, log: seq<Message>, polls: seq<Poll>) {
    forall n :: 0 <= n < |polls| ==>
      Honest(r, log, Position(log, RunPolls(r, polls[..n]).afterID), polls[n])
  }

  function WithoutEchoes(r: Receiver, log: seq<Message>): seq<Message> {
    if log == [] then []
    else
      var before := WithoutEchoes(r, log[..|log| - 1]);
      if IsEcho(r, log[|log| - 1]) then before else before + [log[|log| - 1]]
  }

  /** The first p entries have been accepted, and the cursor is the last of them. */
  ghost predicate InStep(log: seq<Message>, st: State, p: nat) {
    && p <= |log|
    && st.accepted == Ids(log)[..p]
    && st.afterID == (if p == 0 then "" else log[p - 1].id)
  }

  lemma PositionInStep(log: seq<Message>, st: State, p: nat)
    requires IsLog(log) && InStep(log, st, p)
    ensures Position(log, st.afterID) == p
  {
    if p > 0 {
      assert Ids(log)[p - 1] == st.afterID;
      assert IndexOf(Ids(log), st.afterID) == p - 1;
    }
  }

  /** A log entry already accepted is a duplicate exactly while it is in the window, so a
      server that re-sends an older one has it delivered again. */
  lemma DuplicateIffInWindow(r: Receiver, log: seq<Message>, st: State, p: nat, k: nat)
    requires r.max > 0 && IsLog(log) && InStep(log, st, p) && Windowed(r.max, st)
    requires k < |log| && k <= p
    ensures IsDuplicate(st, log[k]) <==> k < p && p - k <= r.max
  {
    var acc := st.accepted;
    if k < p && p - k <= r.max {
      assert st.fifo[if |acc| <= r.max then k else k - (|acc| - r.max)] == acc[k] == log[k].id;
    } else {
      forall i | 0 <= i < |st.fifo| ensures st.fifo[i] != log[k].id {
        var j := if |acc| <= r.max then i else i + (|acc| - r.max);
        assert st.fifo[i] == acc[j] == log[j].id && j != k;
      }
    }
  }

  /** In step, and sent exactly what the accepted entries call for. */
  ghost predicate Tracks(r: Receiver, log: seq<Message>, st: State, p: nat) {
    InStep(log, st, p) && Windowed(r.max, st) && st.out == WithoutEchoes(r, log[..p])
  }

  lemma FoldOne(r: Receiver, log: seq<Message>, st: State, q: nat, k: nat)
    requires r.max > 0 && IsLog(log) && Tracks(r, log, st, q)
    requires k < |log| && k <= q && q - k <= r.max
    ensures Tracks(r, log, Fold1(r, st, log[k]), if k < q then q else q + 1)
    ensures IsDuplicate(st, log[k]) <==> k < q
  {
    hide IsLog, Windowed, WithoutEchoes, IsDuplicate, Accept, IsEcho;
    DuplicateIffInWindow(r, log, st, q, k);
    if k == q {
      FoldNew(r, log, st, q);
    }
  }

  lemma FoldNew(r: Receiver, log: seq<Message>, st: State, q: nat)
    requires r.max > 0 && IsLog(log) && Tracks(r, log, st, q) && q < |log| && !IsDuplicate(st, log[q])
    ensures Tracks(r, log, Fold1(r, st, log[q]), q + 1)
  {
    hide IsDuplicate, Windowed, IsEcho, WithoutEchoes, LastN, Push;
    var entered, end := Accept(r, st, log[q]), Fold1(r, st, log[q]);
    AcceptKeepsWindow(r, st, log[q]);
    SameWindow(r.max, entered, end);
    OneMoreEntry(r, log, q);
  }

  lemma OneMoreEntry(r: Receiver, log: seq<Message>, q: nat)
    requires q < |log|
    ensures WithoutEchoes(r, log[..q + 1]) == WithoutEchoes(r, log[..q]) + if IsEcho(r, log[q]) then [] else [log[q]]
    ensures Ids(log)[..q + 1] == Ids(log)[..q] + [log[q].id]
  {
    assert log[..q + 1][..q] == log[..q];
    assert WithoutEchoes(r, log[..q]) + [] == WithoutEchoes(r, log[..q]);
  }

  /** Folding a stretch of the log brings the receiver in step with its end. */
  lemma {:induction false} FoldStretch(r: Receiver, log: seq<Message>, st: State, p: nat, a: nat, b: nat)
    requires r.max > 0 && IsLog(log) && Tracks(r, log, st, p)
    requires a <= p && p - a <= r.max && a <= b <= |log|
    ensures Tracks(r, log, Fold(r, st, log[a..b]), if b > p then b else p)
    decreases b
  {
    hide *;
    if a == b {
      FoldNone(r, log, st, a);
    } else {
      FoldStretch(r, log, st, p, a, b - 1);
      FoldSlice(r, log, st, a, b);
      FoldOne(r, log, Fold(r, st, log[a..b - 1]), if b - 1 > p then b - 1 else p, b - 1);
    }
  }

  lemma FoldNone(r: Receiver, log: seq<Message>, st: State, a: nat)
    requires a <= |log|
    ensures Fold(r, st, log[a..a]) == st
  {
    assert log[a..a] == [];
  }

  lemma FoldSlice(r: Receiver, log: seq<Message>, st: State, a: nat, b: nat)
    requires a < b <= |log|
    ensures Fold(r, st, log[a..b]) == Fold1(r, Fold(r, st, log[a..b - 1]), log[b - 1])
  {
    assert log[a..b][..b - a - 1] == log[a..b - 1];
  }

  /**
   Against such a server, whatever the splits, failures and re-sent entries, the messages
   sent so far are exactly the entries up to the cursor that are not echoes, each once and
   in order; after a cancellation at most the last accepted one is missing.
   */
  lemma ExactlyOnceInOrder(r: Receiver, log: seq<Message>, polls: seq<Poll>)
    requires r.max > 0 && IsLog(log) && HonestRun(r, log, polls)
    ensures var st := RunPolls(r, polls);
            var p := Position(log, st.afterID);
            && st.accepted == Ids(log)[..p]
            && (!st.stopped ==> st.out == WithoutEchoes(r, log[..p]))
            && (st.stopped ==>
                 || st.out == WithoutEchoes(r, log[..p])
                 || (p > 0 && !IsEcho(r, log[p - 1]) && st.out == WithoutEchoes(r, log[..p - 1])))
  {
    RunDelivers(r, log, polls);
  }

  lemma {:induction false} RunDelivers(r: Receiver, log: seq<Message>, polls: seq<Poll>)
    requires r.max > 0 && IsLog(log) && HonestRun(r, log, polls)
    ensures var st := RunPolls(r, polls); Delivered(r, log, st, Position(log, st.afterID))
  {
    if polls == [] {
      assert Ids(log)[..0] == [];
      assert log[..0] == [];
    } else {
      var before, poll := polls[..|polls| - 1], polls[|polls| - 1];
      forall n | 0 <= n < |before| ensures before[..n] == polls[..n] && before[n] == polls[n] {}
      RunDelivers(r, log, before);
      var st := RunPolls(r, before);
      if !st.stopped {
        RunKeepsWindow(r, before);
        assert Honest(r, log, Position(log, st.afterID), poll);
        HonestPollKeepsStep(r, log, st, Position(log, st.afterID), poll);
      }
    }
  }

  /** What the main result says of a state that stands at q. */
  ghost predicate Delivered(r: Receiver, log: seq<Message>, st: State, q: nat) {
    && InStep(log, st, q)
    && (!st.stopped ==> st.out == WithoutEchoes(r, log[..q]))
    && (st.stopped ==>
         || st.out == WithoutEchoes(r, log[..q])
         || (q > 0 && !IsEcho(r, log[q - 1]) && st.out == WithoutEchoes(r, log[..q - 1])))
  }

  lemma HonestPollKeepsStep(r: Receiver, log: seq<Message>, st: State, p: nat, poll: Poll)
    requires r.max > 0 && IsLog(log) && Tracks(r, log, st, p) && !st.stopped && Honest(r, log, p, poll)
    ensures var end := OnePoll(r, st, poll);
            Delivered(r, log, end, Position(log, end.afterID))
  {
    PositionInStep(log, st, p);
    match Classify(poll.exchange)
    case Messages(ms) =>
      if ms != [] {
        var a: nat, b: nat :| a <= p && p - a <= r.max && a <= b <= |log| && ms == log[a..b];
        var end := StretchDelivered(r, log, st, p, a, b, poll.stop);
        PositionInStep(log, Deliver(r, st, ms, poll.stop), end);
      }
    case _ =>
  }

  lemma StretchDelivered(r: Receiver, log: seq<Message>, st: State, p: nat, a: nat, b: nat, stop: Option<nat>)
    returns (q: nat)
    requires r.max > 0 && IsLog(log) && Tracks(r, log, st, p) && !st.stopped
    requires a <= p && p - a <= r.max && a <= b <= |log|
    ensures Delivered(r, log, Deliver(r, st, log[a..b], stop), q)
  {
    hide IsLog, IsDuplicate, IsEcho, Fold, Fold1, Deliver, Delivered, Tracks, WithoutEchoes, Accept, Windowed, Ids;
    var ms := log[a..b];
    var n := DeliverIsFold(r, st, ms, stop);
    var end := Deliver(r, st, ms, stop);
    assert ms[..n] == log[a..a + n];
    FoldStretch(r, log, st, p, a, a + n);
    q := if a + n > p then a + n else p;
    if !end.stopped {
      AllDelivered(r, log, Fold(r, st, ms[..n]), end, q);
    } else {
      var k := a + n - 1;
      assert ms[..n - 1] == log[a..k];
      FoldStretch(r, log, st, p, a, k);
      FoldOne(r, log, Fold(r, st, log[a..k]), if k > p then k else p, k);
      assert k >= p && q == k + 1 && ms[n - 1] == log[k];
      LastUndelivered(r, log, Fold(r, st, ms[..n]), end, q);
    }
  }

  lemma AllDelivered(r: Receiver, log: seq<Message>, fold: State, end: State, q: nat)
    requires Tracks(r, log, fold, q) && SameCore(end, fold) && !end.stopped
    ensures Delivered(r, log, end, q)
  {
  }

  /** The folded state has one message more than was sent, and it is the last accepted. */
  lemma LastUndelivered(r: Receiver, log: seq<Message>, fold: State, end: State, q: nat)
    requires Tracks(r, log, fold, q) && 0 < q <= |log| && !IsEcho(r, log[q - 1]) && end.stopped
    requires SameCore(end.(out := end.out + [log[q - 1]]), fold)
    ensures Delivered(r, log, end, q)
  {
    OneMoreEntry(r, log, q - 1);
    var before, x := WithoutEchoes(r, log[..q - 1]), log[q - 1];
    assert end.out + [x] == before + [x];
    assert end.out == (end.out + [x])[..|end.out|];
    assert before == (before + [x])[..|before|];
    hide WithoutEchoes;
  }

  lemma {:induction false} WithoutEchoesMember(r: Receiver, log: seq<Message>, k: nat)
    requires k < |log| && !IsEcho(r, log[k])
    ensures log[k] in WithoutEchoes(r, log)
  {
    if k < |log| - 1 { WithoutEchoesMember(r, log[..|log| - 1], k); }
  }

  /** The server answers with one entry, which it had sent before. */
  function Resend(m: Message): Poll { Poll(HttpReply(200, Some([m])), None) }

  /**
   The bound on re-sent entries is needed: after any such run, an entry that was sent on is
   sent on a second time exactly when the server goes back more than max entries for it.
   */
  lemma DeliveredAgainIff(r: Receiver, log: seq<Message>, polls: seq<Poll>, k: nat)
    requires r.max > 0 && IsLog(log) && HonestRun(r, log, polls) && !RunPolls(r, polls).stopped
    requires k < Position(log, RunPolls(r, polls).afterID)
    requires r.fromHandle == "" || log[k].from != r.fromHandle
    ensures var st := RunPolls(r, polls);
            var p := Position(log, st.afterID);
            && log[k] in st.out
            && RunPolls(r, polls + [Resend(log[k])]).out == st.out + if p - k > r.max then [log[k]] else []
  {
    assert !IsEcho(r, log[k]);
    hide IsLog, HonestRun, Windowed, IsEcho, IsDuplicate, WithoutEchoes, Position;
    var st, m := RunPolls(r, polls), log[k];
    var p := Position(log, st.afterID);
    RunDelivers(r, log, polls);
    RunKeepsWindow(r, polls);
    DuplicateIffInWindow(r, log, st, p, k);
    WithoutEchoesMember(r, log[..p], k);
    assert (polls + [Resend(m)])[..|polls|] == polls;
    assert st.out + [] == st.out;
    ResendOne(r, st, m);
  }

  lemma ResendOne(r: Receiver, st: State, m: Message)
    requires !st.stopped && !IsEcho(r, m)
    ensures OnePoll(r, st, Resend(m)).out == st.out + if IsDuplicate(st, m) then [] else [m]
  {
    hide IsDuplicate, IsEcho;
    var none: Option<nat> := None;
    var entered := Accept(r, st, m);
    assert [m][0] == m && [m][1..] == [];
    assert Deliver(r, st, [], none) == st;
    assert Deliver(r, entered.(out := entered.out + [m]), [], none).out == st.out + [m];
    assert OnePoll(r, st, Resend(m)) == Deliver(r, st, [m], none);
  }
}
