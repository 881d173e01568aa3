/** The dedupe window and the poll loop, as they update their state. */
module PollLoop {
  import opened Basics
  import opened PollSpec
  import opened PollDelivery

  class DedupeSet {
    var ids: set<string>
    var fifo: seq<string>
    const max: int

    /** The set is that of the queue, which holds no ID twice and is not over its size. */
    ghost predicate Valid()
      reads this
    {
      && max > 0
      && |fifo| <= max
      && NoDup(fifo)
      && ids == (set id | id in fifo)
    }

    constructor (max: int)
      requires max > 0
      ensures Valid() && fifo == [] && this.max == max
    {
      ids := {};
      fifo := [];
      this.max := max;
    }

    predicate Seen(id: string)
      reads this
    {
      id in ids
    }

    /** Enters id, dropping the oldest when the window is full. Entering an ID that is
        already there breaks the agreement of set and queue, so callers ask Seen first. */
    method Add(id: string)
      requires Valid()
      modifies this
      ensures fifo == Push(max, old(fifo), id)
      ensures id !in old(ids) ==> Valid()
    {
      if |fifo| >= max {
        var oldest := fifo[0];
        assert forall x :: x in fifo[1..] <==> x in fifo && x != oldest;
        fifo := fifo[1..];
        ids := ids - {oldest};
      }
      ids := ids + {id};
      fifo := fifo + [id];
    }
  }

  class MaxTransport {
    const fromHandle: string
    const dedupeMaxIDs: int
    var on429Calls: nat
    var sent: seq<Message>

    constructor (fromHandle: string, dedupeMaxIDs: int)
      ensures this.fromHandle == fromHandle && this.dedupeMaxIDs == WindowSize(dedupeMaxIDs)
      ensures dedupeMaxIDs > 0 ==> this.dedupeMaxIDs == dedupeMaxIDs
      ensures dedupeMaxIDs <= 0 ==> this.dedupeMaxIDs == 4096
      ensures on429Calls == 0 && sent == []
    {
      this.fromHandle := fromHandle;
      this.dedupeMaxIDs := if dedupeMaxIDs <= 0 then 4096 else dedupeMaxIDs;
      on429Calls := 0;
      sent := [];
    }

    ghost function Config(): Receiver
      requires dedupeMaxIDs > 0
    {
      Receiver(fromHandle, dedupeMaxIDs)
    }

    /** The state of a loop that is still polling. */
    ghost predicate At(dedupe: DedupeSet, afterID: string, st: State)
      reads this, dedupe
    {
      && dedupe.Valid() && dedupe.max == dedupeMaxIDs
      && dedupe.fifo == st.fifo && afterID == st.afterID && sent == st.out && on429Calls == st.on429
    }

    /** Handles the messages of one poll; false when cancelled during a delivery. */
    method HandleBatch(dedupe: DedupeSet, after: string, messages: seq<Message>, stop: Option<nat>, ghost st: State)
      returns (afterID: string, running: bool)
      requires dedupeMaxIDs > 0 && At(dedupe, after, st) && !st.stopped
      modifies this`sent, dedupe
      ensures var end := Deliver(Config(), st, messages, stop);
              At(dedupe, afterID, end) && running == !end.stopped
    {
      afterID, running := after, true;
      var left := stop;
      ghost var cur := st;
      for i := 0 to |messages|
        invariant running && !cur.stopped && At(dedupe, afterID, cur)
        invariant Deliver(Config(), cur, messages[i..], left) == Deliver(Config(), st, messages, stop)
      {
        var m := messages[i];
        assert messages[i..][0] == m && messages[i..][1..] == messages[i + 1..];
        if m.id != "" {
          if dedupe.Seen(m.id) {
            continue;
          }
          dedupe.Add(m.id);
          afterID := m.id;
        }
        cur := Accept(Config(), cur, m);
        if fromHandle != "" && m.from == fromHandle {
          continue;
        }
        if left == Some(0) {
          cur := cur.(stopped := true);
          running := false;
          return;
        }
        sent := sent + [m];
        cur := cur.(out := cur.out + [m]);
        if left.Some? {
          left := Some(left.value - 1);
        }
      }
    }

    /** Handles the outcome of one poll; false when it ends the loop. */
    method HandlePoll(dedupe: DedupeSet, after: string, p: Poll, ghost st: State)
      returns (afterID: string, running: bool)
      requires dedupeMaxIDs > 0 && At(dedupe, after, st) && !st.stopped
      modifies this`sent, this`on429Calls, dedupe
      ensures var end := OnePoll(Config(), st, p);
              At(dedupe, afterID, end) && running == !end.stopped
    {
      afterID := after;
      match Classify(p.exchange) {
        case Messages(messages) =>
          if messages == [] {
            running := p.stop.None?;
          } else {
            afterID, running := HandleBatch(dedupe, after, messages, p.stop, st);
          }
        case RateLimited =>
          on429Calls := on429Calls + 1; // in the status check
          on429Calls := on429Calls + 1; // in the loop
          running := p.stop.None?;
        case AuthError =>
          running := false;
        case OtherError =>
          running := p.stop.None?;
        case ContextFailed =>
          running := false;
      }
    }

    /**
     Handles the given polls in turn until one ends the loop. What is sent, the cursor
     and the number of 429 reports are those of RunPolls; cursors are the cursors polled
     with.
     */
    method PollLoop(polls: seq<Poll>) returns (afterID: string, running: bool, cursors: seq<string>)
      requires dedupeMaxIDs > 0 && on429Calls == 0 && sent == []
      modifies this
      ensures var end := RunPolls(Config(), polls);
              && sent == end.out && afterID == end.afterID && on429Calls == end.on429 && running == !end.stopped
      ensures |cursors| <= |polls|
      ensures forall n :: 0 <= n < |cursors| ==>
                !RunPolls(Config(), polls[..n]).stopped && cursors[n] == RunPolls(Config(), polls[..n]).afterID
      ensures !running ==> RunPolls(Config(), polls[..|cursors|]).stopped
      ensures forall m :: m in sent ==> fromHandle == "" || m.from != fromHandle
    {
      OwnMessagesStay(Config(), polls);
      hide OnePoll, WindowSize;
      var dedupe := new DedupeSet(dedupeMaxIDs);
      afterID, running, cursors := "", true, [];
      for i := 0 to |polls|
        invariant running && |cursors| == i
        invariant At(dedupe, afterID, RunPolls(Config(), polls[..i])) && fresh(dedupe)
        invariant !RunPolls(Config(), polls[..i]).stopped
        invariant forall n :: 0 <= n < |cursors| ==>
                    !RunPolls(Config(), polls[..n]).stopped && cursors[n] == RunPolls(Config(), polls[..n]).afterID
      {
        assert polls[..i + 1][..i] == polls[..i];
        ghost var st := RunPolls(Config(), polls[..i]);
        cursors := cursors + [afterID];
        afterID, running := HandlePoll(dedupe, afterID, polls[i], st);
        if !running {
          StoppedStays(Config(), polls, i + 1);
          return;
        }
      }
      assert polls[..|polls|] == polls;
    }
  }
}
