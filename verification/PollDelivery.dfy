/** Which messages a run sends on, by their senders and the log they come from. */
module PollDelivery {
  import opened Basics
  import opened PollSpec
  import opened PollTheorems

  /** m does not come from this endpoint itself, if that is known. */
  predicate Foreign(r: Receiver, m: Message) {
    r.fromHandle == "" || m.from != r.fromHandle
  }

  lemma {:induction false} DeliverForeign(r: Receiver, st: State, ms: seq<Message>, stop: Option<nat>)
    requires forall m :: m in st.out ==> Foreign(r, m)
    ensures forall m :: m in Deliver(r, st, ms, stop).out ==> Foreign(r, m)
    decreases |ms|
  {
    if ms != [] && !st.stopped {
      if IsDuplicate(st, ms[0]) {
        DeliverForeign(r, st, ms[1..], stop);
      } else {
        var entered := Accept(r, st, ms[0]);
        if IsEcho(r, ms[0]) {
          DeliverForeign(r, entered, ms[1..], stop);
        } else if stop != Some(0) {
          DeliverForeign(r, entered.(out := entered.out + [ms[0]]), ms[1..],
                         if stop.Some? then Some(stop.value - 1) else None);
        }
      }
    }
  }

  /** In every run nothing is sent on that came from this endpoint itself. */
  lemma {:induction false} OwnMessagesStay(r: Receiver, polls: seq<Poll>)
    ensures forall m :: m in RunPolls(r, polls).out ==> r.fromHandle == "" || m.from != r.fromHandle
  {
    if polls != [] {
      var before, p := polls[..|polls| - 1], polls[|polls| - 1];
      OwnMessagesStay(r, before);
      match Classify(p.exchange)
      case Messages(ms) => DeliverForeign(r, RunPolls(r, before), ms, p.stop);
      case _ =>
    }
  }

  /**
   What one message does: with an ID among the last max accepted, nothing; else its ID, if
   it has one, is accepted and becomes the cursor, and the message is sent on unless it
   came from this endpoint. A message without an ID is never held back as a duplicate.
   */
  lemma OneMessage(r: Receiver, st: State, m: Message)
    requires r.max > 0 && Windowed(r.max, st) && !st.stopped
    ensures var next := Deliver(r, st, [m], None);
            var seen := m.id != "" && exists i ::
                          0 <= i < |st.accepted| && |st.accepted| - i <= r.max && st.accepted[i] == m.id;
            && (seen ==> next == st)
            && (!seen ==>
                  && next.accepted == st.accepted + (if m.id == "" then [] else [m.id])
                  && next.afterID == (if m.id == "" then st.afterID else m.id)
                  && next.out == st.out + if r.fromHandle == "" || m.from != r.fromHandle then [m] else [])
  {
    var none: Option<nat> := None;
    assert [m][0] == m && [m][1..] == [];
    forall s: State ensures Deliver(r, s, [], none) == s {}
    assert st.accepted + [] == st.accepted && st.out + [] == st.out;
    hide Windowed;
    SeenIffInWindow(r, st, m.id);
  }

  lemma SeenIffInWindow(r: Receiver, st: State, id: string)
    requires r.max > 0 && Windowed(r.max, st)
    ensures id in st.fifo <==>
            exists i :: 0 <= i < |st.accepted| && |st.accepted| - i <= r.max && st.accepted[i] == id
  {
    var acc := st.accepted;
    forall i | 0 <= i < |acc| && |acc| - i <= r.max ensures acc[i] in st.fifo { InLastN(acc, r.max, i); }
    if id in st.fifo {
      var j :| 0 <= j < |st.fifo| && st.fifo[j] == id;
      assert acc[|acc| - |st.fifo| + j] == id;
    }
  }

  // ---------- against a log ----------

  lemma {:induction false} ForeignEntries(r: Receiver, log: seq<Message>)
    requires IsLog(log)
    ensures var out := WithoutEchoes(r, log);
            && (forall m :: m in out <==> m in log && Foreign(r, m))
            && NoDup(out) && Subsequence(out, log)
            && (r.fromHandle == "" ==> out == log)
  {
    if log != [] {
      var before, m := log[..|log| - 1], log[|log| - 1];
      assert log == before + [m];
      ForeignEntries(r, before);
      forall i | 0 <= i < |before| ensures before[i] != m { assert log[i].id != log[|log| - 1].id; }
      assert m !in before;
      SubsequenceAppend(WithoutEchoes(r, before), before, m);
      hide Subsequence;
    }
  }

  lemma InPrefix(log: seq<Message>, p: nat, i: nat)
    requires IsLog(log) && p <= |log| && i < |log|
    ensures log[i] in log[..p] <==> i < p
    ensures IsLog(log[..p])
  {
    if i < p { assert log[..p][i] == log[i]; }
    if log[i] in log[..p] {
      var j :| 0 <= j < p && log[..p][j] == log[i];
      assert log[j].id == log[i].id;
    }
  }

  /**
   Against a log server as in ExactlyOnceInOrder, on a run that was not cancelled: an entry
   was sent exactly when it lies before the cursor and does not come from this endpoint;
   each once, in the order of the log, and all of them when no handle is set.
   */
  lemma SentIffForeign(r: Receiver, log: seq<Message>, polls: seq<Poll>)
    requires r.max > 0 && IsLog(log) && HonestRun(r, log, polls) && !RunPolls(r, polls).stopped
    ensures var out, p := RunPolls(r, polls).out, Position(log, RunPolls(r, polls).afterID);
            && (forall i :: 0 <= i < |log| ==>
                  (log[i] in out <==> i < p && (r.fromHandle == "" || log[i].from != r.fromHandle)))
            && NoDup(out) && Subsequence(out, log[..p])
            && (r.fromHandle == "" ==> out == log[..p])
  {
    hide HonestRun, IsLog, RunPolls, Position, WithoutEchoes, NoDup, Subsequence;
    ExactlyOnceInOrder(r, log, polls);
    EntriesUpTo(r, log, Position(log, RunPolls(r, polls).afterID));
  }

  lemma EntriesUpTo(r: Receiver, log: seq<Message>, p: nat)
    requires IsLog(log) && p <= |log|
    ensures var out := WithoutEchoes(r, log[..p]);
            && (forall i :: 0 <= i < |log| ==> (log[i] in out <==> i < p && Foreign(r, log[i])))
            && NoDup(out) && Subsequence(out, log[..p])
            && (r.fromHandle == "" ==> out == log[..p])
  {
    hide IsLog, WithoutEchoes, NoDup, Subsequence;
    forall i | 0 <= i < |log| ensures log[i] in log[..p] <==> i < p { InPrefix(log, p, i); }
    PrefixIsLog(log, p);
    ForeignEntries(r, log[..p]);
  }

  lemma PrefixIsLog(log: seq<Message>, p: nat)
    requires IsLog(log) && p <= |log|
    ensures IsLog(log[..p])
  {
  }

  /** When it was cancelled, the same holds of all entries but the last before the cursor. */
  lemma SentUpToTheLast(r: Receiver, log: seq<Message>, polls: seq<Poll>)
    requires r.max > 0 && IsLog(log) && HonestRun(r, log, polls)
    ensures var out, p := RunPolls(r, polls).out, Position(log, RunPolls(r, polls).afterID);
            && (forall i :: 0 <= i < |log| && i != p - 1 ==>
                  (log[i] in out <==> i < p && (r.fromHandle == "" || log[i].from != r.fromHandle)))
            && NoDup(out) && Subsequence(out, log)
            && (r.fromHandle == "" ==> out == log[..p] || (p > 0 && out == log[..p - 1]))
  {
    hide HonestRun, IsLog, RunPolls, Position, WithoutEchoes, NoDup, Subsequence;
    ExactlyOnceInOrder(r, log, polls);
    var out, p := RunPolls(r, polls).out, Position(log, RunPolls(r, polls).afterID);
    EntriesUpTo(r, log, p);
    SubsequenceOfWhole(out, log, p);
    if p > 0 {
      EntriesUpTo(r, log, p - 1);
      SubsequenceOfWhole(out, log, p - 1);
    }
  }

  lemma SubsequenceOfWhole(out: seq<Message>, log: seq<Message>, p: nat)
    requires p <= |log|
    ensures Subsequence(out, log[..p]) ==> Subsequence(out, log)
  {
    hide Subsequence;
    if Subsequence(out, log[..p]) {
      SubsequenceExtend(out, log[..p], log[p..]);
      assert log == log[..p] + log[p..];
    }
  }

  // ---------- what ends the loop ----------

  /** Cancellation at the k-th delivery sends k messages, if there are more to send. */
  lemma {:induction false} CutDelivery(r: Receiver, st: State, ms: seq<Message>, k: nat)
    requires !st.stopped
    ensures var all, cut := Deliver(r, st, ms, None), Deliver(r, st, ms, Some(k));
            && st.out <= all.out
            && (cut.stopped <==> |all.out| - |st.out| > k)
            && cut.out == if cut.stopped then all.out[..|st.out| + k] else all.out
    decreases |ms|
  {
    var none: Option<nat> := None;
    if ms != [] {
      if IsDuplicate(st, ms[0]) {
        CutDelivery(r, st, ms[1..], k);
      } else {
        var entered := Accept(r, st, ms[0]);
        if IsEcho(r, ms[0]) {
          CutDelivery(r, entered, ms[1..], k);
        } else {
          var sent := entered.(out := entered.out + [ms[0]]);
          CutDelivery(r, sent, ms[1..], if k > 0 then k - 1 else 0);
          assert st.out <= sent.out;
        }
      }
    }
  }

  /**
   Exactly what ends the loop: 401, 403, a context error, or a cancellation that strikes in
   a wait, which follows every outcome without messages, or at a delivery that is reached.
   */
  lemma StopsIff(r: Receiver, st: State, p: Poll)
    requires !st.stopped
    ensures var uncut := OnePoll(r, st, Poll(p.exchange, None));
            OnePoll(r, st, p).stopped <==>
              || p.exchange.ContextError?
              || (p.exchange.HttpReply? && (p.exchange.status == 401 || p.exchange.status == 403))
              || (p.stop.Some? && (Carried(p) == [] || |uncut.out| - |st.out| > p.stop.value))
  {
    hide Deliver;
    match Classify(p.exchange)
    case Messages(ms) =>
      NeverStops(r, st, ms);
      if p.stop.Some? { CutDelivery(r, st, ms, p.stop.value); }
    case _ =>
  }
}
