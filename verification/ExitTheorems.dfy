/** What holds of every interleaving of the exit's replies. */
module ExitTheorems {
  import opened ExitModel

  /** The status the protocol's error table gives each code. */
  function TableStatus(code: string): int {
    if code == "policy_denied" then 403
    else if code == "bad_request" then 400
    else if code == "upstream_timeout" then 504
    else 502
  }

  /** Errors carry the status of the table, but for a reply that cannot be marshalled. That
      branch is never taken: a status, a map of string lists and bytes always marshal. */
  lemma StatusFollowsTableIff(o: Outcome, configured: int)
    requires FailureOf(o, configured).Some?
    ensures var f := FailureOf(o, configured).value;
            f.status == TableStatus(f.code) <==> !(o.Body? && o.length <= ResponseLimit(configured))
  {
    assert |"policy_denied"| == 13 && |"bad_request"| == 11 && |"upstream_timeout"| == 16;
    assert |"upstream_unavailable"| == 20 && |"internal_error"| == 14 && |"response_too_large"| == 18;
  }

  // ---------- the invariant ----------

  /** The part of the transport trace that sender id put there. */
  function By(wire: seq<Sent>, id: nat): seq<Sent> {
    if wire == [] then []
    else
      var before, last := By(wire[..|wire| - 1], id), wire[|wire| - 1];
      if last.id == id then before + [last] else before
  }

  /** e is chunk i of x, numbered from its draw. */
  predicate IsChunkOf(x: Sender, e: Sent, i: nat) {
    i < |x.chunks| && e.chunk == x.chunks[i].(seqNum := e.draw % UINT32)
  }

  /** x's chunks are on the wire in index order, with increasing draws, the pending one above them. */
  ghost predicate InOrder(st: State, id: nat, x: Sender) {
    var mine := By(st.wire, id);
    && IsChunking(x.frame, x.chunks)
    && |mine| == x.next <= |x.chunks|
    && (forall i :: 0 <= i < |mine| ==> IsChunkOf(x, mine[i], i))
    && (forall i, j :: 0 <= i < j < |mine| ==> mine[i].draw < mine[j].draw)
    && (forall i :: 0 <= i < |mine| ==> mine[i].draw <= st.draws)
    && (x.pending.Some? ==>
          x.pending.value <= st.draws && forall i :: 0 <= i < |mine| ==> mine[i].draw < x.pending.value)
  }

  /** No draw is used twice. */
  ghost predicate DrawsApart(st: State) {
    && (forall i :: 0 <= i < |st.wire| ==> 1 <= st.wire[i].draw <= st.draws)
    && (forall i, j :: 0 <= i < j < |st.wire| ==> st.wire[i].draw != st.wire[j].draw)
    && (forall id :: id in st.senders && st.senders[id].pending.Some? ==>
          && 1 <= st.senders[id].pending.value <= st.draws
          && forall i :: 0 <= i < |st.wire| ==> st.wire[i].draw != st.senders[id].pending.value)
    && (forall a, b :: a in st.senders && b in st.senders && a != b && st.senders[a].pending.Some? ==>
          st.senders[a].pending != st.senders[b].pending)
  }

  ghost predicate Inv(st: State) {
    && DrawsApart(st)
    && (forall id :: id in st.senders ==> InOrder(st, id, st.senders[id]))
    && (forall i :: 0 <= i < |st.wire| ==> st.wire[i].id in st.senders)
    && (forall i :: 0 <= i < |st.wire| ==> st.wire[i].chunk.seqNum == st.wire[i].draw % UINT32)
  }

  lemma ByOneMore(wire: seq<Sent>, e: Sent, id: nat)
    ensures By(wire + [e], id) == By(wire, id) + if e.id == id then [e] else []
  {
    assert (wire + [e])[..|wire|] == wire;
  }

  lemma {:induction false} ByNobody(wire: seq<Sent>, id: nat)
    requires forall i :: 0 <= i < |wire| ==> wire[i].id != id
    ensures By(wire, id) == []
  {
    if wire != [] { ByNobody(wire[..|wire| - 1], id); }
  }

  lemma DrawsStayApart(st: State, step: Step)
    requires DrawsApart(st)
    ensures DrawsApart(Next(st, step))
  {
    hide IsChunking, Numbered;
  }

  lemma InOrderElsewhere(st: State, next: State, id: nat, x: Sender, more: seq<Sent>)
    requires InOrder(st, id, x) && st.draws <= next.draws
    requires next.wire == st.wire + more && |more| <= 1 && (more != [] ==> more[0].id != id)
    ensures InOrder(next, id, x)
  {
    if more == [] {
      assert next.wire == st.wire;
    } else {
      ByOneMore(st.wire, more[0], id);
      assert next.wire == st.wire + [more[0]];
    }
  }

  lemma InOrderSent(st: State, next: State, id: nat, x: Sender, y: Sender)
    requires InOrder(st, id, x) && x.pending.Some? && x.next < |x.chunks|
    requires next.wire == st.wire + [Sent(id, x.pending.value, Numbered(x))] && next.draws == st.draws
    requires y.frame == x.frame && y.chunks == x.chunks && y.next == x.next + 1 && y.pending.None?
    ensures InOrder(next, id, y)
  {
    hide IsChunking, IsChunkOf, Numbered;
    var e, mine := Sent(id, x.pending.value, Numbered(x)), By(st.wire, id);
    ByOneMore(st.wire, e, id);
    NumberedIsChunk(x, e);
    NowSent(x, y, mine + [e]);
  }

  lemma NumberedIsChunk(x: Sender, e: Sent)
    requires x.pending.Some? && x.next < |x.chunks| && e.draw == x.pending.value && e.chunk == Numbered(x)
    ensures IsChunkOf(x, e, x.next)
  {
  }

  lemma NowSent(x: Sender, y: Sender, mine: seq<Sent>)
    requires x.chunks == y.chunks && forall i :: 0 <= i < |mine| ==> IsChunkOf(x, mine[i], i)
    ensures forall i :: 0 <= i < |mine| ==> IsChunkOf(y, mine[i], i)
  {
    forall i | 0 <= i < |mine| ensures IsChunkOf(y, mine[i], i) {
      assert IsChunkOf(x, mine[i], i);
    }
  }

  /** A draw, or a failure that reached nothing, leaves the wire alone. */
  lemma InOrderIdle(st: State, next: State, id: nat, x: Sender, y: Sender)
    requires InOrder(st, id, x) && next.wire == st.wire && st.draws <= next.draws
    requires y.frame == x.frame && y.chunks == x.chunks && y.next == x.next
    requires y.pending.None? || (y.pending.value == next.draws > st.draws)
    ensures InOrder(next, id, y)
  {
    hide IsChunking;
  }

  lemma InOrderBegin(st: State, id: nat, x: Sender)
    requires IsChunking(x.frame, x.chunks) && x.next == 0 && x.pending.None?
    requires forall i :: 0 <= i < |st.wire| ==> st.wire[i].id != id
    ensures InOrder(st, id, x)
  {
    ByNobody(st.wire, id);
  }

  lemma NextKeepsInOrder(st: State, step: Step, id: nat)
    requires Inv(st) && id in Next(st, step).senders
    ensures InOrder(Next(st, step), id, Next(st, step).senders[id])
  {
    hide InOrder, IsChunking, DrawsApart, Numbered;
    var next := Next(st, step);
    assert st.wire + [] == st.wire;
    if Enabled(st, step) {
      if step.id != id {
        InOrderElsewhere(st, next, id, st.senders[id], next.wire[|st.wire|..]);
      } else {
        var y := next.senders[id];
        match step
        case Begin(_, frame, chunks) => InOrderBegin(next, id, y);
        case Draw(_) => InOrderIdle(st, next, id, st.senders[id], y);
        case Send(_) => InOrderSent(st, next, id, st.senders[id], y);
        case Fail(_, reached) =>
          if reached { InOrderSent(st, next, id, st.senders[id], y); }
          else { InOrderIdle(st, next, id, st.senders[id], y); }
      }
    }
  }

  lemma NextKeepsInv(st: State, step: Step)
    requires Inv(st)
    ensures Inv(Next(st, step))
  {
    DrawsStayApart(st, step);
    forall id | id in Next(st, step).senders ensures InOrder(Next(st, step), id, Next(st, step).senders[id]) {
      NextKeepsInOrder(st, step, id);
    }
    hide DrawsApart, InOrder, IsChunking;
  }

  lemma {:induction false} RunKeepsInv(steps: seq<Step>)
    ensures Inv(RunFrom(INITIAL, steps))
  {
    if steps != [] {
      RunKeepsInv(steps[..|steps| - 1]);
      NextKeepsInv(RunFrom(INITIAL, steps[..|steps| - 1]), steps[|steps| - 1]);
    }
  }

  lemma FlattenMore(a: seq<Chunk>, c: Chunk)
    ensures Flatten(a + [c]) == Flatten(a) + c.payload
  {
    assert (a + [c])[..|a|] == a;
  }

  lemma FlattenNone()
    ensures Flatten([]) == []
  {
  }

  /** Flattening puts the payloads end to end. */
  lemma {:induction false} FlattenConcat(a: seq<Chunk>, b: seq<Chunk>)
    ensures Flatten(a + b) == Flatten(a) + Flatten(b)
    decreases |b|
  {
    hide *;
    if b == [] {
      FlattenNone();
      assert a + b == a;
    } else {
      var front, c := b[..|b| - 1], b[|b| - 1];
      FlattenConcat(a, front);
      assert b == front + [c];
      assert a + b == (a + front) + [c];
      FlattenMore(front, c);
      FlattenMore(a + front, c);
      assert Flatten(a) + (Flatten(front) + c.payload) == (Flatten(a) + Flatten(front)) + c.payload;
    }
  }

  // ---------- the results ----------

  /** In every interleaving two sent chunks share a sequence number only when at least 2^32
      numbers were drawn from one to the other; so none do while at most 2^32 are drawn. */
  lemma NumbersAreUnique(steps: seq<Step>, i: nat, j: nat)
    requires var st := RunFrom(INITIAL, steps); i < j < |st.wire|
    ensures var st := RunFrom(INITIAL, steps);
            var a, b := st.wire[i], st.wire[j];
            && a.draw != b.draw
            && (a.chunk.seqNum == b.chunk.seqNum <==> (a.draw - b.draw) % 4294967296 == 0)
            && (st.draws <= 4294967296 ==> a.chunk.seqNum != b.chunk.seqNum)
  {
    RunKeepsInv(steps);
    var st := RunFrom(INITIAL, steps);
    hide RunFrom;
    ModEqual(st.wire[i].draw, st.wire[j].draw);
  }

  lemma ModEqual(a: nat, b: nat)
    ensures a % UINT32 == b % UINT32 <==> (a - b) % UINT32 == 0
    ensures 1 <= a <= UINT32 && 1 <= b <= UINT32 && a != b ==> a % UINT32 != b % UINT32
  {
  }

  lemma FailedStays(st: State, step: Step, id: nat)
    requires id in st.senders && st.senders[id].failed
    ensures var next := Next(st, step);
            id in next.senders && next.senders[id] == st.senders[id] && By(next.wire, id) == By(st.wire, id)
  {
    hide IsChunking, Numbered;
    forall e: Sent | e.id != id ensures By(st.wire + [e], id) == By(st.wire, id) { ByOneMore(st.wire, e, id); }
  }

  /** A sender whose chunk failed sends nothing more, whatever the others do. */
  lemma {:induction false} FailureIsFinal(st: State, id: nat, reached: bool, steps: seq<Step>)
    requires Enabled(st, Fail(id, reached))
    ensures var failed := Next(st, Fail(id, reached));
            var end := RunFrom(failed, steps);
            && id in failed.senders && id in end.senders
            && end.senders[id] == failed.senders[id] && By(end.wire, id) == By(failed.wire, id)
            && |By(failed.wire, id)| == |By(st.wire, id)| + if reached then 1 else 0
  {
    var failed := Next(st, Fail(id, reached));
    if steps == [] {
      if reached { ByOneMore(st.wire, Sent(id, st.senders[id].pending.value, Numbered(st.senders[id])), id); }
    } else {
      FailureIsFinal(st, id, reached, steps[..|steps| - 1]);
      FailedStays(RunFrom(failed, steps[..|steps| - 1]), steps[|steps| - 1], id);
    }
  }

  /** The part of the trace with the given session and request ID, all the receiver can select by. */
  function Selected(wire: seq<Sent>, sid: string, rid: string): seq<Chunk> {
    if wire == [] then []
    else
      var before, last := Selected(wire[..|wire| - 1], sid, rid), wire[|wire| - 1].chunk;
      if last.sid == sid && last.rid == rid then before + [last] else before
  }

  function Chunks(es: seq<Sent>): (cs: seq<Chunk>)
    ensures |cs| == |es| && forall i :: 0 <= i < |es| ==> cs[i] == es[i].chunk
  {
    seq(|es|, i requires 0 <= i < |es| => es[i].chunk)
  }

  /** Selecting by IDs selects one sender when no other sender has those IDs. */
  lemma {:induction false} SelectedIsBy(wire: seq<Sent>, senders: map<nat, Sender>, id: nat)
    requires id in senders
    requires forall i :: 0 <= i < |wire| ==>
               wire[i].id in senders &&
               var f := senders[wire[i].id].frame; wire[i].chunk.sid == f.sid && wire[i].chunk.rid == f.rid
    requires forall k :: k in senders && k != id ==>
               senders[k].frame.sid != senders[id].frame.sid || senders[k].frame.rid != senders[id].frame.rid
    ensures Selected(wire, senders[id].frame.sid, senders[id].frame.rid) == Chunks(By(wire, id))
  {
    if wire != [] { SelectedIsBy(wire[..|wire| - 1], senders, id); }
  }

  lemma {:induction false} ByIndex(wire: seq<Sent>, n: nat) returns (k: nat)
    requires n < |wire|
    ensures k < |By(wire, wire[n].id)| && By(wire, wire[n].id)[k] == wire[n]
  {
    var before := wire[..|wire| - 1];
    if n == |wire| - 1 {
      k := |By(before, wire[n].id)|;
    } else {
      k := ByIndex(before, n);
    }
  }

  lemma WireCarriesSenderIDs(st: State, n: nat)
    requires Inv(st) && n < |st.wire|
    ensures var f := st.senders[st.wire[n].id].frame; st.wire[n].chunk.sid == f.sid && st.wire[n].chunk.rid == f.rid
  {
    var k := ByIndex(st.wire, n);
    var id := st.wire[n].id;
    assert InOrder(st, id, st.senders[id]);
    assert IsChunkOf(st.senders[id], By(st.wire, id)[k], k);
  }

  /** The chunks but for their sequence numbers. */
  predicate SameButNumbers(a: seq<Chunk>, b: seq<Chunk>) {
    |a| == |b| && forall i :: 0 <= i < |a| ==> a[i] == b[i].(seqNum := a[i].seqNum)
  }

  lemma {:induction false} SamePayload(a: seq<Chunk>, b: seq<Chunk>)
    requires SameButNumbers(a, b)
    ensures Flatten(a) == Flatten(b)
  {
    if a != [] { SamePayload(a[..|a| - 1], b[..|b| - 1]); }
  }

  /**
   In every interleaving, what the transport carries under a session and request ID that
   one sender alone has is that sender's chunks in index order, with increasing numbers
   while at most 2^32 - 1 are drawn: all of them, reassembling to its frame's payload, or
   a prefix if the sender failed or has not finished.
   */
  lemma RepliesAreRecoverable(steps: seq<Step>, id: nat)
    requires id in RunFrom(INITIAL, steps).senders
    requires var senders := RunFrom(INITIAL, steps).senders;
             forall k :: k in senders && k != id ==>
               senders[k].frame.sid != senders[id].frame.sid || senders[k].frame.rid != senders[id].frame.rid
    ensures var st := RunFrom(INITIAL, steps);
            var x := st.senders[id];
            var got := Selected(st.wire, x.frame.sid, x.frame.rid);
            && x.next <= |x.chunks|
            && SameButNumbers(got, x.chunks[..x.next])
            && (x.next == |x.chunks| ==> Flatten(got) == x.frame.payload)
            && (st.draws < 4294967296 ==> forall i, j :: 0 <= i < j < |got| ==> got[i].seqNum < got[j].seqNum)
  {
    RunKeepsInv(steps);
    RecoverableIn(RunFrom(INITIAL, steps), id);
  }

  lemma RecoverableIn(st: State, id: nat)
    requires Inv(st) && id in st.senders
    requires forall k :: k in st.senders && k != id ==>
               st.senders[k].frame.sid != st.senders[id].frame.sid ||
               st.senders[k].frame.rid != st.senders[id].frame.rid
    ensures var x := st.senders[id];
            var got := Selected(st.wire, x.frame.sid, x.frame.rid);
            && x.next <= |x.chunks|
            && SameButNumbers(got, x.chunks[..x.next])
            && (x.next == |x.chunks| ==> Flatten(got) == x.frame.payload)
            && (st.draws < UINT32 ==> forall i, j :: 0 <= i < j < |got| ==> got[i].seqNum < got[j].seqNum)
  {
    hide By, Selected, IsChunking, DrawsApart, InOrder;
    var x, mine := st.senders[id], By(st.wire, id);
    forall n | 0 <= n < |st.wire|
      ensures st.wire[n].id in st.senders
      ensures var f := st.senders[st.wire[n].id].frame; st.wire[n].chunk.sid == f.sid && st.wire[n].chunk.rid == f.rid
    {
      WireCarriesSenderIDs(st, n);
    }
    SelectedIsBy(st.wire, st.senders, id);
    OrderedChunks(st, id, x, mine);
  }

  lemma OrderedChunks(st: State, id: nat, x: Sender, mine: seq<Sent>)
    requires InOrder(st, id, x) && mine == By(st.wire, id)
    ensures x.next <= |x.chunks| && SameButNumbers(Chunks(mine), x.chunks[..x.next])
    ensures x.next == |x.chunks| ==> Flatten(Chunks(mine)) == x.frame.payload
    ensures st.draws < UINT32 ==> forall i, j :: 0 <= i < j < |mine| ==> Chunks(mine)[i].seqNum < Chunks(mine)[j].seqNum
  {
    hide By, Flatten, SameButNumbers, IsChunkOf;
    NumbersAside(x, mine);
    NumbersIncrease(x, mine, st.draws);
    if x.next == |x.chunks| {
      assert x.chunks[..x.next] == x.chunks;
      SamePayload(Chunks(mine), x.chunks);
    }
  }

  lemma NumbersAside(x: Sender, mine: seq<Sent>)
    requires |mine| <= |x.chunks| && forall i :: 0 <= i < |mine| ==> IsChunkOf(x, mine[i], i)
    ensures SameButNumbers(Chunks(mine), x.chunks[..|mine|])
  {
    forall i | 0 <= i < |mine| ensures Chunks(mine)[i] == x.chunks[i].(seqNum := Chunks(mine)[i].seqNum) {
      assert IsChunkOf(x, mine[i], i);
    }
  }

  lemma NumbersIncrease(x: Sender, mine: seq<Sent>, draws: nat)
    requires forall i :: 0 <= i < |mine| ==> IsChunkOf(x, mine[i], i) && mine[i].draw <= draws
    requires forall i, j :: 0 <= i < j < |mine| ==> mine[i].draw < mine[j].draw
    ensures draws < UINT32 ==> forall i, j :: 0 <= i < j < |mine| ==> Chunks(mine)[i].seqNum < Chunks(mine)[j].seqNum
  {
    if draws < UINT32 {
      forall i | 0 <= i < |mine| ensures Chunks(mine)[i].seqNum == mine[i].draw {
        assert IsChunkOf(x, mine[i], i);
        Small(mine[i].draw);
      }
    }
  }

  lemma Small(a: nat)
    requires a < UINT32
    ensures a % UINT32 == a
  {
  }
}
