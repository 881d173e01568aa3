/** How long a key stays resident. */
module CacheRuns {
  import opened Basics
  import opened Recency
  import opened CacheTheorems
  import opened CacheFilling

  /** The keys used by a run, other than k. */
  function Others(lim: Limits, s: seq<Slot>, ops: seq<Op>, k: string): set<string> {
    set u | u in Uses(lim, s, ops) && u != k
  }

  /** No Get of the run finds k stale. */
  ghost predicate NeverStale(lim: Limits, s: seq<Slot>, ops: seq<Op>, k: string) {
    forall n :: 0 <= n < |ops| && ops[n].GetOp? && ops[n].key == k ==>
      var at := Run(lim, s, ops[..n]);
      Resident(at, k) ==> ops[n].now <= at[Find(at, k)].value.expiresAt
  }

  /** The run never finds k stale, and with the d other keys it uses leaves room for it:
      d + 1 entries, and d + 1 bodies of the largest admissible size. */
  ghost predicate LeavesRoom(lim: Limits, s: seq<Slot>, ops: seq<Op>, k: string) {
    var d := |Others(lim, s, ops, k)|;
    && NeverStale(lim, s, ops, k)
    && lim.maxEntryBytes > 0
    && d + 1 <= lim.maxEntries && (d + 1) * lim.maxEntryBytes <= lim.maxBytes
  }

  /** k is resident, only keys of ahead stand before it, and no body is over e. */
  ghost predicate Held(s: seq<Slot>, k: string, ahead: set<string>, e: nat) {
    && Distinct(s)
    && (forall i :: 0 <= i < |s| ==> |s[i].value.body| <= e)
    && Resident(s, k)
    && (forall i :: 0 <= i < Find(s, k) ==> s[i].key in ahead)
  }

  /** Slots with distinct keys from u are no more than u has. */
  lemma {:induction false} DistinctKeysWithin(s: seq<Slot>, u: set<string>)
    requires Distinct(s) && forall i :: 0 <= i < |s| ==> s[i].key in u
    ensures |s| <= |u|
  {
    if s != [] { DistinctKeysWithin(s[1..], u - {s[0].key}); }
  }

  /** Taking key out keeps k held, by fewer keys. */
  lemma HeldWithout(s: seq<Slot>, k: string, ahead: set<string>, e: nat, key: string)
    requires Held(s, k, ahead, e) && key != k
    ensures Held(Without(s, key), k, ahead - {key}, e)
  {
    var t := Without(s, key);
    WithoutResident(s, key, k);
    WithoutKeys(s, key);
    NotResidentAt(t, key);
    var i, j := Find(s, key), Find(s, k);
    if i < |s| {
      WithoutSlots(s, key);
      var at := if i < j then j - 1 else j;
      assert t[at].key == k;
      FindAt(t, at);
    }
  }

  /** The slots up to a held key, and one more entry, fit the limits. */
  lemma HeldFits(lim: Limits, t: seq<Slot>, k: string, ahead: set<string>, size: nat)
    requires lim.maxEntryBytes > 0 && Held(t, k, ahead, lim.maxEntryBytes) && size <= lim.maxEntryBytes
    requires |ahead| + 2 <= lim.maxEntries && (|ahead| + 2) * lim.maxEntryBytes <= lim.maxBytes
    ensures Fits(lim, Find(t, k) + 1, Bytes(t[..Find(t, k) + 1]), size)
  {
    var i, e := Find(t, k), lim.maxEntryBytes;
    DistinctKeysWithin(t[..i], ahead);
    BytesAtMost(t[..i + 1], e);
    MulMonotone(i + 1, |ahead| + 1, e);
    assert (|ahead| + 2) * e == (|ahead| + 1) * e + e;
  }

  lemma HeldPrefix(t: seq<Slot>, k: string, ahead: set<string>, e: nat, n: nat)
    requires Held(t, k, ahead, e) && Find(t, k) < n <= |t|
    ensures Held(t[..n], k, ahead, e)
  {
    FindAt(t[..n], Find(t, k));
  }

  lemma HeldStored(lim: Limits, s: seq<Slot>, k: string, ahead: set<string>, key: string, v: Snapshot)
    requires lim.maxEntryBytes > 0 && Held(s, k, ahead, lim.maxEntryBytes) && key != k && Accepts(lim, v)
    requires var u := ahead + {key};
             |u| + 1 <= lim.maxEntries && (|u| + 1) * lim.maxEntryBytes <= lim.maxBytes
    ensures Held(Store(lim, s, key, v), k, ahead + {key}, lim.maxEntryBytes)
  {
    hide Held, Evict, Bytes, Find, Resident, Without;
    var t, less := Without(s, key), ahead - {key};
    HeldFacts(s, k, ahead, lim.maxEntryBytes);
    WithoutKeys(s, key);
    NotResidentAt(t, key);
    HeldWithout(s, k, ahead, lim.maxEntryBytes, key);
    HeldFacts(t, k, less, lim.maxEntryBytes);
    assert ahead + {key} == less + {key} && |ahead + {key}| == |less| + 1;
    HeldFits(lim, t, k, less, |v.body|);
    var n := |Store(lim, s, key, v)| - 1;
    StoreEvictsMinimally(lim, s, key, v);
    assert Find(t, k) + 1 <= n;
    HeldPrefix(t, k, less, lim.maxEntryBytes, n);
    HeldCons(Slot(key, v), t[..n], k, less, lim.maxEntryBytes);
  }

  lemma HeldCons(x: Slot, t: seq<Slot>, k: string, ahead: set<string>, e: nat)
    requires Held(t, k, ahead, e) && x.key != k && |x.value.body| <= e
    requires forall i :: 0 <= i < |t| ==> t[i].key != x.key
    ensures Held([x] + t, k, ahead + {x.key}, e)
  {
    assert ([x] + t)[1..] == t;
  }

  lemma HeldFront(s: seq<Slot>, k: string, ahead: set<string>, e: nat, key: string)
    requires Held(s, k, ahead, e) && Find(s, key) < |s|
    ensures Held([s[Find(s, key)]] + Without(s, key), k, if key == k then {} else ahead + {key}, e)
  {
    hide Held, Find, Without, Distinct;
    var x, t := s[Find(s, key)], Without(s, key);
    HeldFacts(s, k, ahead, e);
    SmallWithout(s, key, e);
    WithoutKeys(s, key);
    NotResidentAt(t, key);
    if key != k {
      HeldWithout(s, k, ahead, e, key);
      HeldCons(x, t, k, ahead - {key}, e);
      assert (ahead - {key}) + {key} == ahead + {key};
    } else {
      HeldFirst(x, t, e);
    }
  }

  lemma HeldFirst(x: Slot, t: seq<Slot>, e: nat)
    requires Distinct(t) && |x.value.body| <= e
    requires forall i :: 0 <= i < |t| ==> t[i].key != x.key && |t[i].value.body| <= e
    ensures Held([x] + t, x.key, {}, e)
  {
  }

  lemma SmallWithout(s: seq<Slot>, key: string, e: nat)
    requires Find(s, key) < |s| && forall i :: 0 <= i < |s| ==> |s[i].value.body| <= e
    ensures forall i :: 0 <= i < |Without(s, key)| ==> |Without(s, key)[i].value.body| <= e
    ensures s[Find(s, key)].key == key
  {
    WithoutSlots(s, key);
  }

  /** The key op adds to those used besides k. */
  function NewOther(lim: Limits, s: seq<Slot>, op: Op, k: string): set<string> {
    if IsUse(lim, s, op) && op.key != k then {op.key} else {}
  }

  lemma HeldApply(lim: Limits, s: seq<Slot>, op: Op, k: string, ahead: set<string>)
    requires lim.maxEntryBytes > 0 && Held(s, k, ahead, lim.maxEntryBytes)
    requires op.GetOp? && op.key == k ==> op.now <= s[Find(s, k)].value.expiresAt
    requires var u := ahead + NewOther(lim, s, op, k);
             |u| + 1 <= lim.maxEntries && (|u| + 1) * lim.maxEntryBytes <= lim.maxBytes
    ensures Held(Apply(lim, s, op), k, ahead + NewOther(lim, s, op, k), lim.maxEntryBytes)
  {
    hide Held, Without, Evict, Resident, Fits, Store, Find;
    var e, u := lim.maxEntryBytes, ahead + NewOther(lim, s, op, k);
    HeldFacts(s, k, ahead, e);
    match op
    case GetOp(key, now) =>
      if IsUse(lim, s, op) {
        HeldFront(s, k, ahead, e, key);
        HeldMore(Apply(lim, s, op), k, if key == k then {} else ahead + {key}, u, e);
      } else if Find(s, key) < |s| {
        HeldWithout(s, k, ahead, e, key);
        HeldMore(Without(s, key), k, ahead - {key}, u, e);
      } else {
        HeldMore(s, k, ahead, u, e);
      }
    case PutOp(key, v) =>
      if !Accepts(lim, v) {
        StoreRejected(lim, s, key, v);
        HeldMore(s, k, ahead, u, e);
      } else if key == k {
        SmallStore(lim, s, key, v);
        HeldMore(Apply(lim, s, op), k, {}, u, e);
      } else {
        HeldStored(lim, s, k, ahead, key, v);
      }
  }

  lemma StoreRejected(lim: Limits, s: seq<Slot>, key: string, v: Snapshot)
    requires !Accepts(lim, v)
    ensures Store(lim, s, key, v) == s
  {
  }

  lemma HeldFacts(s: seq<Slot>, k: string, ahead: set<string>, e: nat)
    requires Held(s, k, ahead, e)
    ensures Distinct(s) && Resident(s, k) && Find(s, k) < |s| && forall i :: 0 <= i < |s| ==> |s[i].value.body| <= e
  {
  }

  lemma HeldMore(s: seq<Slot>, k: string, ahead: set<string>, more: set<string>, e: nat)
    requires Held(s, k, ahead, e) && ahead <= more
    ensures Held(s, k, more, e)
  {
  }

  lemma SmallStore(lim: Limits, s: seq<Slot>, key: string, v: Snapshot)
    requires lim.maxEntryBytes > 0 && Accepts(lim, v) && Distinct(s)
    requires forall i :: 0 <= i < |s| ==> |s[i].value.body| <= lim.maxEntryBytes
    ensures Held(Store(lim, s, key, v), key, {}, lim.maxEntryBytes)
  {
    ApplyKeepsDistinct(lim, s, PutOp(key, v));
    StoreEvictsMinimally(lim, s, key, v);
    if Resident(s, key) { WithoutSlots(s, key); }
  }

  /**
   A key just used stays resident through any further run that never finds it stale,
   as long as the distinct other keys used meanwhile leave room for it.
   */
  lemma {:induction false} WorkingSetStaysResident(lim: Limits, s: seq<Slot>, ops: seq<Op>, k: string)
    requires LeavesRoom(lim, s, ops, k) && Held(s, k, {}, lim.maxEntryBytes)
    ensures Held(Run(lim, s, ops), k, Others(lim, s, ops, k), lim.maxEntryBytes)
  {
    hide *;
    if ops == [] {
      NothingRun(lim, s, k);
    } else {
      var before, op := ops[..|ops| - 1], ops[|ops| - 1];
      var u0 := Others(lim, s, before, k);
      RoomStep(lim, s, ops, k);
      WorkingSetStaysResident(lim, s, before, k);
      HeldFacts(Run(lim, s, before), k, u0, lim.maxEntryBytes);
      HeldApply(lim, Run(lim, s, before), op, k, u0);
      RunLast(lim, s, ops);
    }
  }

  lemma NothingRun(lim: Limits, s: seq<Slot>, k: string)
    ensures Run(lim, s, []) == s && Others(lim, s, [], k) == {}
  {
  }

  lemma RunLast(lim: Limits, s: seq<Slot>, ops: seq<Op>)
    requires ops != []
    ensures Run(lim, s, ops) == Apply(lim, Run(lim, s, ops[..|ops| - 1]), ops[|ops| - 1])
  {
  }

  lemma RoomStep(lim: Limits, s: seq<Slot>, ops: seq<Op>, k: string)
    requires ops != [] && LeavesRoom(lim, s, ops, k)
    ensures var before, op := ops[..|ops| - 1], ops[|ops| - 1];
            var at := Run(lim, s, before);
            var u := Others(lim, s, before, k) + NewOther(lim, at, op, k);
            && lim.maxEntryBytes > 0 && LeavesRoom(lim, s, before, k)
            && Others(lim, s, ops, k) == u
            && |u| + 1 <= lim.maxEntries && (|u| + 1) * lim.maxEntryBytes <= lim.maxBytes
            && (op.GetOp? && op.key == k && Resident(at, k) ==> op.now <= at[Find(at, k)].value.expiresAt)
  {
    hide NeverStale, Others, NewOther, Run;
    var before := ops[..|ops| - 1];
    OthersStep(lim, s, ops, k);
    NeverStaleStep(lim, s, ops, k);
    SubsetSize(Others(lim, s, before, k), Others(lim, s, ops, k));
    MulMonotone(|Others(lim, s, before, k)| + 1, |Others(lim, s, ops, k)| + 1, lim.maxEntryBytes);
  }

  /** The same from the empty cache: op uses its key after any run, and after is the rest. */
  lemma UsedKeyStaysResident(lim: Limits, before: seq<Op>, op: Op, after: seq<Op>)
    requires IsUse(lim, Run(lim, [], before), op)
    requires LeavesRoom(lim, Run(lim, [], before + [op]), after, op.key)
    ensures Resident(Run(lim, Run(lim, [], before + [op]), after), op.key)
  {
    hide NeverStale, Others;
    var s := Run(lim, [], before);
    RunStep(lim, [], before, op);
    RunWithinLimits(lim, before);
    RunKeepsDistinct(lim, [], before);
    UseIsHeld(lim, s, op);
    WorkingSetStaysResident(lim, Run(lim, [], before + [op]), after, op.key);
  }

  lemma UseIsHeld(lim: Limits, s: seq<Slot>, op: Op)
    requires lim.maxEntryBytes > 0 && Distinct(s) && WithinLimits(lim, s) && IsUse(lim, s, op)
    ensures Held(Apply(lim, s, op), op.key, {}, lim.maxEntryBytes)
  {
    match op
    case GetOp(key, now) =>
      SmallWithout(s, key, lim.maxEntryBytes);
      WithoutKeys(s, key);
      NotResidentAt(Without(s, key), key);
      HeldFirst(s[Find(s, key)], Without(s, key), lim.maxEntryBytes);
    case PutOp(key, v) => SmallStore(lim, s, key, v);
  }

  lemma OthersStep(lim: Limits, s: seq<Slot>, ops: seq<Op>, k: string)
    requires ops != []
    ensures var before, op := ops[..|ops| - 1], ops[|ops| - 1];
            Others(lim, s, ops, k) == Others(lim, s, before, k) + NewOther(lim, Run(lim, s, before), op, k)
  {
  }

  lemma NeverStaleStep(lim: Limits, s: seq<Slot>, ops: seq<Op>, k: string)
    requires ops != [] && NeverStale(lim, s, ops, k)
    ensures NeverStale(lim, s, ops[..|ops| - 1], k)
    ensures var at, op := Run(lim, s, ops[..|ops| - 1]), ops[|ops| - 1];
            op.GetOp? && op.key == k && Resident(at, k) ==> op.now <= at[Find(at, k)].value.expiresAt
  {
    var before := ops[..|ops| - 1];
    forall n | 0 <= n < |before| ensures before[..n] == ops[..n] && before[n] == ops[n] {}
  }

  lemma SubsetSize<T>(a: set<T>, b: set<T>)
    requires a <= b
    ensures |a| <= |b|
  {
    assert b == a + (b - a);
  }

  // ---------- the bound is exact ----------

  /** In every run with these limits: once a key is used it stays resident, as long as at
      most d other keys are used and it is never found stale. */
  ghost predicate KeepsWorkingSet(lim: Limits, d: nat) {
    forall before: seq<Op>, op: Op, after: seq<Op> ::
      KeptAfter(lim, d, before, op, after)
  }

  ghost predicate KeptAfter(lim: Limits, d: nat, before: seq<Op>, op: Op, after: seq<Op>) {
    var s := Run(lim, [], before + [op]);
    IsUse(lim, Run(lim, [], before), op) && |Others(lim, s, after, op.key)| <= d &&
    NeverStale(lim, s, after, op.key) ==>
      Resident(Run(lim, s, after), op.key)
  }

  lemma {:induction false} OthersAtMost(lim: Limits, s: seq<Slot>, ops: seq<Op>, k: string)
    ensures |Others(lim, s, ops, k)| <= |ops|
  {
    hide Others;
    if ops == [] {
      NothingRun(lim, s, k);
    } else {
      OthersAtMost(lim, s, ops[..|ops| - 1], k);
      OthersStep(lim, s, ops, k);
    }
  }

  lemma {:induction false} PutsConcat(a: seq<Slot>, b: seq<Slot>)
    ensures Puts(a + b) == Puts(b) + Puts(a)
    ensures |Puts(a)| == |a| && forall i :: 0 <= i < |Puts(a)| ==> Puts(a)[i].PutOp?
  {
    if a == [] {
      assert a + b == b && Puts(b) + [] == Puts(b);
    } else {
      PutsConcat(a[1..], b);
      assert (a + b)[1..] == a[1..] + b;
    }
  }

  /** The largest number of entries of size e that fit. */
  function Room(lim: Limits): (m: nat)
    requires 0 < lim.maxEntryBytes <= lim.maxBytes && 0 < lim.maxEntries
    ensures 0 < m <= lim.maxEntries && m * lim.maxEntryBytes <= lim.maxBytes
    ensures m + 1 > lim.maxEntries || (m + 1) * lim.maxEntryBytes > lim.maxBytes
  {
    RoomDivides(lim.maxBytes, lim.maxEntryBytes);
    MulMonotone(Min(lim.maxEntries, lim.maxBytes / lim.maxEntryBytes), lim.maxBytes / lim.maxEntryBytes,
                lim.maxEntryBytes);
    Min(lim.maxEntries, lim.maxBytes / lim.maxEntryBytes)
  }

  lemma RoomDivides(b: nat, e: nat)
    requires 0 < e <= b
    ensures 0 < b / e && (b / e) * e <= b < (b / e + 1) * e
  {
  }

  /** As many entries of the largest size as fit all stay. */
  lemma FillStays(lim: Limits)
    requires 0 < lim.maxEntryBytes <= lim.maxBytes && 0 < lim.maxEntries
    ensures var m, e := Room(lim), lim.maxEntryBytes;
            var s := Fill(m, m * e, e);
            && |s| == m && Batch(s, e, m * e) && Run(lim, [], Puts(s)) == s
            && forall i :: 0 <= i < |s| ==> |s[i].key| <= m && |s[i].value.body| <= e
  {
    hide Room, Run, Fill;
    var m, e := Room(lim), lim.maxEntryBytes;
    var s := Fill(m, m * e, e);
    FillIsBatch(m, m * e, e);
    PutsLeave(lim, s, e, m * e);
    assert s[..m] == s;
  }

  /** The Put of the last slot comes first. */
  lemma PutsOldestFirst(s: seq<Slot>)
    requires s != []
    ensures var front, k := s[..|s| - 1], s[|s| - 1];
            && Puts(s) == [PutOp(k.key, k.value)] + Puts(front)
            && |Puts(front)| == |front| && forall i :: 0 <= i < |front| ==> Puts(front)[i].PutOp?
  {
    var front, k := s[..|s| - 1], s[|s| - 1];
    PutsConcat(front, [k]);
    assert s == front + [k];
    assert [k][1..] == [];
    assert Puts([k]) == [PutOp(k.key, k.value)];
  }

  /** Filling the cache with entries of the largest size, and one Put more. */
  lemma OneTooMany(lim: Limits) returns (op: Op, after: seq<Op>)
    requires 0 < lim.maxEntryBytes <= lim.maxBytes && 0 < lim.maxEntries
    ensures op.PutOp? && Accepts(lim, op.value)
    ensures |after| == Room(lim) && forall i :: 0 <= i < |after| ==> after[i].PutOp?
    ensures !Resident(Run(lim, Run(lim, [], [op]), after), op.key)
  {
    hide *;
    var m, e := Room(lim), lim.maxEntryBytes;
    var s := Fill(m, m * e, e);
    FillStays(lim);
    op, after := RefillOneMore(lim, s, m, e);
  }

  lemma RefillOneMore(lim: Limits, s: seq<Slot>, m: nat, e: nat) returns (op: Op, after: seq<Op>)
    requires 0 < m == |s| && e == lim.maxEntryBytes > 0 && lim.maxBytes > 0 && Batch(s, e, m * e)
    requires m + 1 > lim.maxEntries > 0 || (m + 1) * e > lim.maxBytes
    requires forall i :: 0 <= i < |s| ==> |s[i].key| <= m && |s[i].value.body| <= e
    requires Run(lim, [], Puts(s)) == s
    ensures op.PutOp? && Accepts(lim, op.value)
    ensures |after| == m && forall i :: 0 <= i < |after| ==> after[i].PutOp?
    ensures !Resident(Run(lim, Run(lim, [], [op]), after), op.key)
  {
    hide Run, Store, Batch, Puts, FillerKey, Filler, Resident;
    var last := PutOp(FillerKey(m), Filler(e));
    PutsOldestFirst(s);
    op := PutOp(s[m - 1].key, s[m - 1].value);
    after := Puts(s[..m - 1]) + [last];
    RunConcat(lim, [], [op], after);
    assert [op] + after == Puts(s) + [last];
    RunStep(lim, [], Puts(s), last);
    LastIsLost(lim, s, m, e);
  }

  lemma LastIsLost(lim: Limits, s: seq<Slot>, m: nat, e: nat)
    requires 0 < m == |s| && e == lim.maxEntryBytes > 0 && lim.maxBytes > 0 && Batch(s, e, m * e)
    requires m + 1 > lim.maxEntries > 0 || (m + 1) * e > lim.maxBytes
    requires forall i :: 0 <= i < |s| ==> |s[i].key| <= m
    ensures !Resident(Store(lim, s, FillerKey(m), Filler(e)), s[m - 1].key)
  {
    hide Store, Without, Bytes;
    var v := Filler(e);
    NewKey(s, m);
    StoreEvictsMinimally(lim, s, FillerKey(m), v);
    var n := |Store(lim, s, FillerKey(m), v)| - 1;
    assert s[..m] == s && (m + 1) * e == m * e + e;
    assert !Fits(lim, m, Bytes(s[..m]), e);
    assert n < m;
    var t := [Slot(FillerKey(m), v)] + s[..n];
    forall i | 0 <= i < |t| ensures t[i].key != s[m - 1].key {
      if i > 0 { assert t[i] == s[i - 1]; }
    }
  }

  lemma NewKey(s: seq<Slot>, m: nat)
    requires forall i :: 0 <= i < |s| ==> |s[i].key| <= m
    ensures Without(s, FillerKey(m)) == s
  {
  }

  /**
   For limits as validation leaves them, and at least one other key: every run keeps the
   key exactly when all the keys fit, as entries and as bodies of the largest size.
   */
  lemma WorkingSetIff(lim: Limits, d: nat)
    requires 0 < lim.maxEntryBytes <= lim.maxBytes && 0 < lim.maxEntries && d > 0
    ensures KeepsWorkingSet(lim, d) <==> d + 1 <= lim.maxEntries && (d + 1) * lim.maxEntryBytes <= lim.maxBytes
  {
    if d + 1 <= lim.maxEntries && (d + 1) * lim.maxEntryBytes <= lim.maxBytes {
      forall before: seq<Op>, op: Op, after: seq<Op> ensures KeptAfter(lim, d, before, op, after) {
        KeptWithin(lim, d, before, op, after);
      }
    } else {
      var op, after := OneTooMany(lim);
      LostBeyond(lim, d, op, after);
    }
  }

  lemma KeptWithin(lim: Limits, d: nat, before: seq<Op>, op: Op, after: seq<Op>)
    requires 0 < lim.maxEntryBytes && d + 1 <= lim.maxEntries && (d + 1) * lim.maxEntryBytes <= lim.maxBytes
    ensures KeptAfter(lim, d, before, op, after)
  {
    hide Run, Others, NeverStale, IsUse;
    var s := Run(lim, [], before + [op]);
    var n := |Others(lim, s, after, op.key)|;
    if n <= d && IsUse(lim, Run(lim, [], before), op) && NeverStale(lim, s, after, op.key) {
      MulMonotone(n + 1, d + 1, lim.maxEntryBytes);
      UsedKeyStaysResident(lim, before, op, after);
    }
  }

  lemma LostBeyond(lim: Limits, d: nat, op: Op, after: seq<Op>)
    requires 0 < lim.maxEntryBytes <= lim.maxBytes && 0 < lim.maxEntries
    requires !(d + 1 <= lim.maxEntries && (d + 1) * lim.maxEntryBytes <= lim.maxBytes)
    requires op.PutOp? && Accepts(lim, op.value)
    requires |after| == Room(lim) && forall i :: 0 <= i < |after| ==> after[i].PutOp?
    requires !Resident(Run(lim, Run(lim, [], [op]), after), op.key)
    ensures !KeptAfter(lim, d, [], op, after)
  {
    hide Run, Others, Room;
    var s := Run(lim, [], [op]);
    assert [] + [op] == [op];
    OthersAtMost(lim, s, after, op.key);
    if d < Room(lim) { MulMonotone(d + 1, Room(lim), lim.maxEntryBytes); }
  }
}
