/** Properties of single calls and of whole runs of the cache. */
module CacheTheorems {
  import opened Basics
  import opened Recency
  import opened Config

  // ---------- minimal eviction ----------

  lemma FitsShorter(lim: Limits, s: seq<Slot>, m: nat, n: nat, size: nat)
    requires m <= n <= |s| && Fits(lim, n, Bytes(s[..n]), size)
    ensures Fits(lim, m, Bytes(s[..m]), size)
  {
    BytesPrefix(s[..n], m);
    assert s[..n][..m] == s[..m];
  }

  lemma {:induction false} EvictKeepsLongest(lim: Limits, s: seq<Slot>, size: nat)
    ensures var n := |Evict(lim, s, size)|;
            && n <= |s| && Evict(lim, s, size) == s[..n]
            && (n == 0 || Fits(lim, n, Bytes(s[..n]), size))
            && forall m :: n < m <= |s| ==> !Fits(lim, m, Bytes(s[..m]), size)
  {
    assert s[..|s|] == s;
    if !(s == [] || Fits(lim, |s|, Bytes(s), size)) {
      var t := s[..|s| - 1];
      EvictKeepsLongest(lim, t, size);
      assert forall m :: 0 <= m <= |t| ==> t[..m] == s[..m];
    }
  }

  /**
   An accepted Put keeps, of the other entries in recency order, exactly the longest
   prefix that fits both limits together with the new entry.
   */
  lemma StoreEvictsMinimally(lim: Limits, s: seq<Slot>, key: string, v: Snapshot)
    requires Accepts(lim, v)
    ensures var t, n := Without(s, key), |Store(lim, s, key, v)| - 1;
            && 0 <= n <= |t|
            && Store(lim, s, key, v) == [Slot(key, v)] + t[..n]
            && forall m :: 0 < m <= |t| ==> (m <= n <==> Fits(lim, m, Bytes(t[..m]), |v.body|))
  {
    var t, n := Without(s, key), |Store(lim, s, key, v)| - 1;
    EvictKeepsLongest(lim, t, |v.body|);
    forall m | 0 < m <= n ensures Fits(lim, m, Bytes(t[..m]), |v.body|) {
      FitsShorter(lim, t, m, n, |v.body|);
    }
  }

  /** A lookup hits exactly when the key is resident and not past its expiry time. A hit
      loses nothing; a stale entry is the only one lost; a miss changes nothing. */
  lemma LookupHitsIffFresh(s: seq<Slot>, key: string, now: int)
    requires Distinct(s)
    ensures var r, m := Lookup(s, key, now), AsMap(s);
            && (r.hit.Some? <==> key in m && now <= m[key].expiresAt)
            && (r.hit.Some? ==> r.hit.value == m[key] && AsMap(r.order) == m)
            && (r.hit.None? ==> AsMap(r.order) == m - {key})
            && (key !in m ==> r.order == s)
  {
    hide AsMap, Without, Distinct;
    AsMapAt(s, key);
    AsMapWithout(s, key);
    if Resident(s, key) {
      AsMapCons(s[Find(s, key)], Without(s, key));
      PutBack(AsMap(s), key);
    } else {
      assert AsMap(s) - {key} == AsMap(s);
    }
  }

  lemma PutBack(m: map<string, Snapshot>, key: string)
    requires key in m
    ensures (m - {key})[key := m[key]] == m
  {
  }

  // ---------- limits ----------

  /** Holds in every reachable state, whatever the limits. Only an entry that is too
      large by itself can exceed the byte limit, and then it is alone. */
  ghost predicate WithinLimits(lim: Limits, s: seq<Slot>) {
    && (lim.maxEntries > 0 ==> |s| <= lim.maxEntries)
    && (lim.maxBytes > 0 ==> Bytes(s) <= lim.maxBytes || |s| == 1)
    && (lim.maxEntryBytes > 0 ==> forall i :: 0 <= i < |s| ==> |s[i].value.body| <= lim.maxEntryBytes)
  }

  lemma WithoutWithinLimits(lim: Limits, s: seq<Slot>, key: string)
    requires WithinLimits(lim, s)
    ensures WithinLimits(lim, Without(s, key))
    ensures Resident(s, key) ==> WithinLimits(lim, [s[Find(s, key)]] + Without(s, key))
  {
    BytesWithout(s, key);
    if Resident(s, key) {
      var t := Without(s, key);
      WithoutSlots(s, key);
      BytesCons(s[Find(s, key)], t);
      if |s| == 1 { assert t == []; }
    }
  }

  lemma StoreWithinLimits(lim: Limits, s: seq<Slot>, key: string, v: Snapshot)
    requires WithinLimits(lim, s) && Accepts(lim, v)
    ensures WithinLimits(lim, Store(lim, s, key, v))
  {
    hide Without, Find, Resident;
    WithoutWithinLimits(lim, s, key);
    var t := Without(s, key);
    EvictKeepsLongest(lim, t, |v.body|);
    BytesCons(Slot(key, v), Evict(lim, t, |v.body|));
  }

  lemma ApplyWithinLimits(lim: Limits, s: seq<Slot>, op: Op)
    requires WithinLimits(lim, s)
    ensures WithinLimits(lim, Apply(lim, s, op))
  {
    hide WithinLimits, Without;
    WithoutWithinLimits(lim, s, op.key);
    if op.PutOp? && Accepts(lim, op.value) {
      StoreWithinLimits(lim, s, op.key, op.value);
    }
  }

  lemma {:induction false} RunWithinLimits(lim: Limits, ops: seq<Op>)
    ensures WithinLimits(lim, Run(lim, [], ops))
  {
    if ops != [] {
      RunWithinLimits(lim, ops[..|ops| - 1]);
      ApplyWithinLimits(lim, Run(lim, [], ops[..|ops| - 1]), ops[|ops| - 1]);
    }
  }

  /** Every enabled configuration that validation accepts keeps both bounds in every
      reachable state, and every Put of an admissible entry makes it resident. */
  lemma ConfiguredBoundsHold(c: CacheConfig, ops: seq<Op>, key: string, v: Snapshot)
    requires c.enabled && ValidateCache(c).None?
    ensures var lim, s := LimitsOf(c), Run(LimitsOf(c), [], ops);
            && |s| <= c.maxEntries && Bytes(s) <= c.maxBytes
            && (|v.body| <= c.maxEntryBytes <==> Slot(key, v) in Store(lim, s, key, v))
  {
    var lim, s := LimitsOf(c), Run(LimitsOf(c), [], ops);
    RunWithinLimits(lim, ops);
    if |s| == 1 {
      assert s[1..] == [];
    }
    if Accepts(lim, v) {
      assert Store(lim, s, key, v)[0] == Slot(key, v);
    }
  }

  // ---------- int64 accounting ----------

  /** The sum Put first compares with the byte limit. */
  function FirstSum(s: seq<Slot>, key: string, v: Snapshot): nat {
    Bytes(Without(s, key)) + |v.body|
  }

  /** The largest value that sum can take in a validated configuration. */
  function PeakSum(c: CacheConfig): int {
    Min(c.maxBytes, c.maxEntries * c.maxEntryBytes) + c.maxEntryBytes
  }

  lemma {:induction false} BytesAtMost(s: seq<Slot>, e: nat)
    requires forall i :: 0 <= i < |s| ==> |s[i].value.body| <= e
    ensures Bytes(s) <= |s| * e
  {
    if s != [] { BytesAtMost(s[1..], e); }
  }

  lemma SumAtMostPeak(c: CacheConfig, ops: seq<Op>, key: string, v: Snapshot)
    requires c.enabled && ValidateCache(c).None? && Accepts(LimitsOf(c), v)
    ensures FirstSum(Run(LimitsOf(c), [], ops), key, v) <= PeakSum(c)
  {
    var s, e := Run(LimitsOf(c), [], ops), c.maxEntryBytes;
    assert |s| <= c.maxEntries && Bytes(s) <= c.maxBytes && Bytes(s) <= |s| * e by {
      RunWithinLimits(LimitsOf(c), ops);
      ConfiguredBoundsHold(c, ops, key, v);
      BytesAtMost(s, e);
    }
    assert Bytes(Without(s, key)) <= Bytes(s) by { BytesWithout(s, key); }
    MulMonotone(|s|, c.maxEntries, e);
  }

  lemma MulMonotone(a: int, b: int, e: int)
    requires a <= b && 0 <= e
    ensures a * e <= b * e
  {
  }

  function Filler(n: nat): Snapshot {
    Snapshot("GET", "", 200, map[], seq(n, i => 0 as byte), 0, 1, "", "")
  }

  function FillerKey(i: nat): string { seq(i + 1, j => 'k') }

  /** Any total that count entries can make up is the total of some reachable state. */
  lemma {:induction false} FillTo(c: CacheConfig, total: nat, count: nat) returns (ops: seq<Op>)
    requires c.enabled && ValidateCache(c).None?
    requires total <= c.maxBytes && count <= c.maxEntries && total <= count * c.maxEntryBytes
    ensures var s := Run(LimitsOf(c), [], ops);
            && |s| <= count && Bytes(s) == total
            && forall i :: 0 <= i < |s| ==> |s[i].key| <= count
  {
    if total == 0 {
      ops := [];
    } else {
      var before := Min(total, (count - 1) * c.maxEntryBytes);
      var size := total - before;
      assert size <= c.maxEntryBytes;
      var ops' := FillTo(c, before, count - 1);
      var op := PutOp(FillerKey(count - 1), Filler(size));
      ops := ops' + [op];
      assert ops[..|ops| - 1] == ops';
      var s := Run(LimitsOf(c), [], ops');
      assert !Resident(s, op.key);
      assert Evict(LimitsOf(c), s, size) == s;
      BytesCons(Slot(op.key, op.value), s);
    }
  }

  /**
   The running byte count, and every sum Put computes from it, stays within int64 in
   every run exactly when the peak does. MaxBytes == MaxEntryBytes == 2^62 with two
   entries allowed is already over.
   */
  lemma NoOverflowIff(c: CacheConfig)
    requires c.enabled && ValidateCache(c).None?
    ensures (forall ops: seq<Op>, key: string, v: Snapshot :: Accepts(LimitsOf(c), v) ==>
               FirstSum(Run(LimitsOf(c), [], ops), key, v) <= MAX_INT64)
            <==> PeakSum(c) <= MAX_INT64
  {
    if PeakSum(c) <= MAX_INT64 {
      forall ops: seq<Op>, key: string, v: Snapshot | Accepts(LimitsOf(c), v)
        ensures FirstSum(Run(LimitsOf(c), [], ops), key, v) <= MAX_INT64
      {
        SumAtMostPeak(c, ops, key, v);
      }
    } else {
      var total := Min(c.maxBytes, c.maxEntries * c.maxEntryBytes);
      assert total >= 0;
      var ops := FillTo(c, total, c.maxEntries);
      var key, v := FillerKey(c.maxEntries), Filler(c.maxEntryBytes);
      var s := Run(LimitsOf(c), [], ops);
      assert !Resident(s, key);
      assert Accepts(LimitsOf(c), v) && FirstSum(s, key, v) == PeakSum(c);
    }
  }

  // ---------- order of last use ----------

  /** The position of the last use of key, or -1. */
  function LastUse(uses: seq<string>, key: string): int {
    if uses == [] then -1
    else if uses[|uses| - 1] == key then |uses| - 1
    else LastUse(uses[..|uses| - 1], key)
  }

  ghost predicate ByLastUse(s: seq<Slot>, uses: seq<string>) {
    && (forall i :: 0 <= i < |s| ==> 0 <= LastUse(uses, s[i].key) < |uses|)
    && (forall i, j :: 0 <= i < j < |s| ==> LastUse(uses, s[i].key) > LastUse(uses, s[j].key))
  }

  lemma ByLastUseWithout(s: seq<Slot>, uses: seq<string>, key: string)
    requires ByLastUse(s, uses)
    ensures ByLastUse(Without(s, key), uses)
  {
    if Resident(s, key) { WithoutSlots(s, key); }
  }

  lemma ByLastUseFront(s: seq<Slot>, uses: seq<string>, x: Slot)
    requires ByLastUse(s, uses) && (forall i :: 0 <= i < |s| ==> s[i].key != x.key)
    ensures ByLastUse([x] + s, uses + [x.key])
  {
    assert (uses + [x.key])[..|uses|] == uses;
  }

  lemma ByLastUseApply(lim: Limits, s: seq<Slot>, uses: seq<string>, op: Op)
    requires ByLastUse(s, uses) && Distinct(s)
    ensures ByLastUse(Apply(lim, s, op), uses + if IsUse(lim, s, op) then [op.key] else [])
  {
    assert uses + [] == uses;
    var t := Without(s, op.key);
    ByLastUseWithout(s, uses, op.key);
    WithoutKeys(s, op.key);
    NotResidentAt(t, op.key);
    if IsUse(lim, s, op) {
      match op
      case GetOp(key, now) =>
        ByLastUseFront(t, uses, s[Find(s, key)]);
      case PutOp(key, v) =>
        EvictKeepsLongest(lim, t, |v.body|);
        ByLastUseFront(Evict(lim, t, |v.body|), uses, Slot(key, v));
    }
  }

  /** In every reachable state the recency order is exactly the order of last use,
      where a use is an accepted Put or a Get that hits. */
  lemma {:induction false} OrderIsOrderOfLastUse(lim: Limits, ops: seq<Op>)
    ensures ByLastUse(Run(lim, [], ops), Uses(lim, [], ops))
  {
    if ops != [] {
      var before := ops[..|ops| - 1];
      OrderIsOrderOfLastUse(lim, before);
      RunKeepsDistinct(lim, [], before);
      ByLastUseApply(lim, Run(lim, [], before), Uses(lim, [], before), ops[|ops| - 1]);
    }
  }

  // ---------- agreement with an unbounded map ----------

  /** The last accepted Put for each key. */
  function LastPut(lim: Limits, ops: seq<Op>): map<string, Snapshot> {
    if ops == [] then map[]
    else
      var before, op := LastPut(lim, ops[..|ops| - 1]), ops[|ops| - 1];
      if op.PutOp? && Accepts(lim, op.value) then before[op.key := op.value] else before
  }

  ghost predicate SubMap(m: map<string, Snapshot>, n: map<string, Snapshot>) {
    forall k :: k in m ==> k in n && m[k] == n[k]
  }

  lemma {:induction false} AsMapPrefix(s: seq<Slot>, n: nat)
    requires Distinct(s) && n <= |s|
    ensures SubMap(AsMap(s[..n]), AsMap(s))
  {
    if n < |s| {
      var t := s[..|s| - 1];
      assert s[..n] == t[..n];
      AsMapPrefix(t, n);
      forall k | k in AsMap(t) ensures k in AsMap(s) && AsMap(s)[k] == AsMap(t)[k] {
        AsMapAt(t, k);
        AsMapAt(s, k);
        assert s[Find(t, k)].key == k;
        assert Find(s, k) == Find(t, k);
      }
    } else {
      assert s[..n] == s;
    }
  }

  lemma AgreesApply(lim: Limits, s: seq<Slot>, m: map<string, Snapshot>, op: Op)
    requires Distinct(s) && SubMap(AsMap(s), m)
    ensures SubMap(AsMap(Apply(lim, s, op)),
                   if op.PutOp? && Accepts(lim, op.value) then m[op.key := op.value] else m)
  {
    var t := Without(s, op.key);
    AsMapWithout(s, op.key);
    match op
    case GetOp(key, now) =>
      AsMapAt(s, key);
      if Resident(s, key) { AsMapCons(s[Find(s, key)], t); }
    case PutOp(key, v) =>
      if Accepts(lim, v) {
        EvictKeepsLongest(lim, t, |v.body|);
        WithoutKeys(s, key);
        AsMapPrefix(t, |Evict(lim, t, |v.body|)|);
        AsMapCons(Slot(key, v), Evict(lim, t, |v.body|));
      }
  }

  lemma {:induction false} ResidentIsLastPut(lim: Limits, ops: seq<Op>)
    ensures SubMap(AsMap(Run(lim, [], ops)), LastPut(lim, ops))
  {
    if ops != [] {
      var before := ops[..|ops| - 1];
      ResidentIsLastPut(lim, before);
      RunKeepsDistinct(lim, [], before);
      AgreesApply(lim, Run(lim, [], before), LastPut(lim, before), ops[|ops| - 1]);
    }
  }

  /** A hit returns the last value accepted under its key, still fresh. */
  lemma HitIsLastPut(lim: Limits, ops: seq<Op>, key: string, now: int)
    ensures var r := Lookup(Run(lim, [], ops), key, now);
            r.hit.Some? ==>
              && key in LastPut(lim, ops) && r.hit.value == LastPut(lim, ops)[key]
              && now <= r.hit.value.expiresAt
  {
    ResidentIsLastPut(lim, ops);
    AsMapAt(Run(lim, [], ops), key);
  }
}
