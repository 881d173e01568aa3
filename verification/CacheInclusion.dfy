/** When a cache with a larger entry limit holds all that a smaller one does. */
module CacheInclusion {
  import opened Basics
  import opened Recency
  import opened CacheTheorems
  import opened CacheFilling

  // ---------- subsequences of slots ----------

  lemma {:induction false} SubsequenceResident(a: seq<Slot>, b: seq<Slot>, key: string)
    requires Subsequence(a, b) && Distinct(b) && Resident(a, key)
    ensures Resident(b, key) && a[Find(a, key)] == b[Find(b, key)]
  {
    var x := a[Find(a, key)];
    SubsequenceMember(a, b, x);
    var j :| 0 <= j < |b| && b[j] == x;
    FindAt(b, j);
  }

  lemma SubsequenceSkip(a: seq<Slot>, b: seq<Slot>, x: Slot)
    requires Subsequence(a, b) && !Resident(a, x.key)
    ensures Subsequence(a, [x] + b)
  {
    assert ([x] + b)[1..] == b;
    if a != [] { NotResidentAt(a, x.key); }
  }

  lemma SubsequenceCons(a: seq<Slot>, b: seq<Slot>, x: Slot)
    requires Subsequence(a, b)
    ensures Subsequence([x] + a, [x] + b)
  {
    assert ([x] + b)[1..] == b && ([x] + a)[1..] == a;
  }

  lemma {:induction false} SubsequenceOfOne(x: Slot, b: seq<Slot>)
    requires x in b
    ensures Subsequence([x], b)
  {
    if b[0] == x {
      assert [x][1..] == [];
    } else {
      SubsequenceOfOne(x, b[1..]);
    }
  }

  lemma {:induction false} SubsequenceWithout(a: seq<Slot>, b: seq<Slot>, key: string)
    requires Subsequence(a, b) && Distinct(a) && Distinct(b)
    ensures Subsequence(Without(a, key), Without(b, key))
    decreases |b|
  {
    if b == [] || a == [] {
      if a != [] { assert false; }
    } else if a[0] == b[0] {
      if a[0].key == key {
        assert Without(a, key) == a[1..] && Without(b, key) == b[1..];
      } else {
        SubsequenceWithout(a[1..], b[1..], key);
        WithoutTail(a, key);
        WithoutTail(b, key);
        SubsequenceCons(Without(a[1..], key), Without(b[1..], key), a[0]);
      }
    } else {
      SubsequenceWithout(a, b[1..], key);
      if b[0].key == key {
        assert Without(b, key) == b[1..];
        KeyElsewhere(a, b, key);
      } else {
        WithoutTail(b, key);
        HeadAbsent(a, b);
        WithoutResident(a, key, b[0].key);
        SubsequenceSkip(Without(a, key), Without(b[1..], key), b[0]);
      }
    }
  }

  /** b's head is not in a when a is a subsequence of b's tail. */
  lemma HeadAbsent(a: seq<Slot>, b: seq<Slot>)
    requires b != [] && Subsequence(a, b[1..]) && Distinct(b)
    ensures !Resident(a, b[0].key)
  {
    if Resident(a, b[0].key) {
      SubsequenceMember(a, b[1..], a[Find(a, b[0].key)]);
    }
  }

  lemma KeyElsewhere(a: seq<Slot>, b: seq<Slot>, key: string)
    requires b != [] && b[0].key == key && Subsequence(a, b[1..]) && Distinct(b)
    ensures Without(a, key) == a
  {
    HeadAbsent(a, b);
  }

  /** Cutting at least as much from the subsequence as from the sequence. */
  lemma {:induction false} SubsequenceCut(a: seq<Slot>, b: seq<Slot>, m: nat, n: nat)
    requires Subsequence(a, b) && m <= |a| && n <= |b| && |a| - m >= |b| - n
    ensures Subsequence(a[..m], b[..n])
    decreases |a|
  {
    if m == |a| {
      assert a[..m] == a && b[..n] == b;
    } else if n < |b| {
      SubsequenceShortenBoth(a, b);
      SubsequenceCut(a[..|a| - 1], b[..|b| - 1], m, n);
      assert a[..|a| - 1][..m] == a[..m] && b[..|b| - 1][..n] == b[..n];
    } else {
      SubsequenceShortenLeft(a, b);
      SubsequenceCut(a[..|a| - 1], b, m, n);
      assert a[..|a| - 1][..m] == a[..m];
    }
  }

  // ---------- inclusion, when the byte limit does not bind ----------

  /** The byte limit is off, or as many entries as are allowed fit it at their largest. */
  predicate Roomy(lim: Limits) {
    || lim.maxBytes <= 0
    || (0 < lim.maxEntries && 0 < lim.maxEntryBytes && lim.maxEntries * lim.maxEntryBytes <= lim.maxBytes)
  }

  lemma RoomyEvictCuts(lim: Limits, s: seq<Slot>, size: nat)
    requires Roomy(lim)
    requires lim.maxEntryBytes > 0 ==>
               size <= lim.maxEntryBytes && forall i :: 0 <= i < |s| ==> |s[i].value.body| <= lim.maxEntryBytes
    ensures Evict(lim, s, size) == s[..Cut(lim, |s|)]
  {
    var n, e := Cut(lim, |s|), lim.maxEntryBytes;
    if lim.maxBytes > 0 {
      BytesAtMost(s[..n], e);
      MulMonotone(n + 1, lim.maxEntries, e);
      assert (n + 1) * e == n * e + e;
    }
    EvictCuts(lim, s, size);
  }

  /** Limits of which large admits at least the entries of small, and neither is ever
      short of bytes. */
  predicate Comparable(small: Limits, large: Limits) {
    && small.maxEntryBytes == large.maxEntryBytes
    && Roomy(small) && Roomy(large)
    && (large.maxEntries <= 0 || 0 < small.maxEntries <= large.maxEntries)
  }

  ghost predicate Included(small: Limits, large: Limits, a: seq<Slot>, b: seq<Slot>) {
    && Distinct(a) && Distinct(b)
    && Subsequence(a, b)
    && (large.maxEntries > 0 ==>
          |a| <= small.maxEntries && |b| <= large.maxEntries &&
          |b| - |a| <= large.maxEntries - small.maxEntries)
  }

  lemma IncludedGet(small: Limits, large: Limits, a: seq<Slot>, b: seq<Slot>, key: string, now: int)
    requires Included(small, large, a, b)
    ensures Included(small, large, Lookup(a, key, now).order, Lookup(b, key, now).order)
  {
    var a', b' := Without(a, key), Without(b, key);
    ApplyKeepsDistinct(small, a, GetOp(key, now));
    ApplyKeepsDistinct(large, b, GetOp(key, now));
    SubsequenceWithout(a, b, key);
    WithoutKeys(a, key);
    if Resident(a, key) {
      SubsequenceResident(a, b, key);
      SubsequenceCons(a', b', b[Find(b, key)]);
    } else if Resident(b, key) {
      SubsequenceSkip(a, b', b[Find(b, key)]);
    }
  }

  lemma RoomyStore(lim: Limits, s: seq<Slot>, key: string, v: Snapshot)
    requires Roomy(lim) && WithinLimits(lim, s) && Accepts(lim, v)
    ensures var t := Without(s, key);
            Store(lim, s, key, v) == [Slot(key, v)] + t[..Cut(lim, |t|)]
  {
    WithoutWithinLimits(lim, s, key);
    RoomyEvictCuts(lim, Without(s, key), |v.body|);
  }

  lemma IncludedPut(small: Limits, large: Limits, a: seq<Slot>, b: seq<Slot>, key: string, v: Snapshot)
    requires Comparable(small, large) && Included(small, large, a, b)
    requires WithinLimits(small, a) && WithinLimits(large, b)
    ensures Included(small, large, Store(small, a, key, v), Store(large, b, key, v))
  {
    hide Roomy, WithinLimits, Evict, Bytes;
    if Accepts(small, v) {
      var a', b' := Without(a, key), Without(b, key);
      ApplyKeepsDistinct(small, a, PutOp(key, v));
      ApplyKeepsDistinct(large, b, PutOp(key, v));
      SubsequenceWithout(a, b, key);
      if Resident(a, key) { SubsequenceResident(a, b, key); }
      RoomyStore(small, a, key, v);
      RoomyStore(large, b, key, v);
      var m, n := Cut(small, |a'|), Cut(large, |b'|);
      SubsequenceCut(a', b', m, n);
      SubsequenceCons(a'[..m], b'[..n], Slot(key, v));
    }
  }

  /**
   Running the same operations on two caches that differ in the entry limit and are never
   short of bytes keeps the smaller one's order a subsequence of the larger one's, with
   equal entries.
   */
  lemma {:induction false} LargerCacheIncludesSmaller(small: Limits, large: Limits, ops: seq<Op>)
    requires Comparable(small, large)
    ensures Included(small, large, Run(small, [], ops), Run(large, [], ops))
  {
    hide Included, Comparable, WithinLimits;
    if ops == [] {
      NothingIncluded(small, large);
    } else {
      var before := ops[..|ops| - 1];
      LargerCacheIncludesSmaller(small, large, before);
      RunWithinLimits(small, before);
      RunWithinLimits(large, before);
      match ops[|ops| - 1]
      case GetOp(key, now) => IncludedGet(small, large, Run(small, [], before), Run(large, [], before), key, now);
      case PutOp(key, v) => IncludedPut(small, large, Run(small, [], before), Run(large, [], before), key, v);
    }
  }

  lemma NothingIncluded(small: Limits, large: Limits)
    requires Comparable(small, large)
    ensures Included(small, large, [], [])
  {
  }

  // ---------- inclusion, when the smaller cache has one entry ----------

  /** a is at most one slot, and b has it too. */
  ghost predicate OneOf(a: seq<Slot>, b: seq<Slot>) {
    a == [] || (|a| == 1 && a[0] in b)
  }

  lemma OneOfGet(a: seq<Slot>, b: seq<Slot>, key: string, now: int)
    requires OneOf(a, b) && Distinct(b)
    ensures OneOf(Lookup(a, key, now).order, Lookup(b, key, now).order)
  {
    if a != [] {
      var j :| 0 <= j < |b| && b[j] == a[0];
      FindAt(b, j);
      if Resident(b, key) { WithoutSlots(b, key); }
      if a[0].key == key {
        assert Without(a, key) == [] && a == [a[0]] + [];
        assert Find(a, key) == 0;
      } else if Resident(b, key) {
        assert Without(b, key)[if j < Find(b, key) then j else j - 1] == a[0];
      }
    }
  }

  lemma {:induction false} OneEntryIncluded(small: Limits, large: Limits, ops: seq<Op>)
    requires small.maxEntries == 1 && small.maxEntryBytes == large.maxEntryBytes
    ensures OneOf(Run(small, [], ops), Run(large, [], ops))
  {
    if ops != [] {
      var before := ops[..|ops| - 1];
      var a, b := Run(small, [], before), Run(large, [], before);
      OneEntryIncluded(small, large, before);
      RunKeepsDistinct(large, [], before);
      match ops[|ops| - 1]
      case GetOp(key, now) => OneOfGet(a, b, key, now);
      case PutOp(key, v) => if Accepts(small, v) { StoresOne(small, large, a, b, key, v); }
    }
  }

  lemma StoresOne(small: Limits, large: Limits, a: seq<Slot>, b: seq<Slot>, key: string, v: Snapshot)
    requires small.maxEntries == 1 && Accepts(small, v) && Accepts(large, v)
    ensures OneOf(Store(small, a, key, v), Store(large, b, key, v))
  {
    EvictKeepsLongest(small, Without(a, key), |v.body|);
    assert Store(large, b, key, v)[0] == Slot(key, v);
  }

  // ---------- a run that breaks inclusion ----------

  /** Gets that bring the slots s to the front in this order. */
  function Gets(s: seq<Slot>): seq<Op> {
    if s == [] then [] else Gets(s[1..]) + [GetOp(s[0].key, 0)]
  }

  lemma {:induction false} GetsBringBack(lim: Limits, p: seq<Slot>, s: seq<Slot>)
    requires Distinct(p + s) && forall i :: 0 <= i < |s| ==> s[i].value.expiresAt >= 0
    ensures Run(lim, p + s, Gets(s)) == s + p
    decreases |s|
  {
    hide Lookup, Distinct;
    if s == [] {
      assert p + s == p && s + p == p;
    } else {
      var x, t := s[0], s[1..];
      assert p + s == (p + [x]) + t;
      GetsBringBack(lim, p + [x], t);
      RunStep(lim, p + s, Gets(t), GetOp(x.key, 0));
      assert t + (p + [x]) == (t + p) + [x];
      DistinctRotates(p, x, t);
      LastToFront(t + p, x);
      assert [x] + (t + p) == s + p;
    }
  }

  lemma DistinctRotates(p: seq<Slot>, x: Slot, t: seq<Slot>)
    requires Distinct((p + [x]) + t)
    ensures forall i :: 0 <= i < |t + p| ==> (t + p)[i].key != x.key
  {
    var all := (p + [x]) + t;
    assert all[|p|] == x;
    forall i | 0 <= i < |t + p| ensures (t + p)[i].key != x.key {
      if i < |t| { assert all[|p| + 1 + i] == t[i]; } else { assert all[i - |t|] == p[i - |t|]; }
    }
  }

  lemma LastToFront(s: seq<Slot>, x: Slot)
    requires (forall i :: 0 <= i < |s| ==> s[i].key != x.key) && x.value.expiresAt >= 0
    ensures Lookup(s + [x], x.key, 0).order == [x] + s
  {
    assert (s + [x])[|s|] == x;
    assert Find(s + [x], x.key) == |s|;
    assert Without(s + [x], x.key) == s;
  }

  lemma {:induction false} GetsMiss(lim: Limits, p: seq<Slot>, s: seq<Slot>)
    requires forall i :: 0 <= i < |s| ==> !Resident(p, s[i].key)
    ensures Run(lim, p, Gets(s)) == p
  {
    if s != [] {
      GetsMiss(lim, p, s[1..]);
      RunStep(lim, p, Gets(s[1..]), GetOp(s[0].key, 0));
    }
  }

  /** The size of the largest body that makes sense to store, where there is a byte limit. */
  function Largest(B: nat, e: int): nat {
    if 0 < e <= B then e else B
  }

  /**
   The slots in the larger cache before the last Put: count of them, the last empty, the
   others one byte over what an entry of size e leaves of B.
   */
  function Crowd(count: nat, B: nat, e: nat): seq<Slot>
    requires 0 < count && e <= B
  {
    Fill(count - 1, B - e + 1, e) + [Slot(FillerKey(count - 1), Filler(0))]
  }

  /** What the rest of the argument needs to know of it. */
  ghost predicate Crowded(u: seq<Slot>, B: nat, e: nat) {
    && 0 < e <= B && |u| > 1
    && Batch(u, e, B - e + 1)
    && (forall i :: 0 <= i < |u| ==> |u[i].key| <= |u|)
    && Bytes(u[..|u| - 1]) == B - e + 1 && |u[0].value.body| > 0
  }

  lemma CrowdIsCrowded(count: nat, B: nat, e: nat)
    requires 1 < count && 0 < e <= B < count * e
    ensures |Crowd(count, B, e)| == count && Crowded(Crowd(count, B, e), B, e)
  {
    assert count * e == (count - 1) * e + e;
    FillIsBatch(count - 1, B - e + 1, e);
    var w, z := Fill(count - 1, B - e + 1, e), Slot(FillerKey(count - 1), Filler(0));
    BytesConcat(w, [z]);
    assert (w + [z])[..count - 1] == w;
  }

  /** The run: the crowd arrives, its last n slots first in the order; then the others are
      asked for again; then an entry of size e comes. */
  function Breaker(n: nat, u: seq<Slot>, e: nat): seq<Op>
    requires n <= |u|
  {
    Puts(u[|u| - n..] + u[..|u| - n]) + Gets(u[..|u| - n]) + [PutOp(FillerKey(|u|), Filler(e))]
  }

  lemma BreakerRun(lim: Limits, n: nat, u: seq<Slot>, e: nat)
    requires n <= |u|
    ensures var y, k := u[|u| - n..], u[..|u| - n];
            Run(lim, [], Breaker(n, u, e)) ==
            Store(lim, Run(lim, Run(lim, [], Puts(y + k)), Gets(k)), FillerKey(|u|), Filler(e))
  {
    hide Run, Store, FillerKey, Filler;
    var y, k := u[|u| - n..], u[..|u| - n];
    RunConcat(lim, [], Puts(y + k), Gets(k));
    RunStep(lim, [], Puts(y + k) + Gets(k), PutOp(FillerKey(|u|), Filler(e)));
  }

  lemma RotatedIsBatch(y: seq<Slot>, k: seq<Slot>, e: nat, total: nat)
    requires Batch(k + y, e, total)
    ensures Batch(y + k, e, total) && forall i :: 0 <= i < |k| ==> !Resident(y, k[i].key)
  {
    BytesConcat(y, k);
    BytesConcat(k, y);
    hide Bytes;
    var u, r := k + y, y + k;
    forall i | 0 <= i < |r| ensures r[i] == u[if i < |y| then i + |k| else i - |y|] {}
    forall i | 0 <= i < |k| ensures !Resident(y, k[i].key) {
      forall j | 0 <= j < |y| ensures y[j].key != k[i].key {
        assert u[i] == k[i] && u[|k| + j] == y[j];
      }
    }
  }

  /** Before the last Put the smaller cache has the last n slots of the crowd, the larger all. */
  lemma BeforeTheLast(lim: Limits, n: nat, u: seq<Slot>, B: nat, e: nat)
    requires Crowded(u, B, e) && 1 < n < |u| && lim.maxBytes == B && (lim.maxEntryBytes > 0 ==> e <= lim.maxEntryBytes)
    ensures var y, k := u[|u| - n..], u[..|u| - n];
            var s := Run(lim, Run(lim, [], Puts(y + k)), Gets(k));
            && (lim.maxEntries == n ==> s == y)
            && (lim.maxEntries <= 0 || lim.maxEntries >= |u| ==> s == u)
  {
    hide Run, Distinct, Resident, Bytes;
    var y, k := u[|u| - n..], u[..|u| - n];
    assert u == k + y;
    RotatedIsBatch(y, k, e, B - e + 1);
    PutsLeave(lim, y + k, e, B - e + 1);
    if lim.maxEntries == n {
      assert (y + k)[..n] == y;
      GetsMiss(lim, y, k);
    } else if lim.maxEntries <= 0 || lim.maxEntries >= |u| {
      assert (y + k)[..|y + k|] == y + k;
      GetsBringBack(lim, y, k);
    }
  }

  lemma LastKeyNew(u: seq<Slot>, s: seq<Slot>)
    requires (forall i :: 0 <= i < |u| ==> |u[i].key| <= |u|) && forall x :: x in s ==> x in u
    ensures Without(s, FillerKey(|u|)) == s
  {
    forall i | 0 <= i < |s| ensures s[i].key != FillerKey(|u|) {
      assert s[i] in u;
    }
  }

  /** The smaller cache evicts one entry for the last Put: the empty one. */
  lemma SmallerKeeps(lim: Limits, n: nat, u: seq<Slot>, B: nat, e: nat)
    requires Crowded(u, B, e) && 1 < n < |u| && lim.maxBytes == B && (lim.maxEntryBytes > 0 ==> e <= lim.maxEntryBytes)
    requires lim.maxEntries == n
    ensures var s := Store(lim, u[|u| - n..], FillerKey(|u|), Filler(e));
            s == [Slot(FillerKey(|u|), Filler(e))] + u[|u| - n..|u| - 1]
  {
    hide Distinct, Store, Without, FillerKey;
    var k, y, c := u[..|u| - n], u[|u| - n..], Filler(e);
    LastKeyNew(u, y);
    assert u == k + y;
    BytesConcat(k, y);
    assert k[0] == u[0] && Bytes(k) > 0;
    BytesPrefix(y, n - 1);
    StoreEvictsMinimally(lim, y, FillerKey(|u|), c);
    var left := |Store(lim, y, FillerKey(|u|), c)| - 1;
    hide Bytes;
    assert Fits(lim, n - 1, Bytes(y[..n - 1]), e);
    assert !Fits(lim, n, Bytes(y[..n]), e);
    assert left == n - 1;
    assert y[..n - 1] == u[|u| - n..|u| - 1];
  }

  /** The larger one also evicts the entry before that. */
  lemma LargerLoses(lim: Limits, u: seq<Slot>, B: nat, e: nat)
    requires Crowded(u, B, e) && lim.maxBytes == B && (lim.maxEntryBytes > 0 ==> e <= lim.maxEntryBytes)
    ensures var s := Store(lim, u, FillerKey(|u|), Filler(e)); !Resident(s, u[|u| - 2].key)
  {
    hide Store, Without, Bytes;
    var c := Filler(e);
    LastKeyNew(u, u);
    StoreEvictsMinimally(lim, u, FillerKey(|u|), c);
    var left := |Store(lim, u, FillerKey(|u|), c)| - 1;
    assert !Fits(lim, |u| - 1, Bytes(u[..|u| - 1]), e);
    assert left <= |u| - 2;
    var s := Store(lim, u, FillerKey(|u|), c);
    assert s == [Slot(FillerKey(|u|), c)] + u[..left];
    forall i | 0 <= i < |s| ensures s[i].key != u[|u| - 2].key {
      if i > 0 { assert s[i] == u[i - 1]; }
    }
  }

  // ---------- exactly when ----------

  /** Two caches that differ only in the entry limit, of which the second may hold more. */
  predicate Grows(small: Limits, large: Limits) {
    && small.maxBytes == large.maxBytes && small.maxEntryBytes == large.maxEntryBytes
    && 0 < small.maxEntries && (large.maxEntries <= 0 || small.maxEntries <= large.maxEntries)
  }

  /** Nothing to compare, one entry, or a larger cache never short of bytes. */
  predicate Includes(small: Limits, large: Limits) {
    small == large || small.maxEntries == 1 || Roomy(large)
  }

  /**
   Otherwise some run leaves the smaller cache with a fresh entry that the larger one has
   evicted.
   */
  lemma ByteLimitBreaksInclusion(small: Limits, large: Limits) returns (ops: seq<Op>, key: string)
    requires Grows(small, large) && !Includes(small, large)
    ensures Lookup(Run(small, [], ops), key, 0).hit.Some?
    ensures Lookup(Run(large, [], ops), key, 0).hit.None?
  {
    hide Run, Store, Crowd, Crowded, Bytes;
    var n, B, e := small.maxEntries, small.maxBytes, Largest(small.maxBytes, small.maxEntryBytes);
    var count := if large.maxEntries > 0 then large.maxEntries else n + B + 1;
    MoreThanFits(small, large, count, e);
    CrowdIsCrowded(count, B, e);
    var u := Crowd(count, B, e);
    ops, key := Breaker(n, u, e), u[|u| - 2].key;
    BreakerRun(small, n, u, e);
    BreakerRun(large, n, u, e);
    BeforeTheLast(small, n, u, B, e);
    BeforeTheLast(large, n, u, B, e);
    SmallerKeeps(small, n, u, B, e);
    LargerLoses(large, u, B, e);
    SecondLastHits(n, u, B, e);
  }

  lemma MoreThanFits(small: Limits, large: Limits, count: nat, e: nat)
    requires Grows(small, large) && !Includes(small, large) && small.maxBytes > 0
    requires e == Largest(small.maxBytes, small.maxEntryBytes)
    requires count == if large.maxEntries > 0 then large.maxEntries else small.maxEntries + small.maxBytes + 1
    ensures small.maxEntries < count && 0 < e <= small.maxBytes < count * e
  {
    var B := small.maxBytes;
    if large.maxEntries > 0 {
      if !(0 < small.maxEntryBytes <= B) { MulMonotone(2, count, B); }
    } else {
      MulMonotone(1, e, count);
    }
  }

  lemma SecondLastHits(n: nat, u: seq<Slot>, B: nat, e: nat)
    requires Crowded(u, B, e) && 1 < n < |u|
    ensures Lookup([Slot(FillerKey(|u|), Filler(e))] + u[|u| - n..|u| - 1], u[|u| - 2].key, 0).hit.Some?
  {
    hide Bytes;
    var s := [Slot(FillerKey(|u|), Filler(e))] + u[|u| - n..|u| - 1];
    assert s[n - 1] == u[|u| - 2];
    forall i | 0 < i < |s| ensures s[i].value.expiresAt >= 0 {
      assert s[i] == u[|u| - n + i - 1];
    }
  }

  /**
   For every two caches that differ only in the entry limit: in every run the smaller
   one's order is a subsequence of the larger one's exactly when their limits are equal,
   the smaller holds one entry, or the larger is never short of bytes.
   */
  lemma InclusionIff(small: Limits, large: Limits)
    requires Grows(small, large)
    ensures (forall ops: seq<Op> :: Subsequence(Run(small, [], ops), Run(large, [], ops))) <==> Includes(small, large)
  {
    if Includes(small, large) {
      forall ops: seq<Op> ensures Subsequence(Run(small, [], ops), Run(large, [], ops)) {
        IncludedInRun(small, large, ops);
      }
    } else {
      var ops, key := ByteLimitBreaksInclusion(small, large);
      var a, b := Run(small, [], ops), Run(large, [], ops);
      hide Run, Subsequence;
      RunKeepsDistinct(large, [], ops);
      if Subsequence(a, b) { SubsequenceResident(a, b, key); }
      assert !Subsequence(a, b);
    }
  }

  lemma IncludedInRun(small: Limits, large: Limits, ops: seq<Op>)
    requires Grows(small, large) && Includes(small, large)
    ensures Subsequence(Run(small, [], ops), Run(large, [], ops))
  {
    var a, b := Run(small, [], ops), Run(large, [], ops);
    if small == large {
      SubsequenceItself(a);
    } else if small.maxEntries == 1 {
      OneEntryIncluded(small, large, ops);
      if a != [] {
        SubsequenceOfOne(a[0], b);
        assert a == [a[0]];
      }
    } else {
      if large.maxBytes > 0 { MulMonotone(small.maxEntries, large.maxEntries, small.maxEntryBytes); }
      LargerCacheIncludesSmaller(small, large, ops);
    }
  }

  lemma {:induction false} SubsequenceItself(a: seq<Slot>)
    ensures Subsequence(a, a)
  {
    if a != [] { SubsequenceItself(a[1..]); }
  }

  /** And under the same condition every hit of the smaller cache is the same hit in the
      larger one. */
  lemma HitsAreInheritedIff(small: Limits, large: Limits)
    requires Grows(small, large)
    ensures (forall ops: seq<Op>, key: string, now: int ::
               Lookup(Run(small, [], ops), key, now).hit.Some? ==>
               Lookup(Run(large, [], ops), key, now).hit == Lookup(Run(small, [], ops), key, now).hit)
            <==> Includes(small, large)
  {
    hide Run;
    if Includes(small, large) {
      forall ops: seq<Op>, key: string, now: int | Lookup(Run(small, [], ops), key, now).hit.Some?
        ensures Lookup(Run(large, [], ops), key, now).hit == Lookup(Run(small, [], ops), key, now).hit
      {
        IncludedInRun(small, large, ops);
        RunKeepsDistinct(large, [], ops);
        SubsequenceResident(Run(small, [], ops), Run(large, [], ops), key);
      }
    } else {
      var ops, key := ByteLimitBreaksInclusion(small, large);
    }
  }
}
