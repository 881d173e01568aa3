/**
 The response cache as a value: a sequence of slots, most recently used first.
 Lookup and Store say what one call to Cache.Get and Cache.Put does to it; the
 classes in ResponseCache are proved against them.
 */
module Recency {
  import opened Basics
  import HttpHeader

  /** The fields of a stored response, as they are at one moment. Times are nanoseconds. */
  datatype Snapshot = Snapshot(
    verb: string, url: string, status: int, header: HttpHeader.Header, body: seq<byte>,
    storedAt: int, expiresAt: int, etag: string, lastModified: string)

  datatype Slot = Slot(key: string, value: Snapshot)

  /** A limit that is not positive is switched off, as in the source. */
  datatype Limits = Limits(maxEntries: int, maxBytes: int, maxEntryBytes: int)

  datatype LookupResult = LookupResult(hit: Option<Snapshot>, order: seq<Slot>)

  predicate Distinct(s: seq<Slot>) {
    forall i, j :: 0 <= i < j < |s| ==> s[i].key != s[j].key
  }

  function Keys(s: seq<Slot>): (ks: seq<string>)
    ensures |ks| == |s|
    ensures forall i :: 0 <= i < |s| ==> ks[i] == s[i].key
  {
    seq(|s|, i requires 0 <= i < |s| => s[i].key)
  }

  /** The position of key in s, or |s| when it is not resident. */
  function Find(s: seq<Slot>, key: string): (i: nat)
    ensures i <= |s|
    ensures i < |s| ==> s[i].key == key
    ensures forall j :: 0 <= j < i ==> s[j].key != key
  {
    if s == [] then 0 else if s[0].key == key then 0 else 1 + Find(s[1..], key)
  }

  predicate Resident(s: seq<Slot>, key: string) {
    Find(s, key) < |s|
  }

  function Without(s: seq<Slot>, key: string): seq<Slot> {
    var i := Find(s, key);
    if i < |s| then s[..i] + s[i + 1..] else s
  }

  /** Total size of the stored bodies. */
  function Bytes(s: seq<Slot>): nat {
    if s == [] then 0 else |s[0].value.body| + Bytes(s[1..])
  }

  predicate Accepts(lim: Limits, v: Snapshot) {
    !(lim.maxEntryBytes > 0 && |v.body| > lim.maxEntryBytes)
  }

  /** Room for one more entry of the given size next to count entries of total bytes. */
  predicate Fits(lim: Limits, count: nat, total: nat, size: nat) {
    && !(lim.maxEntries > 0 && count >= lim.maxEntries)
    && !(lim.maxBytes > 0 && total + size > lim.maxBytes)
  }

  /** The eviction loop: drop the oldest slot until the new one fits or nothing is left. */
  function Evict(lim: Limits, s: seq<Slot>, size: nat): seq<Slot> {
    if s == [] || Fits(lim, |s|, Bytes(s), size) then s
    else Evict(lim, s[..|s| - 1], size)
  }

  function Store(lim: Limits, s: seq<Slot>, key: string, v: Snapshot): seq<Slot> {
    if !Accepts(lim, v) then s
    else [Slot(key, v)] + Evict(lim, Without(s, key), |v.body|)
  }

  /** An entry is still fresh at exactly its expiry time. */
  function Lookup(s: seq<Slot>, key: string, now: int): LookupResult {
    var i := Find(s, key);
    if i == |s| then LookupResult(None, s)
    else if now > s[i].value.expiresAt then LookupResult(None, Without(s, key))
    else LookupResult(Some(s[i].value), [s[i]] + Without(s, key))
  }

  // ---------- runs ----------

  datatype Op = GetOp(key: string, now: int) | PutOp(key: string, value: Snapshot)

  function Apply(lim: Limits, s: seq<Slot>, op: Op): seq<Slot> {
    match op
    case GetOp(key, now) => Lookup(s, key, now).order
    case PutOp(key, v) => Store(lim, s, key, v)
  }

  function Run(lim: Limits, s: seq<Slot>, ops: seq<Op>): seq<Slot> {
    if ops == [] then s
    else Apply(lim, Run(lim, s, ops[..|ops| - 1]), ops[|ops| - 1])
  }

  /** Whether op is a use of its key: an accepted Put or a Get that hits. */
  predicate IsUse(lim: Limits, s: seq<Slot>, op: Op) {
    match op
    case GetOp(key, now) => Lookup(s, key, now).hit.Some?
    case PutOp(key, v) => Accepts(lim, v)
  }

  /** The keys used by a run, oldest use first. */
  function Uses(lim: Limits, s: seq<Slot>, ops: seq<Op>): seq<string> {
    if ops == [] then []
    else
      var before := ops[..|ops| - 1];
      var op := ops[|ops| - 1];
      Uses(lim, s, before) + (if IsUse(lim, Run(lim, s, before), op) then [op.key] else [])
  }

  // ---------- facts about the functions above ----------

  lemma RunStep(lim: Limits, s: seq<Slot>, ops: seq<Op>, op: Op)
    ensures Run(lim, s, ops + [op]) == Apply(lim, Run(lim, s, ops), op)
  {
    assert (ops + [op])[..|ops|] == ops;
  }

  lemma {:induction false} RunConcat(lim: Limits, s: seq<Slot>, a: seq<Op>, b: seq<Op>)
    ensures Run(lim, s, a + b) == Run(lim, Run(lim, s, a), b)
  {
    hide Apply;
    if b == [] {
      assert a + b == a;
    } else {
      var b', op := b[..|b| - 1], b[|b| - 1];
      RunConcat(lim, s, a, b');
      assert a + b == (a + b') + [op];
      RunStep(lim, s, a + b', op);
    }
  }

  lemma {:induction false} BytesConcat(a: seq<Slot>, b: seq<Slot>)
    ensures Bytes(a + b) == Bytes(a) + Bytes(b)
  {
    if a == [] {
      assert a + b == b;
    } else {
      BytesConcat(a[1..], b);
      assert (a + b)[1..] == a[1..] + b;
    }
  }

  lemma NotResidentAt(s: seq<Slot>, key: string)
    requires !Resident(s, key)
    ensures forall i :: 0 <= i < |s| ==> s[i].key != key
  {
  }

  lemma BytesCons(x: Slot, s: seq<Slot>)
    ensures Bytes([x] + s) == |x.value.body| + Bytes(s)
  {
    assert ([x] + s)[1..] == s;
  }

  lemma BytesWithout(s: seq<Slot>, key: string)
    ensures Bytes(Without(s, key)) ==
            Bytes(s) - (if Resident(s, key) then |s[Find(s, key)].value.body| else 0)
  {
    var i := Find(s, key);
    if i < |s| {
      var front, x, back := s[..i], s[i], s[i + 1..];
      assert s == front + ([x] + back);
      BytesConcat(front, [x] + back);
      BytesCons(x, back);
      BytesConcat(front, back);
    }
  }

  lemma BytesPrefix(s: seq<Slot>, n: nat)
    requires n <= |s|
    ensures Bytes(s[..n]) <= Bytes(s)
  {
    BytesConcat(s[..n], s[n..]);
    assert s == s[..n] + s[n..];
  }

  /** Where the slots of Without(s, key) come from, and that none but key's is lost. */
  lemma WithoutSlots(s: seq<Slot>, key: string)
    requires Resident(s, key)
    ensures |Without(s, key)| == |s| - 1
    ensures forall j :: 0 <= j < Find(s, key) ==> Without(s, key)[j] == s[j]
    ensures forall j :: Find(s, key) <= j < |s| - 1 ==> Without(s, key)[j] == s[j + 1]
  {
    hide Find;
    var i := Find(s, key);
    var r := s[..i] + s[i + 1..];
    assert Without(s, key) == r;
    assert forall j :: 0 <= j < i ==> r[j] == s[j];
    assert forall j :: i <= j < |s| - 1 ==> r[j] == s[j + 1];
  }

  lemma KeysWithout(s: seq<Slot>, key: string)
    ensures Keys(Without(s, key)) == Basics.Remove(Keys(s), key)
    ensures Find(s, key) == IndexOf(Keys(s), key)
  {
    var i, ks := Find(s, key), Keys(s);
    if i < |s| { assert ks[i] == key; }
    assert IndexOf(ks, key) == i;
    if i < |s| { WithoutSlots(s, key); }
  }

  lemma WithoutKeys(s: seq<Slot>, key: string)
    requires Distinct(s)
    ensures Distinct(Without(s, key)) && !Resident(Without(s, key), key)
  {
    if Resident(s, key) {
      WithoutSlots(s, key);
    }
  }

  lemma WithoutResident(s: seq<Slot>, key: string, k: string)
    requires k != key
    ensures Resident(Without(s, key), k) <==> Resident(s, k)
  {
    if Resident(s, key) {
      WithoutSlots(s, key);
      var i, r := Find(s, key), Without(s, key);
      if Resident(s, k) {
        var j := Find(s, k);
        assert r[if j < i then j else j - 1].key == k;
      }
    }
  }

  /** The slots as a map, the recency forgotten. */
  function AsMap(s: seq<Slot>): map<string, Snapshot> {
    if s == [] then map[] else AsMap(s[1..])[s[0].key := s[0].value]
  }

  lemma {:induction false} AsMapAt(s: seq<Slot>, key: string)
    ensures key in AsMap(s) <==> Resident(s, key)
    ensures key in AsMap(s) ==> AsMap(s)[key] == s[Find(s, key)].value
  {
    if s != [] { AsMapAt(s[1..], key); }
  }

  lemma {:induction false} AsMapSize(s: seq<Slot>)
    requires Distinct(s)
    ensures |AsMap(s)| == |s|
  {
    if s != [] {
      AsMapSize(s[1..]);
      AsMapAt(s[1..], s[0].key);
    }
  }

  lemma AsMapCons(x: Slot, s: seq<Slot>)
    ensures AsMap([x] + s) == AsMap(s)[x.key := x.value]
  {
    assert ([x] + s)[1..] == s;
  }

  lemma WithoutTail(s: seq<Slot>, key: string)
    requires s != [] && s[0].key != key
    ensures Without(s, key) == [s[0]] + Without(s[1..], key)
  {
    var i, t := Find(s[1..], key), s[1..];
    if i < |t| {
      assert [s[0]] + (t[..i] + t[i + 1..]) == s[..i + 1] + s[i + 2..];
    }
  }

  lemma {:induction false} AsMapWithout(s: seq<Slot>, key: string)
    requires Distinct(s)
    ensures AsMap(Without(s, key)) == AsMap(s) - {key}
  {
    if s != [] {
      if s[0].key == key {
        AsMapAt(s[1..], key);
        assert Without(s, key) == s[1..];
      } else {
        AsMapWithout(s[1..], key);
        WithoutTail(s, key);
        AsMapStep(s[0], s[1..], Without(s[1..], key), key);
        assert s == [s[0]] + s[1..];
      }
    }
  }

  lemma AsMapStep(x: Slot, t: seq<Slot>, r: seq<Slot>, key: string)
    requires x.key != key && AsMap(r) == AsMap(t) - {key}
    ensures AsMap([x] + r) == AsMap([x] + t) - {key}
  {
    AsMapCons(x, t);
    AsMapCons(x, r);
  }

  /** What every reachable order satisfies: no key twice, and none of them empty. */
  ghost predicate Sound(s: seq<Slot>) {
    Distinct(s) && forall i :: 0 <= i < |s| ==> s[i].key != ""
  }

  lemma SoundWithout(s: seq<Slot>, key: string)
    requires Sound(s)
    ensures Sound(Without(s, key)) && !Resident(Without(s, key), key)
  {
    WithoutKeys(s, key);
    if Resident(s, key) { WithoutSlots(s, key); }
  }

  lemma SoundCons(x: Slot, s: seq<Slot>)
    requires Sound(s) && !Resident(s, x.key) && x.key != ""
    ensures Sound([x] + s)
  {
  }

  lemma KeysCons(x: Slot, s: seq<Slot>)
    ensures Keys([x] + s) == [x.key] + Keys(s)
  {
  }

  lemma SoundLast(s: seq<Slot>)
    requires Sound(s) && s != []
    ensures Without(s, s[|s| - 1].key) == s[..|s| - 1]
    ensures Keys(s) == Keys(s[..|s| - 1]) + [s[|s| - 1].key]
    ensures s[|s| - 1].key != "" && Resident(s, s[|s| - 1].key)
  {
    assert Find(s, s[|s| - 1].key) == |s| - 1;
  }

  lemma KeysResident(s: seq<Slot>, key: string)
    ensures key in Keys(s) <==> Resident(s, key)
  {
    if Resident(s, key) { assert Keys(s)[Find(s, key)] == key; }
  }

  lemma SoundFront(s: seq<Slot>, key: string)
    requires Sound(s) && Resident(s, key)
    ensures var front := [s[Find(s, key)]] + Without(s, key);
            && Sound(front) && Bytes(front) == Bytes(s) && AsMap(front) == AsMap(s)
            && Keys(front) == [key] + Basics.Remove(Keys(s), key)
  {
    var x, rest := s[Find(s, key)], Without(s, key);
    assert AsMap([x] + rest) == AsMap(s) by {
      AsMapAt(s, key);
      AsMapWithout(s, key);
      AsMapCons(x, rest);
    }
    assert Sound([x] + rest) by {
      SoundWithout(s, key);
      SoundCons(x, rest);
    }
    BytesCons(x, rest);
    BytesWithout(s, key);
    KeysWithout(s, key);
    KeysCons(x, rest);
  }

  /** Evict returns a prefix. */
  lemma {:induction false} EvictPrefix(lim: Limits, s: seq<Slot>, size: nat)
    ensures |Evict(lim, s, size)| <= |s| && Evict(lim, s, size) == s[..|Evict(lim, s, size)|]
  {
    if !(s == [] || Fits(lim, |s|, Bytes(s), size)) {
      EvictPrefix(lim, s[..|s| - 1], size);
    }
  }

  /** Making room for key leaves it absent. */
  lemma WithoutKeysAbsent(lim: Limits, s: seq<Slot>, key: string, size: nat)
    requires Distinct(s)
    ensures !Resident(Evict(lim, Without(s, key), size), key)
  {
    WithoutKeys(s, key);
    EvictPrefix(lim, Without(s, key), size);
  }

  lemma ApplyKeepsDistinct(lim: Limits, s: seq<Slot>, op: Op)
    requires Distinct(s)
    ensures Distinct(Apply(lim, s, op))
  {
    WithoutKeys(s, op.key);
    if op.PutOp? {
      EvictPrefix(lim, Without(s, op.key), |op.value.body|);
    }
  }

  lemma {:induction false} RunKeepsDistinct(lim: Limits, s: seq<Slot>, ops: seq<Op>)
    requires Distinct(s)
    ensures Distinct(Run(lim, s, ops))
  {
    if ops != [] {
      RunKeepsDistinct(lim, s, ops[..|ops| - 1]);
      ApplyKeepsDistinct(lim, Run(lim, s, ops[..|ops| - 1]), ops[|ops| - 1]);
    }
  }
}
