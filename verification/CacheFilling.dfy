/** Eviction by the entry limit alone, and runs that fill the cache. */
module CacheFilling {
  import opened Basics
  import opened Recency
  import opened CacheTheorems

  lemma FindAt(s: seq<Slot>, i: nat)
    requires Distinct(s) && i < |s|
    ensures Find(s, s[i].key) == i
  {
  }

  /** How many of count slots the entry limit alone leaves room for. */
  function Cut(lim: Limits, count: nat): (n: nat)
    ensures n <= count
  {
    if lim.maxEntries > 0 then Min(count, lim.maxEntries - 1) else count
  }

  /** If the slots the entry limit leaves fit the byte limit too, evicting keeps just them. */
  lemma {:induction false} EvictCuts(lim: Limits, s: seq<Slot>, size: nat)
    requires lim.maxBytes <= 0 || Bytes(s[..Cut(lim, |s|)]) + size <= lim.maxBytes
    ensures Evict(lim, s, size) == s[..Cut(lim, |s|)]
  {
    assert s[..|s|] == s;
    if !(s == [] || Fits(lim, |s|, Bytes(s), size)) {
      assert s[..|s| - 1][..Cut(lim, |s| - 1)] == s[..Cut(lim, |s|)];
      EvictCuts(lim, s[..|s| - 1], size);
    }
  }

  // ---------- runs that fill the cache ----------

  /** Puts that leave the slots s in this order. */
  function Puts(s: seq<Slot>): seq<Op> {
    if s == [] then [] else Puts(s[1..]) + [PutOp(s[0].key, s[0].value)]
  }

  /** Different keys, no body over e, none stale at time 0, and total bytes in all. */
  ghost predicate Batch(s: seq<Slot>, e: nat, total: nat) {
    && Distinct(s) && Bytes(s) == total
    && forall i :: 0 <= i < |s| ==> |s[i].value.body| <= e && s[i].value.expiresAt >= 0
  }

  /** How much of a batch of count slots the entry limit lets stay. */
  function Kept(lim: Limits, count: nat): (n: nat)
    ensures n <= count
  {
    if lim.maxEntries > 0 then Min(count, lim.maxEntries) else count
  }

  lemma {:induction false} PutsLeave(lim: Limits, s: seq<Slot>, e: nat, total: nat)
    requires Batch(s, e, total) && (lim.maxEntryBytes > 0 ==> e <= lim.maxEntryBytes) && total <= lim.maxBytes
    ensures Run(lim, [], Puts(s)) == s[..Kept(lim, |s|)]
  {
    hide Store, Bytes, Kept, Distinct;
    if s != [] {
      var x, t := s[0], s[1..];
      BatchTail(s, e, total);
      PutsLeave(lim, t, e, Bytes(t));
      RunStep(lim, [], Puts(t), PutOp(x.key, x.value));
      PutLeaves(lim, s);
    }
  }

  lemma BatchTail(s: seq<Slot>, e: nat, total: nat)
    requires Batch(s, e, total) && s != []
    ensures Batch(s[1..], e, Bytes(s[1..])) && Bytes(s[1..]) + |s[0].value.body| == total
    ensures |s[0].value.body| <= e
  {
  }

  lemma PutLeaves(lim: Limits, s: seq<Slot>)
    requires s != [] && Distinct(s) && Accepts(lim, s[0].value) && Bytes(s) <= lim.maxBytes
    ensures var x, t := s[0], s[1..];
            Store(lim, t[..Kept(lim, |t|)], x.key, x.value) == s[..Kept(lim, |s|)]
  {
    var x, t := s[0], s[1..];
    var kept := Kept(lim, |t|);
    var left := t[..kept];
    HeadKeyAbsent(s, kept);
    assert Bytes(s) == |x.value.body| + Bytes(t);
    hide Distinct, Without, Bytes, Evict, Fits;
    var n := Cut(lim, kept);
    assert left[..n] == t[..n];
    BytesPrefix(t, n);
    EvictCuts(lim, left, |x.value.body|);
    assert [x] + t[..n] == s[..n + 1];
  }

  lemma HeadKeyAbsent(s: seq<Slot>, n: nat)
    requires Distinct(s) && n < |s|
    ensures Without(s[1..][..n], s[0].key) == s[1..][..n]
  {
  }

  /** count slots of at most e bytes, as full as total allows. */
  function Fill(count: nat, total: nat, e: nat): seq<Slot> {
    if count == 0 then []
    else [Slot(FillerKey(count - 1), Filler(Min(total, e)))] + Fill(count - 1, total - Min(total, e), e)
  }

  lemma {:induction false} FillIsBatch(count: nat, total: nat, e: nat)
    requires total <= count * e
    ensures var s := Fill(count, total, e);
            && Batch(s, e, total) && |s| == count
            && (forall i :: 0 <= i < |s| ==> |s[i].key| == count - i)
            && (count > 0 ==> |s[0].value.body| == Min(total, e))
  {
    if count > 0 {
      var size := Min(total, e);
      assert count * e == (count - 1) * e + e;
      FillIsBatch(count - 1, total - size, e);
      BytesCons(Slot(FillerKey(count - 1), Filler(size)), Fill(count - 1, total - size, e));
    }
  }
}
