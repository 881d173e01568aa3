/**
 The bounded LRU response cache: a map of entries, the eviction list and a running
 byte count, all updated in place. Each method is proved against the functions in
 Recency on the ghost field order. The lock is not modelled: a call is one step.
 */
module ResponseCache {
  import opened Basics
  import opened Recency
  import opened Lru
  import HttpHeader

  class Entry {
    var verb: string
    var url: string
    var status: int
    var header: HttpHeader.Header
    var body: array<byte>
    var storedAt: int
    var expiresAt: int
    var etag: string
    var lastModified: string
    var bodySize: int

    constructor (s: Snapshot, body: array<byte>)
      ensures this.body == body && bodySize == 0
      ensures s.body == body[..] ==> Value() == s
    {
      verb, url, status, header := s.verb, s.url, s.status, s.header;
      this.body := body;
      storedAt, expiresAt, etag, lastModified := s.storedAt, s.expiresAt, s.etag, s.lastModified;
      bodySize := 0;
    }

    /** A copy of e whose body is an array of its own. */
    constructor Copy(e: Entry)
      ensures fresh(body) && Value() == e.Value() && bodySize == e.bodySize && body.Length == e.body.Length
    {
      verb, url, status, header := e.verb, e.url, e.status, e.header;
      body := new byte[e.body.Length](i requires 0 <= i < e.body.Length reads e, e.body => e.body[i]);
      storedAt, expiresAt, etag, lastModified := e.storedAt, e.expiresAt, e.etag, e.lastModified;
      bodySize := e.bodySize;
      new;
      assert body[..] == e.body[..];
    }

    ghost function Value(): Snapshot
      reads this, body
    {
      Snapshot(verb, url, status, header, body[..], storedAt, expiresAt, etag, lastModified)
    }
  }

  /** Every entry lives in store, and its recorded size is that of its body. */
  ghost predicate Backed(entries: map<string, Entry>, store: set<object>)
    reads store
  {
    forall k :: k in entries ==>
      entries[k] in store && entries[k].body in store && entries[k].bodySize == entries[k].body.Length
  }

  /** What the entry map holds, as values. */
  ghost function View(entries: map<string, Entry>, store: set<object>): map<string, Snapshot>
    requires Backed(entries, store)
    reads store
  {
    map k | k in entries :: entries[k].Value()
  }

  /** The entry map and the byte count agree with order. */
  ghost predicate Tally(entries: map<string, Entry>, total: int, order: seq<Slot>, store: set<object>)
    reads store
  {
    && Backed(entries, store)
    && View(entries, store) == AsMap(order)
    && Sound(order)
    && total == Bytes(order)
  }

  lemma TallyAt(entries: map<string, Entry>, total: int, order: seq<Slot>, store: set<object>, key: string)
    requires Tally(entries, total, order, store)
    ensures key in entries <==> Resident(order, key)
    ensures key in entries <==> key in Keys(order)
    ensures key in entries ==>
              && entries[key].Value() == order[Find(order, key)].value
              && entries[key] in store && entries[key].body in store
  {
    AsMapAt(order, key);
    KeysResident(order, key);
    assert key in entries <==> key in View(entries, store);
  }

  lemma TallySize(entries: map<string, Entry>, total: int, order: seq<Slot>, store: set<object>)
    requires Tally(entries, total, order, store)
    ensures |entries| == |order| && total == Bytes(order)
  {
    AsMapSize(order);
    assert entries.Keys == View(entries, store).Keys;
    assert |entries.Keys| == |entries| && |View(entries, store).Keys| == |View(entries, store)|;
  }

  lemma TallyWithout(entries: map<string, Entry>, total: int, order: seq<Slot>, store: set<object>, key: string)
    requires Tally(entries, total, order, store)
    ensures key in entries ==> Tally(entries - {key}, total - entries[key].bodySize, Without(order, key), store)
    ensures key !in entries ==> Without(order, key) == order
    ensures !Resident(Without(order, key), key)
    ensures Keys(Without(order, key)) == Basics.Remove(Keys(order), key)
  {
    TallyAt(entries, total, order, store, key);
    AsMapWithout(order, key);
    SoundWithout(order, key);
    BytesWithout(order, key);
    KeysWithout(order, key);
    assert View(entries - {key}, store) == View(entries, store) - {key};
  }

  lemma TallyFront(entries: map<string, Entry>, total: int, order: seq<Slot>, store: set<object>, key: string)
    requires Tally(entries, total, order, store) && key in entries
    ensures Resident(order, key)
    ensures var front := [order[Find(order, key)]] + Without(order, key);
            && Tally(entries, total, front, store)
            && Keys(front) == [key] + Basics.Remove(Keys(order), key)
  {
    TallyAt(entries, total, order, store, key);
    SoundFront(order, key);
  }

  lemma TallyLast(entries: map<string, Entry>, total: int, order: seq<Slot>, store: set<object>)
    requires Tally(entries, total, order, store) && order != []
    ensures var key, rest := order[|order| - 1].key, order[..|order| - 1];
            && key != "" && key in entries && entries[key] in store
            && Keys(order) == Keys(rest) + [key]
            && Tally(entries - {key}, total - entries[key].bodySize, rest, store)
  {
    var key := order[|order| - 1].key;
    SoundLast(order);
    TallyAt(entries, total, order, store, key);
    TallyWithout(entries, total, order, store, key);
  }

  lemma TallyAdded(entries: map<string, Entry>, total: int, order: seq<Slot>, store: set<object>, key: string, e: Entry)
    requires Tally(entries, total, order, store)
    requires key != "" && !Resident(order, key) && e.bodySize == e.body.Length
    ensures var x := Slot(key, e.Value());
            && Tally(entries[key := e], total + e.body.Length, [x] + order, store + {e, e.body})
            && Keys([x] + order) == [key] + Keys(order) && key !in Keys(order)
  {
    var x := Slot(key, e.Value());
    TallyAt(entries, total, order, store, key);
    AsMapCons(x, order);
    SoundCons(x, order);
    BytesCons(x, order);
    KeysCons(x, order);
    assert View(entries[key := e], store + {e, e.body}) == View(entries, store)[key := e.Value()];
  }

  /** Writing an entry's size into it disturbs no cache that holds it. */
  method RecordSize(entries: map<string, Entry>, ghost total: int, ghost order: seq<Slot>,
                    ghost store: set<object>, e: Entry)
    requires Tally(entries, total, order, store)
    modifies e`bodySize
    ensures e.bodySize == e.body.Length && e.Value() == old(e.Value()) && Tally(entries, total, order, store)
  {
    e.bodySize := e.body.Length;
    assert View(entries, store) == old(View(entries, store));
  }

  lemma SameFront(a: seq<string>, b: seq<string>, x: string)
    requires a + [x] == b + [x]
    ensures a == b
  {
    assert a == (a + [x])[..|a|] && b == (b + [x])[..|b|];
  }

  class Cache {
    var entries: map<string, Entry>
    const lru: LruList
    var totalBytes: int
    const lim: Limits
    ghost var order: seq<Slot>
    /** The stored entries and their bodies. */
    ghost var store: set<object>

    ghost predicate Valid()
      reads this, lru, lru.l, lru.Footprint(), store
    {
      && this !in lru.Footprint()
      && (forall o :: o in store ==> o != this && o !in lru.Footprint())
      && lru.Valid()
      && Keys(order) == lru.Order()
      && Tally(entries, totalBytes, order, store)
    }

    constructor (lim: Limits)
      ensures Valid() && fresh(lru.Footprint())
      ensures this.lim == lim && order == [] && store == {}
    {
      entries := map[];
      lru := new LruList();
      totalBytes := 0;
      this.lim := lim;
      order := [];
      store := {};
    }

    /** A hit returns the stored entry and makes it the most recent; a stale entry is
        dropped; nothing else changes, and no stored entry is written to. */
    method Get(key: string, now: int) returns (e: Entry?)
      requires Valid()
      modifies this, lru.Footprint()
      ensures Valid() && store == old(store) && lru.Footprint() <= old(lru.Footprint())
      ensures order == Lookup(old(order), key, now).order
      ensures e != null <==> Lookup(old(order), key, now).hit.Some?
      ensures e != null ==> e in store && e.body in store && e.Value() == Lookup(old(order), key, now).hit.value
    {
      hide Tally, LruList.Valid, Bytes, Keys;
      TallyAt(entries, totalBytes, order, store, key);
      if key !in entries {
        return null;
      }
      e := entries[key];
      if now > e.expiresAt {
        Drop(key);
        return null;
      }
      TallyFront(entries, totalBytes, order, store, key);
      lru.Touch(key);
      order := [order[Find(order, key)]] + Without(order, key);
    }

    method Drop(key: string)
      requires Valid()
      modifies this`entries, this`totalBytes, this`order, lru.Footprint()
      ensures Valid() && lru.Footprint() <= old(lru.Footprint())
      ensures order == Without(old(order), key)
    {
      hide Tally, LruList.Valid, LruList.Order, LruList.Footprint, Without, Bytes, Keys, Find, Resident;
      TallyWithout(entries, totalBytes, order, store, key);
      if key in entries {
        totalBytes := totalBytes - entries[key].bodySize;
        entries := entries - {key};
      }
      lru.Remove(key);
      order := Without(order, key);
    }

    lemma NotInFootprint(e: Entry)
      ensures e !in lru.Footprint() && e.body !in lru.Footprint()
    {
    }

    /** Takes out the entry under key, if there is one, before it is replaced. */
    method Replace(key: string)
      requires Valid()
      modifies this`entries, this`totalBytes, this`order, lru.Footprint()
      ensures Valid() && lru.Footprint() <= old(lru.Footprint())
      ensures order == Without(old(order), key) && !Resident(order, key)
    {
      hide Tally, LruList.Valid, LruList.Order, LruList.Footprint, Without, Bytes, Keys, Find, Resident;
      TallyWithout(entries, totalBytes, order, store, key);
      if key in entries {
        totalBytes := totalBytes - entries[key].bodySize;
        lru.Remove(key);
        entries := entries - {key};
        order := Without(order, key);
      }
    }

    /** Evicts the oldest entry; false when there is none, which no stored key hides. */
    method EvictOldest() returns (found: bool)
      requires Valid()
      modifies this`entries, this`totalBytes, this`order, lru.Footprint()
      ensures Valid() && lru.Footprint() <= old(lru.Footprint())
      ensures found <==> old(order) != []
      ensures order == if found then old(order)[..|old(order)| - 1] else old(order)
    {
      hide Tally, LruList.Valid, LruList.Order, LruList.Footprint;
      if order != [] {
        TallyLast(entries, totalBytes, order, store);
      }
      var oldest := lru.EvictOldest();
      if oldest == "" {
        return false;
      }
      if oldest in entries {
        totalBytes := totalBytes - entries[oldest].bodySize;
        entries := entries - {oldest};
      }
      order := order[..|order| - 1];
      SameFront(Keys(order), lru.Order(), oldest);
      return true;
    }

    /** The eviction loop. */
    method MakeRoom(size: nat)
      requires Valid()
      modifies this`entries, this`totalBytes, this`order, lru.Footprint()
      ensures Valid() && lru.Footprint() <= old(lru.Footprint())
      ensures order == Evict(lim, old(order), size)
    {
      hide Tally, LruList.Valid, LruList.Footprint, LruList.Order, Keys;
      while true
        invariant Valid() && lru.Footprint() <= old(lru.Footprint())
        invariant Evict(lim, order, size) == Evict(lim, old(order), size)
        decreases |order|
      {
        TallySize(entries, totalBytes, order, store);
        var tooMany := lim.maxEntries > 0 && |entries| >= lim.maxEntries;
        var tooBig := lim.maxBytes > 0 && totalBytes + size > lim.maxBytes;
        if !tooMany && !tooBig {
          break;
        }
        var found := EvictOldest();
        if !found {
          break;
        }
      }
    }

    /** Records e's size in e and returns a copy of e with a body of its own. */
    method Keep(e: Entry) returns (stored: Entry)
      requires Valid()
      modifies e`bodySize
      ensures Valid() && fresh(stored) && fresh(stored.body)
      ensures e.Value() == old(e.Value()) == stored.Value() && stored.bodySize == stored.body.Length
    {
      hide Tally, LruList.Valid, Keys;
      NotInFootprint(e);
      RecordSize(entries, totalBytes, order, store, e);
      stored := new Entry.Copy(e);
    }

    /** Files stored under key, at the front. */
    method Insert(key: string, stored: Entry)
      requires Valid() && key != "" && !Resident(order, key)
      requires stored !in store && stored.body !in store && stored.bodySize == stored.body.Length
      modifies this, lru.Footprint()
      ensures Valid()
      ensures store == old(store) + {stored, stored.body} && entries == old(entries)[key := stored]
      ensures forall o :: o in lru.Footprint() ==> o in old(lru.Footprint()) || fresh(o)
      ensures order == [Slot(key, old(stored.Value()))] + old(order)
    {
      hide Tally, LruList.Valid, LruList.Order, LruList.Footprint, Entry.Value, Bytes, Find, Resident, Keys;
      TallyAdded(entries, totalBytes, order, store, key, stored);
      NotInFootprint(stored);
      ghost var v := stored.Value();
      entries := entries[key := stored];
      lru.Add(key);
      totalBytes := totalBytes + stored.body.Length;
      order := [Slot(key, v)] + order;
      store := store + {stored, stored.body};
    }

    lemma PutFacts(key: string, e: Entry)
      requires Valid()
      ensures |e.Value().body| == e.body.Length && this !in lru.Footprint()
      ensures Accepts(lim, e.Value()) <==> !(lim.maxEntryBytes > 0 && e.body.Length > lim.maxEntryBytes)
      ensures Store(lim, order, key, e.Value()) ==
              if !Accepts(lim, e.Value()) then order
              else [Slot(key, e.Value())] + Evict(lim, Without(order, key), e.body.Length)
      ensures !Resident(Evict(lim, Without(order, key), e.body.Length), key)
    {
      hide LruList.Valid;
      WithoutKeysAbsent(lim, order, key, e.body.Length);
    }

    /** Stores a copy of e at the front, after evicting just enough of the oldest
        entries. An entry over the per-entry limit is ignored, and then the old entry
        under key stays. The body kept is a fresh array. */
    method Put(key: string, e: Entry)
      requires Valid() && key != ""
      modifies this, lru.Footprint(), e`bodySize
      ensures Valid()
      ensures forall o :: o in store ==> o in old(store) || fresh(o)
      ensures forall o :: o in lru.Footprint() ==> o in old(lru.Footprint()) || fresh(o)
      ensures order == Store(lim, old(order), key, old(e.Value()))
      ensures Accepts(lim, old(e.Value())) ==> key in entries && fresh(entries[key]) && fresh(entries[key].body)
      ensures e.Value() == old(e.Value())
    {
      NotInFootprint(e);
      PutFacts(key, e);
      hide *;
      var entryBytes := e.body.Length;
      if lim.maxEntryBytes > 0 && entryBytes > lim.maxEntryBytes {
        return;
      }
      Replace(key);
      MakeRoom(entryBytes);
      var stored := Keep(e);
      Insert(key, stored);
    }

    method Len() returns (n: int)
      requires Valid()
      ensures n == |order|
    {
      TallySize(entries, totalBytes, order, store);
      n := |entries|;
    }

    method TotalBytes() returns (n: int)
      requires Valid()
      ensures n == Bytes(order)
    {
      n := totalBytes;
    }
  }

  /** A write the caller makes to its own slice after Put does not reach the cache. */
  method PutThenWrite(c: Cache, key: string, e: Entry, i: nat, b: byte)
    requires c.Valid() && key != "" && e.body !in c.store && i < e.body.Length
    modifies c, c.lru.Footprint(), e`bodySize, e.body
    ensures c.Valid()
    ensures c.order == Store(c.lim, old(c.order), key, old(e.Value()))
    ensures e.body[..] == old(e.body[..])[i := b]
  {
    hide Tally, LruList.Valid, Store, Keys, Bytes;
    ghost var body := e.body[..];
    c.NotInFootprint(e);
    c.Put(key, e);
    assert e.body[..] == body by {
      assert e.Value().body == body;
    }
    c.NotInFootprint(e);
    e.body[i] := b;
  }
}
