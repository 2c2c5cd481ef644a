/** The nonce cache object and the check of the token service (src/internal/core/service/token.go), proved
    against NonceModel. The doubly linked list is the sequence `order`, most recent first; `items` maps each
    nonce to its list element. */
module NonceCache {
  import opened Lru
  import opened M = NonceModel

  class Cache {
    var items: map<string, NonceEntry>
    var order: Order
    const capacity: int
    const ttl: int

    /** The map and the list are one collection: each element is mapped from its own nonce, and nothing else is. */
    ghost predicate Valid()
      reads this
    {
      Distinct(order) && Agrees(items, order)
    }

    constructor (capacity: int, ttl: int)
      ensures Valid() && order == [] && this.capacity == capacity && this.ttl == ttl
    {
      items, order, this.capacity, this.ttl := map[], [], capacity, ttl;
    }

    method RemoveElement(nonce: string)
      requires Valid() && nonce in items
      modifies this
      ensures Valid() && nonce !in items && order == Without(old(order), nonce)
      ensures items.Keys == old(items).Keys - {nonce}
    {
      WithoutAgrees(items, order, nonce);
      order := Without(order, nonce);
      items := items - {nonce};
    }

    /** The first loop of cleanupExpiredLocked walks from the back and only collects. */
    method CollectExpired(now: int) returns (toRemove: seq<NonceEntry>)
      ensures forall e :: e in toRemove <==> e in order && !Fresh(e, now, ttl)
    {
      toRemove := [];
      var i := |order|;
      while i > 0
        invariant 0 <= i <= |order|
        invariant forall e :: e in toRemove <==> e in order[i..] && !Fresh(e, now, ttl)
      {
        i := i - 1;
        assert order[i..] == [order[i]] + order[i + 1..];
        if now - order[i].value >= ttl {
          toRemove := toRemove + [order[i]];
        }
      }
      assert order[0..] == order;
    }

    method CleanupExpired(now: int)
      requires Valid()
      modifies this
      ensures Valid() && order == Cleaned(old(order), now, ttl)
      ensures items.Keys <= old(items).Keys
    {
      hide Distinct, Agrees, Fresh, Cleaned, Without, WithoutAll;
      var toRemove := CollectExpired(now);
      WithoutNothing(order);
      for k := 0 to |toRemove|
        invariant Distinct(order) && Agrees(items, order) && items.Keys <= old(items).Keys
        invariant order == WithoutAll(old(order), NoncesOf(toRemove, k))
      {
        WithoutOneMore(old(order), NoncesOf(toRemove, k), toRemove[k].key);
        WithoutAgrees(items, order, toRemove[k].key);
        items := items - {toRemove[k].key};
        order := Without(order, toRemove[k].key);
      }
      ExpiredAreCollected(old(order), toRemove, now, ttl);
    }

    /** addLocked: a listed nonce moves to the front; otherwise expired entries go, then the oldest ones until there
        is room. EvictionEndsIff says why the capacity is at least one. */
    method AddLocked(nonce: string, now: int)
      requires Valid() && capacity >= 1
      modifies this
      ensures Valid()
      ensures order == if nonce in old(items) then [old(items)[nonce]] + Without(old(order), nonce)
                       else [Slot(nonce, now)] + Evicted(Cleaned(old(order), now, ttl), capacity)
    {
      hide Distinct, Agrees, Cleaned, Without;
      if nonce in items {
        MoveToFrontAgrees(items, order, nonce);
        order := [items[nonce]] + Without(order, nonce);
        return;
      }
      CleanupExpired(now);
      ghost var kept := order;
      while |order| >= capacity
        invariant Distinct(order) && Agrees(items, order) && nonce !in items && order <= kept
        invariant |order| == |kept| || |order| >= capacity - 1
      {
        var oldest := order[|order| - 1];
        DropLast(items, order);
        items := items - {oldest.key};
        order := order[..|order| - 1];
      }
      var entry := Slot(nonce, now);
      PushAgrees(items, order, entry);
      order := [entry] + order;
      items := items[nonce := entry];
    }

    /** AddIfAbsent, for a capacity of at least one: the eviction loop does not end otherwise. */
    method AddIfAbsent(nonce: string, now: int) returns (added: bool)
      requires Valid() && capacity >= 1
      modifies this
      ensures Valid() && (order, added) == M.AddIfAbsent(Config(capacity, ttl, 0), old(order), nonce, now)
    {
      hide Distinct, Agrees, Cleaned, Without, Has, Find;
      LookupIsTheElement(items, order, nonce);
      if nonce in items {
        var entry := items[nonce];
        if now - entry.value < ttl {
          MoveToFrontAgrees(items, order, nonce);
          order := [entry] + Without(order, nonce);
          return false;
        }
        RemoveElement(nonce);
      } else {
        WithoutAbsent(order, nonce);
      }
      AddLocked(nonce, now);
      return true;
    }
  }

  class TokenService {
    const cache: Cache
    const timestampWindow: int

    constructor (cache: Cache, timestampWindow: int)
      ensures this.cache == cache && this.timestampWindow == timestampWindow
    {
      this.cache, this.timestampWindow := cache, timestampWindow;
    }

    /** CheckNonce: length, then the timestamp window, then the cache; nothing but the cache changes. */
    method CheckNonce(nonce: string, timestamp: int, now: int) returns (verdict: Verdict)
      requires cache.Valid() && cache.capacity >= 1
      modifies cache
      ensures cache.Valid()
      ensures (cache.order, verdict) ==
        M.CheckNonce(Config(cache.capacity, cache.ttl, timestampWindow), old(cache.order),
                     Request(nonce, timestamp, now))
    {
      WindowDoesNotMatter(Config(cache.capacity, cache.ttl, 0), timestampWindow, cache.order, nonce, now);
      if nonce == "" { return InvalidNonce; }
      if |nonce| > MAX_NONCE_LENGTH { return InvalidNonce; }
      var diff := now - timestamp;
      if diff < 0 { diff := -diff; }
      if diff > timestampWindow { return TimestampSkew; }
      var added := cache.AddIfAbsent(nonce, now);
      return if added then Accepted else NonceReplay;
    }
  }

  // ---------------------------------------------------------------- the map and the list

  /** The list without a set of nonces. */
  function WithoutAll(order: Order, names: set<string>): Order {
    if order == [] then []
    else if order[0].key in names then WithoutAll(order[1..], names)
    else [order[0]] + WithoutAll(order[1..], names)
  }

  function NoncesOf(entries: seq<NonceEntry>, k: nat): set<string>
    requires k <= |entries|
  {
    if k == 0 then {} else NoncesOf(entries, k - 1) + {entries[k - 1].key}
  }

  lemma {:induction false} NoncesOfMembers(entries: seq<NonceEntry>, k: nat)
    requires k <= |entries|
    ensures forall n :: n in NoncesOf(entries, k) <==> exists i :: 0 <= i < k && entries[i].key == n
  {
    if k > 0 {
      NoncesOfMembers(entries, k - 1);
    }
  }

  lemma ExpiredAreCollected(order: Order, expired: seq<NonceEntry>, now: int, ttl: int)
    requires Distinct(order) && forall e :: e in expired <==> e in order && !Fresh(e, now, ttl)
    ensures WithoutAll(order, NoncesOf(expired, |expired|)) == Cleaned(order, now, ttl)
  {
    var names := NoncesOf(expired, |expired|);
    NoncesOfMembers(expired, |expired|);
    forall e | e in order
      ensures e.key in names <==> !Fresh(e, now, ttl)
    {
      if e.key in names {
        var i :| 0 <= i < |expired| && expired[i].key == e.key;
        assert expired[i] in order;
      }
    }
    ExpiredAreNamed(order, names, now, ttl);
  }

  lemma {:induction false} WithoutNothing(order: Order)
    ensures WithoutAll(order, {}) == order
  {
    if order != [] {
      WithoutNothing(order[1..]);
    }
  }

  lemma {:induction false} WithoutOneMore(order: Order, names: set<string>, nonce: string)
    ensures Without(WithoutAll(order, names), nonce) == WithoutAll(order, names + {nonce})
  {
    if order != [] {
      WithoutOneMore(order[1..], names, nonce);
    }
  }

  /** Removing exactly the nonces of the expired entries is the scan's result. */
  lemma {:induction false} ExpiredAreNamed(order: Order, names: set<string>, now: int, ttl: int)
    requires forall e <- order :: e.key in names <==> !Fresh(e, now, ttl)
    ensures WithoutAll(order, names) == Cleaned(order, now, ttl)
  {
    if order != [] {
      ExpiredAreNamed(order[1..], names, now, ttl);
    }
  }

  lemma WindowDoesNotMatter(cfg: Config, window: int, order: Order, nonce: string, now: int)
    requires cfg.capacity >= 1
    ensures M.AddIfAbsent(cfg, order, nonce, now) == M.AddIfAbsent(cfg.(window := window), order, nonce, now)
  {
  }
}
