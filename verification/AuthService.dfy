/** The objects behind API-key validation: the repository, the LRU+TTL cache and the service
    (src/internal/storage/memory/apikey.go, src/internal/core/service/auth.go), proved against AuthModel. */
module AuthService {
  import opened Lru
  import opened M = AuthModel
  import D = Domain

  class APIKeyStore {
    var keys: Keys

    /** Every key is stored under its own id. */
    ghost predicate Valid()
      reads this
    {
      forall k <- keys :: keys[k].keyId == k
    }

    constructor ()
      ensures Valid() && keys == map[]
    {
      keys := map[];
    }

    method Get(keyId: string) returns (key: D.Option<APIKey>)
      ensures key == if keyId in keys then D.Some(keys[keyId]) else D.None
    {
      if keyId !in keys { return D.None; }
      return D.Some(keys[keyId]);
    }

    method Create(key: APIKey) returns (ok: bool)
      requires Valid()
      modifies this
      ensures Valid() && ok == (key.keyId !in old(keys))
      ensures keys == if ok then old(keys)[key.keyId := key] else old(keys)
    {
      if key.keyId in keys { return false; }
      keys := keys[key.keyId := key];
      return true;
    }

    method Update(key: APIKey) returns (ok: bool)
      requires Valid()
      modifies this
      ensures Valid() && ok == (key.keyId in old(keys))
      ensures keys == if ok then old(keys)[key.keyId := key] else old(keys)
    {
      if key.keyId !in keys { return false; }
      keys := keys[key.keyId := key];
      return true;
    }
  }

  class APIKeyCache {
    var items: map<string, Slot<Cached>>
    var order: Cache
    const capacity: int
    const ttl: int

    ghost predicate Valid()
      reads this
    {
      Distinct(order) && Agrees(items, order) && capacity >= 1
    }

    constructor (capacity: int, ttl: int)
      ensures Valid() && order == [] && this.ttl == ttl
      ensures this.capacity == if capacity <= 0 then 10000 else capacity
    {
      items, order, this.ttl := map[], [], ttl;
      this.capacity := if capacity <= 0 then 10000 else capacity;
    }

    method Get(keyId: string, now: int) returns (key: D.Option<APIKey>)
      requires Valid()
      modifies this
      ensures Valid() && (order, key) == CacheGet(old(order), keyId, now)
      ensures key.Some? ==> keyId in items && order != [] && items[keyId] == order[0] && order[0].value.key == key.value
    {
      hide Distinct, Agrees, Has, Find, Without;
      LookupIsTheElement(items, order, keyId);
      if keyId !in items { return D.None; }
      var entry := items[keyId];
      if now > entry.value.expiresAt {
        WithoutAgrees(items, order, keyId);
        order, items := Without(order, keyId), items - {keyId};
        return D.None;
      }
      MoveToFrontAgrees(items, order, keyId);
      order := [entry] + Without(order, keyId);
      return D.Some(entry.value.key);
    }

    /** The caller of a hit touches the cached key itself. */
    method TouchHit(keyId: string, now: int)
      requires Valid() && keyId in items && order != [] && items[keyId] == order[0]
      modifies this
      ensures Valid() && order == TouchFront(old(order), now)
    {
      hide Distinct, Agrees;
      FrontKey(items, order, keyId);
      var entry := items[keyId];
      entry := entry.(value := entry.value.(key := Touch(entry.value.key, now)));
      ReplaceFrontAgrees(items, order, entry);
      order, items := [entry] + order[1..], items[keyId := entry];
    }

    method Set(env: Env, keyId: string, key: APIKey, now: int)
      requires Valid() && env.capacity == capacity && env.ttl == ttl
      modifies this
      ensures Valid() && order == CacheSet(env, old(order), keyId, key, now)
    {
      hide Distinct, Agrees, Has, Find, Without;
      LookupIsTheElement(items, order, keyId);
      var entry := Slot(keyId, Cached(key, now + ttl));
      if keyId in items {
        WithoutAgrees(items, order, keyId);
        PushAgrees(items - {keyId}, Without(order, keyId), entry);
        assert (items - {keyId})[keyId := entry] == items[keyId := entry];
        order, items := [entry] + Without(order, keyId), items[keyId := entry];
        return;
      }
      while |order| >= capacity
        invariant Distinct(order) && Agrees(items, order) && keyId !in items && order <= old(order)
        invariant |order| == |old(order)| || |order| >= capacity - 1
      {
        var oldest := order[|order| - 1];
        DropLast(items, order);
        items := items - {oldest.key};
        order := order[..|order| - 1];
      }
      PushAgrees(items, order, entry);
      order, items := [entry] + order, items[keyId := entry];
    }

    method Delete(keyId: string)
      requires Valid()
      modifies this
      ensures Valid() && order == Without(old(order), keyId)
    {
      hide Distinct, Agrees, Has, Find, Without;
      LookupIsTheElement(items, order, keyId);
      if keyId in items {
        WithoutAgrees(items, order, keyId);
        order, items := Without(order, keyId), items - {keyId};
      } else {
        WithoutAbsent(order, keyId);
      }
    }
  }

  lemma FrontKey(items: map<string, Slot<Cached>>, order: Cache, keyId: string)
    requires Agrees(items, order) && keyId in items
    ensures items[keyId].key == keyId
  {
  }

  lemma TailAgrees(items: map<string, Slot<Cached>>, order: Cache)
    requires Distinct(order) && Agrees(items, order) && order != []
    ensures Distinct(order[1..]) && Agrees(items - {order[0].key}, order[1..])
  {
    hide Distinct;
    DistinctTail(order);
    assert order == [order[0]] + order[1..];
  }

  lemma ReplaceFrontAgrees(items: map<string, Slot<Cached>>, order: Cache, entry: Slot<Cached>)
    requires Distinct(order) && Agrees(items, order) && order != [] && order[0].key == entry.key
    ensures Distinct([entry] + order[1..]) && Agrees(items[entry.key := entry], [entry] + order[1..])
  {
    hide Distinct, Agrees;
    TailAgrees(items, order);
    PushAgrees(items - {entry.key}, order[1..], entry);
    assert (items - {entry.key})[entry.key := entry] == items[entry.key := entry];
  }

  class Service {
    const repo: APIKeyStore
    const cache: APIKeyCache
    const env: Env

    ghost predicate Valid()
      reads this, repo, cache
    {
      repo.Valid() && cache.Valid() && env.capacity == cache.capacity && env.ttl == cache.ttl
    }

    ghost function Value(): State
      reads this, repo, cache
    {
      State(repo.keys, cache.order)
    }

    constructor (repo: APIKeyStore, env: Env)
      requires repo.Valid()
      ensures Valid() && fresh(cache) && this.repo == repo && Value() == State(repo.keys, [])
      ensures this.env == env.(capacity := if env.capacity <= 0 then 10000 else env.capacity)
    {
      var store := new APIKeyCache(env.capacity, env.ttl);
      this.repo, this.cache := repo, store;
      this.env := env.(capacity := store.capacity);
    }

    /** checkIPAllowlist: the global and the key's own entries, one by one; no entries means no restriction. */
    method CheckIPAllowlist(clientIP: string, keyAllowlist: seq<string>) returns (ok: bool)
      ensures ok == IPAllowed(env, clientIP, keyAllowlist)
    {
      var allowlist := env.globalAllow + keyAllowlist;
      if |allowlist| == 0 { return true; }
      var ip := env.parseIP(clientIP);
      if ip == D.None { return false; }
      for i := 0 to |allowlist|
        invariant forall k | 0 <= k < i :: !EntryAllows(env, allowlist[k], ip.value)
      {
        var entry := allowlist[i];
        if '/' in entry {
          if env.inNetwork(entry, ip.value) {
            assert EntryAllows(env, entry, ip.value) && entry in allowlist;
            return true;
          }
        } else {
          if env.parseIP(entry) == ip {
            assert EntryAllows(env, entry, ip.value) && entry in allowlist;
            return true;
          }
        }
      }
      return false;
    }

    method ValidateAPIKey(keyId: string, secret: string, clientIP: string, now: int) returns (outcome: Outcome)
      requires Valid()
      modifies repo, cache
      ensures Valid() && (Value(), outcome) == Step(env, old(Value()), Timed(Validate(keyId, secret, clientIP), now))
    {
      hide IPAllowed, SecretFits, CacheGet, CacheSet, TouchFront, Distinct, Agrees;
      var hit := cache.Get(keyId, now);
      if hit.Some? && SecretFits(env, secret, hit.value, now) {
        var cached := hit.value;
        if !IsActive(cached, now) {
          if cached.status == DISABLED { return KeyDisabled; }
          if IsExpired(cached, now) { return KeyInvalid; }
        }
        var ok := CheckIPAllowlist(clientIP, cached.allowlist);
        if !ok { return IPNotAllowed; }
        cache.TouchHit(keyId, now);
        return M.Valid(Touch(cached, now));
      }
      var found := repo.Get(keyId);
      if found == D.None { return NotFound; }
      var key := found.value;
      if key.status != ACTIVE { return KeyDisabled; }
      if IsExpired(key, now) { return KeyInvalid; }
      var ok := CheckIPAllowlist(clientIP, key.allowlist);
      if !ok { return IPNotAllowed; }
      if !SecretFits(env, secret, key, now) { return KeyInvalid; }
      key := Touch(key, now);
      var _ := repo.Update(key);
      cache.Set(env, keyId, key, now);
      return M.Valid(key);
    }

    method UpdateAPIKeyStatus(keyId: string, enabled: bool) returns (outcome: Outcome)
      requires Valid()
      modifies repo, cache
      ensures Valid()
      ensures forall now :: (Value(), outcome) == Step(env, old(Value()), Timed(SetStatus(keyId, enabled), now))
    {
      hide Distinct, Agrees, Without;
      var found := repo.Get(keyId);
      if found == D.None { return NotFound; }
      var key := found.value.(status := if enabled then ACTIVE else DISABLED);
      var _ := repo.Update(key);
      cache.Delete(keyId);
      return Done;
    }

    method InvalidateCache(keyId: string)
      requires Valid()
      modifies cache
      ensures Valid()
      ensures forall now :: (Value(), Done) == Step(env, old(Value()), Timed(M.InvalidateCache(keyId), now))
    {
      hide Distinct, Agrees, Without;
      cache.Delete(keyId);
    }

    /** RotateAPIKey, with the hash of the newly generated secret. */
    method RotateAPIKey(keyId: string, newHash: string, now: int) returns (outcome: Outcome)
      requires Valid()
      modifies repo, cache
      ensures Valid() && (Value(), outcome) == Step(env, old(Value()), Timed(Rotate(keyId, newHash), now))
    {
      hide Distinct, Agrees, Without;
      var found := repo.Get(keyId);
      if found == D.None { return NotFound; }
      var _ := repo.Update(Rotated(found.value, newHash, now));
      cache.Delete(keyId);
      return Done;
    }

    /** CreateAPIKey, with the generated id and the hash of the generated secret. */
    method CreateAPIKey(keyId: string, name: string, role: string, secretHash: string, description: string, now: int)
        returns (outcome: Outcome)
      requires Valid()
      modifies repo
      ensures Valid()
      ensures (Value(), outcome) ==
        Step(env, old(Value()), Timed(Create(keyId, name, role, secretHash, description), now))
    {
      hide Distinct, Agrees, Without;
      var ok := repo.Create(NewKey(keyId, name, role, secretHash, description, now));
      return if ok then Done else StorageError;
    }
  }
}
