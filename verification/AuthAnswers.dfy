/** What API-key validation answers, over every run of the cached service and told from the stored keys alone: when a
    request is valid, the cause of each refusal, and what the repository and the cache hold afterwards. */
module AuthAnswers {
  import opened Lru
  import opened AuthModel
  import D = Domain

  /** The global and the key's own entries together are empty, or the parsed address matches one of them. */
  predicate AddressMatches(env: Env, clientIP: string, own: seq<string>) {
    |env.globalAllow + own| == 0 ||
    exists i :: 0 <= i < |env.globalAllow + own| && env.parseIP(clientIP).Some? &&
      var entry, ip := (env.globalAllow + own)[i], env.parseIP(clientIP).value;
      if '/' in entry then env.inNetwork(entry, ip) else env.parseIP(entry) == D.Some(ip)
  }

  /** The secret fits the current hash, or the previous one before the end of a grace period. */
  predicate SecretMatches(env: Env, secret: string, k: APIKey, now: int) {
    env.verify(secret, k.secretHash) ||
    (k.oldSecretHash != "" && k.gracePeriodEnd != 0 && now < k.gracePeriodEnd && env.verify(secret, k.oldSecretHash))
  }

  /** The keys in the repository when request i comes. */
  function StoredAt(env: Env, keys: Keys, ts: seq<Timed>, i: nat): Keys
    requires env.capacity >= 1 && i <= |ts|
  {
    Run(env, keys, ts[..i]).keys
  }

  lemma AddressIs(env: Env, clientIP: string, own: seq<string>)
    ensures IPAllowed(env, clientIP, own) <==> AddressMatches(env, clientIP, own)
  {
    var list := env.globalAllow + own;
    if IPAllowed(env, clientIP, own) && list != [] {
      var entry :| entry in list && EntryAllows(env, entry, env.parseIP(clientIP).value);
      var i :| 0 <= i < |list| && list[i] == entry;
    }
    if AddressMatches(env, clientIP, own) && list != [] {
      var i :| 0 <= i < |list| && env.parseIP(clientIP).Some? &&
        (var entry, ip := list[i], env.parseIP(clientIP).value;
         if '/' in entry then env.inNetwork(entry, ip) else env.parseIP(entry) == D.Some(ip));
      assert EntryAllows(env, list[i], env.parseIP(clientIP).value) && list[i] in list;
    }
  }

  lemma UncachedAnswers(env: Env, keys: Keys, op: Op, now: int)
    requires op.Validate?
    ensures Uncached(env, keys, op, now).1 ==
            if op.keyId !in keys then NotFound else
            var k := keys[op.keyId];
            if k.status != "active" then KeyDisabled
            else if k.expiresAt != 0 && now > k.expiresAt then KeyInvalid
            else if !AddressMatches(env, op.clientIP, k.allowlist) then IPNotAllowed
            else if !SecretMatches(env, op.secret, k, now) then KeyInvalid
            else Valid(k.(lastUsed := now))
  {
    hide IPAllowed, AddressMatches;
    if op.keyId in keys {
      AddressIs(env, op.clientIP, keys[op.keyId].allowlist);
    }
  }

  lemma RunAnswers(env: Env, keys: Keys, ts: seq<Timed>, i: nat)
    requires env.capacity >= 1 && i < |ts| && ts[i].op.Validate?
    ensures OutcomeAt(env, keys, ts, i) == Uncached(env, StoredAt(env, keys, ts, i), ts[i].op, ts[i].now).1
  {
    hide OutcomeAt, Run, ReferenceRun, Uncached;
    CacheIsInvisible(env, keys, ts, i);
    RunsStayAlike(env, keys, ts[..i]);
    UncachedIsAlike(env, StoredAt(env, keys, ts, i), ReferenceRun(env, keys, ts[..i]), ts[i].op, ts[i].now);
  }

  /** In every run, cached or not, a validation is answered Valid if and only if the key is stored at that point, is
      active, is not past its expiry, the address is allowed and the secret fits; it then returns the stored key, last
      used now. */
  lemma ValidIff(env: Env, keys: Keys, ts: seq<Timed>, i: nat)
    requires env.capacity >= 1 && i < |ts| && ts[i].op.Validate?
    ensures var stored, id, now := StoredAt(env, keys, ts, i), ts[i].op.keyId, ts[i].now;
            && (OutcomeAt(env, keys, ts, i).Valid? <==>
                id in stored && stored[id].status == "active" &&
                (stored[id].expiresAt == 0 || now <= stored[id].expiresAt) &&
                AddressMatches(env, ts[i].op.clientIP, stored[id].allowlist) &&
                SecretMatches(env, ts[i].op.secret, stored[id], now))
            && (OutcomeAt(env, keys, ts, i).Valid? ==>
                OutcomeAt(env, keys, ts, i) == Valid(stored[id].(lastUsed := now)))
  {
    hide OutcomeAt, Uncached, StoredAt, AddressMatches, SecretMatches;
    RunAnswers(env, keys, ts, i);
    UncachedAnswers(env, StoredAt(env, keys, ts, i), ts[i].op, ts[i].now);
  }

  /** And each refusal has its cause: no such key; not active; past its expiry, or everything else in order but the
      secret; the address. */
  lemma RefusalIff(env: Env, keys: Keys, ts: seq<Timed>, i: nat)
    requires env.capacity >= 1 && i < |ts| && ts[i].op.Validate?
    ensures var stored, id, now := StoredAt(env, keys, ts, i), ts[i].op.keyId, ts[i].now;
            var r := OutcomeAt(env, keys, ts, i);
            && (r == NotFound <==> id !in stored)
            && (r == KeyDisabled <==> id in stored && stored[id].status != "active")
            && (r == IPNotAllowed <==>
                id in stored && stored[id].status == "active" &&
                (stored[id].expiresAt == 0 || now <= stored[id].expiresAt) &&
                !AddressMatches(env, ts[i].op.clientIP, stored[id].allowlist))
            && (r == KeyInvalid <==>
                id in stored && stored[id].status == "active" &&
                ((stored[id].expiresAt != 0 && now > stored[id].expiresAt) ||
                 (AddressMatches(env, ts[i].op.clientIP, stored[id].allowlist) &&
                  !SecretMatches(env, ts[i].op.secret, stored[id], now))))
  {
    hide OutcomeAt, Uncached, StoredAt, AddressMatches, SecretMatches;
    RunAnswers(env, keys, ts, i);
    UncachedAnswers(env, StoredAt(env, keys, ts, i), ts[i].op, ts[i].now);
  }

  // ---------------------------------------------------------------- what is stored

  lemma StoredSnoc(env: Env, keys: Keys, ts: seq<Timed>, i: nat)
    requires env.capacity >= 1 && i < |ts|
    ensures Run(env, keys, ts[..i + 1]) == Step(env, Run(env, keys, ts[..i]), ts[i]).0
  {
    assert ts[..i + 1][..i] == ts[..i];
  }

  /** What each operation of a run leaves in the repository: a validation at most a new time of last use; enabling,
      disabling, rotating and creating exactly their fields. */
  lemma StoredAfter(env: Env, keys: Keys, ts: seq<Timed>, i: nat)
    requires env.capacity >= 1 && i < |ts|
    ensures var was, after := StoredAt(env, keys, ts, i), StoredAt(env, keys, ts, i + 1);
            var now, id := ts[i].now, ts[i].op.keyId;
            var r := OutcomeAt(env, keys, ts, i);
            match ts[i].op
            case Validate(_, _, _) =>
              after == was || (r.Valid? && id in was && after == was[id := was[id].(lastUsed := now)])
            case SetStatus(_, enabled) =>
              if id !in was then after == was && r == NotFound
              else after == was[id := was[id].(status := if enabled then "active" else "disabled")] && r == Done
            case Rotate(_, newHash) =>
              if id !in was then after == was && r == NotFound
              else
                after == was[id := was[id].(oldSecretHash := was[id].secretHash, secretHash := newHash,
                                         gracePeriodEnd := now + 86_400_000,
                                         version := (was[id].version + 1) % 0x1_0000_0000_0000_0000)] && r == Done
            case Create(_, name, role, secretHash, description) =>
              if id in was then after == was && r == StorageError
              else
                after == was[id := APIKey(id, name, secretHash, "", 0, role, [], 1000, 0, "active", description, now,
                                          "", 0, 1)] && r == Done
            case InvalidateCache(_) => after == was
  {
    hide Run, SecretFits, IPAllowed, CacheGet, CacheSet, TouchFront;
    StoredSnoc(env, keys, ts, i);
  }

  /** A key as it was created: enabled, without a previous secret, expiry or addresses of its own. */
  predicate AsCreated(k: APIKey, hash: string) {
    k.status == "active" && k.secretHash == hash && k.oldSecretHash == "" && k.gracePeriodEnd == 0 &&
    k.expiresAt == 0 && k.allowlist == []
  }

  lemma {:induction false} StaysAsCreated(env: Env, keys: Keys, ts: seq<Timed>, i: nat, j: nat)
    requires env.capacity >= 1 && i < j <= |ts| && ts[i].op.Create? && OutcomeAt(env, keys, ts, i) == Done
    requires forall m | i < m < j :: ts[m].op.keyId == ts[i].op.keyId ==> ts[m].op != SetStatus(ts[i].op.keyId, false)
    requires forall m | i < m < j :: ts[m].op.keyId == ts[i].op.keyId ==> !ts[m].op.Rotate?
    ensures var stored := StoredAt(env, keys, ts, j);
            ts[i].op.keyId in stored && AsCreated(stored[ts[i].op.keyId], ts[i].op.secretHash)
  {
    hide StoredAt, OutcomeAt;
    StoredAfter(env, keys, ts, j - 1);
    if j > i + 1 {
      StaysAsCreated(env, keys, ts, i, j - 1);
    }
  }

  /** A new key works at once and until it is disabled or rotated: it validates exactly for the secret behind its hash,
      from the addresses that the global list allows. */
  lemma NewKeyWorksIff(env: Env, keys: Keys, ts: seq<Timed>, i: nat, j: nat)
    requires env.capacity >= 1 && i < j < |ts| && ts[i].op.Create? && OutcomeAt(env, keys, ts, i) == Done
    requires forall m | i < m < j :: ts[m].op.keyId == ts[i].op.keyId ==> ts[m].op != SetStatus(ts[i].op.keyId, false)
    requires forall m | i < m < j :: ts[m].op.keyId == ts[i].op.keyId ==> !ts[m].op.Rotate?
    requires ts[j].op.Validate? && ts[j].op.keyId == ts[i].op.keyId
    ensures OutcomeAt(env, keys, ts, j).Valid? <==>
            env.verify(ts[j].op.secret, ts[i].op.secretHash) && AddressMatches(env, ts[j].op.clientIP, [])
  {
    hide StoredAt, OutcomeAt, AddressMatches;
    StaysAsCreated(env, keys, ts, i, j);
    ValidIff(env, keys, ts, j);
  }

  lemma {:induction false} StaysEnabled(env: Env, keys: Keys, ts: seq<Timed>, keyId: string, i: nat, j: nat)
    requires env.capacity >= 1 && i < j <= |ts|
    requires ts[i].op == SetStatus(keyId, true) && OutcomeAt(env, keys, ts, i) == Done
    requires forall m | i < m < j :: ts[m].op != SetStatus(keyId, false)
    ensures var stored := StoredAt(env, keys, ts, j); keyId in stored && stored[keyId].status == "active"
  {
    hide StoredAt, OutcomeAt;
    StoredAfter(env, keys, ts, j - 1);
    if j > i + 1 {
      StaysEnabled(env, keys, ts, keyId, i, j - 1);
    }
  }

  /** Enabling takes effect at once: until the next disabling, no validation of the key is refused as disabled. */
  lemma EnableIsImmediate(env: Env, keys: Keys, ts: seq<Timed>, keyId: string, i: nat, j: nat)
    requires env.capacity >= 1 && i < j < |ts|
    requires ts[i].op == SetStatus(keyId, true) && OutcomeAt(env, keys, ts, i) == Done
    requires forall m | i < m < j :: ts[m].op != SetStatus(keyId, false)
    requires ts[j].op.Validate? && ts[j].op.keyId == keyId
    ensures OutcomeAt(env, keys, ts, j) != KeyDisabled && OutcomeAt(env, keys, ts, j) != NotFound
  {
    hide StoredAt, OutcomeAt, AddressMatches, SecretMatches;
    StaysEnabled(env, keys, ts, keyId, i, j);
    RefusalIff(env, keys, ts, j);
  }

  // ---------------------------------------------------------------- what is cached

  lemma FindInFront<T>(e: Slot<T>, rest: List<T>, key: string)
    ensures Has([e] + rest, key) <==> e.key == key || Has(rest, key)
    ensures Has([e] + rest, key) ==> Find([e] + rest, key) == if e.key == key then e else Find(rest, key)
  {
    var list := [e] + rest;
    assert list[0] == e && list[1..] == rest;
    if i :| 0 <= i < |rest| && rest[i].key == key {
      assert list[i + 1].key == key;
    }
    if Has(list, key) && e.key != key {
      var i :| 0 <= i < |list| && list[i].key == key;
      assert rest[i - 1].key == key;
    }
  }

  lemma {:induction false} FindWithout<T>(list: List<T>, gone: string, key: string)
    requires key != gone
    ensures Has(Without(list, gone), key) <==> Has(list, key)
    ensures Has(list, key) ==> Find(Without(list, gone), key) == Find(list, key)
  {
    if list != [] {
      FindWithout(list[1..], gone, key);
      assert list == [list[0]] + list[1..];
      FindInFront(list[0], list[1..], key);
      FindInFront(list[0], Without(list[1..], gone), key);
    }
  }

  lemma WithoutHasNot<T>(list: List<T>, key: string)
    ensures !Has(Without(list, key), key)
  {
    WithoutMembers(list, key);
    assert forall i | 0 <= i < |Without(list, key)| :: Without(list, key)[i] in Without(list, key);
  }

  /** What was just cached is served for the ttl, that moment included, and no longer; what was deleted is not. */
  lemma CachedForTheTtl(env: Env, cache: Cache, keyId: string, key: APIKey, at: int, now: int)
    requires env.capacity >= 1
    ensures CacheGet(CacheSet(env, cache, keyId, key, at), keyId, now).1 ==
            if now <= at + env.ttl then D.Some(key) else D.None
    ensures CacheGet(Without(cache, keyId), keyId, now).1 == D.None
  {
    hide Without, Has, Find;
    FindInFront(Slot(keyId, Cached(key, at + env.ttl)),
                if Has(cache, keyId) then Without(cache, keyId) else Evicted(cache, env.capacity), keyId);
    WithoutHasNot(cache, keyId);
  }

  /** Enabling, disabling, rotating and invalidating take the key out of the cache, so the next validation of it asks
      the repository. */
  lemma ManagementForgets(env: Env, s: State, t: Timed, later: int)
    requires env.capacity >= 1 && !t.op.Validate? && !t.op.Create? && Step(env, s, t).1 == Done
    ensures CacheGet(Step(env, s, t).0.cache, t.op.keyId, later).1 == D.None
  {
    hide Has, Find, Without;
    WithoutHasNot(s.cache, t.op.keyId);
  }

  /** A lookup leaves every other key as it was, and its own for the next lookup at the same time. */
  lemma LookupKeepsTheRest(cache: Cache, keyId: string, now: int, other: string, later: int)
    ensures other != keyId ==>
      CacheGet(CacheGet(cache, keyId, now).0, other, later).1 == CacheGet(cache, other, later).1
    ensures CacheGet(CacheGet(cache, keyId, now).0, keyId, now).1 == CacheGet(cache, keyId, now).1
  {
    hide Without, Has, Find;
    WithoutHasNot(cache, keyId);
    if Has(cache, keyId) {
      FindMember(cache, keyId);
      FindInFront(Find(cache, keyId), Without(cache, keyId), keyId);
      if other != keyId {
        FindWithout(cache, keyId, other);
        FindInFront(Find(cache, keyId), Without(cache, keyId), other);
      }
    }
  }

  /** Least recently used: setting a key loses no other one while there is room or the key was there; into a full cache
      it costs exactly the slot at the back, and every set and every hit puts its key at the front. */
  lemma SetCostsTheOldest(env: Env, cache: Cache, keyId: string, key: APIKey, at: int)
    requires env.capacity >= 1 && Distinct(cache) && |cache| <= env.capacity
    ensures var cache' := CacheSet(env, cache, keyId, key, at);
            && cache' != [] && cache'[0] == Slot(keyId, Cached(key, at + env.ttl))
            && (!Has(cache, keyId) && |cache| < env.capacity ==> cache'[1..] == cache)
            && (!Has(cache, keyId) && |cache| == env.capacity ==> cache'[1..] == cache[..|cache| - 1])
            && (Has(cache, keyId) ==> forall e :: e in cache'[1..] <==> e in cache && e.key != keyId)
  {
    hide Without, Has, Find;
    WithoutMembers(cache, keyId);
  }

  lemma HitIsInFront(cache: Cache, keyId: string, now: int)
    ensures var (cache', hit) := CacheGet(cache, keyId, now);
            hit.Some? ==> cache' != [] && cache'[0].key == keyId && cache'[0].value.key == hit.value &&
                          now <= cache'[0].value.expiresAt
  {
    hide Without;
    if Has(cache, keyId) {
      FindMember(cache, keyId);
    }
  }

  /** A valid hit leaves its key in the cache as last used now, with the time at which it leaves the cache unchanged. */
  lemma HitIsTouched(cache: Cache, now: int)
    requires cache != []
    ensures var cache' := TouchFront(cache, now);
            |cache'| == |cache| && cache'[1..] == cache[1..] && cache'[0].key == cache[0].key &&
            cache'[0].value == Cached(cache[0].value.key.(lastUsed := now), cache[0].value.expiresAt)
  {}

  /** In every run the cache holds each key once and at most `capacity` of them. */
  lemma {:induction false} CacheStaysSmall(env: Env, keys: Keys, ts: seq<Timed>)
    requires env.capacity >= 1
    ensures Distinct(Run(env, keys, ts).cache) && |Run(env, keys, ts).cache| <= env.capacity
  {
    hide Distinct, Step;
    if ts == [] {
      NothingIsDistinct();
    } else {
      CacheStaysSmall(env, keys, ts[..|ts| - 1]);
      StepKeepsSmall(env, Run(env, keys, ts[..|ts| - 1]), ts[|ts| - 1]);
    }
  }

  lemma NothingIsDistinct()
    ensures Distinct<Cached>([])
  {}

  lemma StepKeepsSmall(env: Env, s: State, t: Timed)
    requires env.capacity >= 1 && Distinct(s.cache) && |s.cache| <= env.capacity
    ensures var s' := Step(env, s, t).0; Distinct(s'.cache) && |s'.cache| <= env.capacity
  {
    hide Distinct, Without, Has, Find, Manage, Uncached, HitVerdict, SecretFits, CacheGet, CacheSet, TouchFront;
    WithoutIsDistinct(s.cache, t.op.keyId);
    WithoutNoLonger(s.cache, t.op.keyId);
    if t.op.Validate? {
      GetKeepsSmall(env, s.cache, t.op.keyId, t.now);
      var (cache, hit) := CacheGet(s.cache, t.op.keyId, t.now);
      if hit.Some? {
        HitIsInFront(s.cache, t.op.keyId, t.now);
        TouchKeepsSmall(cache, t.now);
      }
      var outcome := Uncached(env, s.keys, t.op, t.now).1;
      if outcome.Valid? {
        SetKeepsSmall(env, cache, t.op.keyId, outcome.key, t.now);
      }
    }
  }

  lemma GetKeepsSmall(env: Env, cache: Cache, keyId: string, now: int)
    requires Distinct(cache) && |cache| <= env.capacity
    ensures var cache' := CacheGet(cache, keyId, now).0; Distinct(cache') && |cache'| <= env.capacity
  {
    hide Distinct, Without, Find;
    WithoutIsDistinct(cache, keyId);
    WithoutNoLonger(cache, keyId);
    if Has(cache, keyId) {
      FindMember(cache, keyId);
      WithoutShorter(cache, keyId);
      WithoutMembers(cache, keyId);
      FrontKeepsDistinct(Find(cache, keyId), Without(cache, keyId));
    }
  }

  lemma TouchKeepsSmall(cache: Cache, now: int)
    requires cache != [] && Distinct(cache)
    ensures Distinct(TouchFront(cache, now)) && |TouchFront(cache, now)| == |cache|
  {
    DistinctTail(cache);
    FrontKeepsDistinct(TouchFront(cache, now)[0], cache[1..]);
  }

  lemma SetKeepsSmall(env: Env, cache: Cache, keyId: string, key: APIKey, now: int)
    requires env.capacity >= 1 && Distinct(cache) && |cache| <= env.capacity
    ensures Distinct(CacheSet(env, cache, keyId, key, now)) && |CacheSet(env, cache, keyId, key, now)| <= env.capacity
  {
    hide Distinct, Without;
    var slot := Slot(keyId, Cached(key, now + env.ttl));
    if Has(cache, keyId) {
      WithoutIsDistinct(cache, keyId);
      WithoutShorter(cache, keyId);
      WithoutMembers(cache, keyId);
      FrontKeepsDistinct(slot, Without(cache, keyId));
    } else {
      EvictedIsPrefix(cache, env.capacity);
      assert forall e <- cache :: e.key != keyId by {
        forall e | e in cache
          ensures e.key != keyId
        {
          var i :| 0 <= i < |cache| && cache[i] == e;
        }
      }
      FrontKeepsDistinct(slot, Evicted(cache, env.capacity));
    }
  }
}
