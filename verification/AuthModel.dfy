/** API-key validation as values: the repository, the LRU+TTL cache in front of it, and validation straight from
    the repository as the reference (src/internal/core/service/auth.go, src/internal/core/domain/apikey.go,
    src/internal/storage/memory/apikey.go). Times are milliseconds of one clock. */
module AuthModel {
  import opened Lru
  import D = Domain

  datatype APIKey = APIKey(
    keyId: string, name: string, secretHash: string, oldSecretHash: string, gracePeriodEnd: int, role: string,
    allowlist: seq<string>, rateLimit: int, expiresAt: int, status: string, description: string, createdAt: int,
    createdBy: string, lastUsed: int, version: nat)

  const ACTIVE := "active"
  const DISABLED := "disabled"
  const GRACE_PERIOD := 24 * 60 * 60 * 1000

  /** What the libraries decide: Argon2 verification, IP parsing (to a canonical address) and CIDR membership
      (false for a malformed network). `globalAllow`, `capacity` and `ttl` are the service's configuration. */
  datatype Env = Env(
    verify: (string, string) -> bool, parseIP: string -> D.Option<string>, inNetwork: (string, string) -> bool,
    globalAllow: seq<string>, capacity: int, ttl: int)

  predicate IsExpired(k: APIKey, now: int) {
    k.expiresAt != 0 && now > k.expiresAt
  }

  predicate IsActive(k: APIKey, now: int) {
    k.status == ACTIVE && !IsExpired(k, now)
  }

  predicate IsInGracePeriod(k: APIKey, now: int) {
    k.gracePeriodEnd != 0 && k.oldSecretHash != "" && now < k.gracePeriodEnd
  }

  predicate SecretFits(env: Env, secret: string, k: APIKey, now: int) {
    env.verify(secret, k.secretHash) || (IsInGracePeriod(k, now) && env.verify(secret, k.oldSecretHash))
  }

  predicate EntryAllows(env: Env, entry: string, ip: string) {
    if '/' in entry then env.inNetwork(entry, ip) else env.parseIP(entry) == D.Some(ip)
  }

  predicate IPAllowed(env: Env, clientIP: string, keyAllowlist: seq<string>) {
    var allowlist := env.globalAllow + keyAllowlist;
    allowlist == [] ||
    (env.parseIP(clientIP).Some? && exists entry <- allowlist :: EntryAllows(env, entry, env.parseIP(clientIP).value))
  }

  function Touch(k: APIKey, now: int): APIKey {
    k.(lastUsed := now)
  }

  /** NewAPIKey and the description that CreateAPIKey adds. */
  function NewKey(keyId: string, name: string, role: string, secretHash: string, description: string,
                  now: int): APIKey {
    APIKey(keyId, name, secretHash, "", 0, role, [], 1000, 0, ACTIVE, description, now, "", 0, 1)
  }

  function Rotated(k: APIKey, newHash: string, now: int): APIKey {
    k.(oldSecretHash := k.secretHash, secretHash := newHash, gracePeriodEnd := now + GRACE_PERIOD,
       version := (k.version + 1) % D.TWO_TO_64)
  }

  // ---------------------------------------------------------------- requests

  datatype Op =
    | Validate(keyId: string, secret: string, clientIP: string)
    | SetStatus(keyId: string, enabled: bool)
    | Rotate(keyId: string, newHash: string)
    | Create(keyId: string, name: string, role: string, secretHash: string, description: string)
    | InvalidateCache(keyId: string)

  datatype Timed = Timed(op: Op, now: int)

  datatype Outcome = Valid(key: APIKey) | Done | NotFound | KeyDisabled | KeyInvalid | IPNotAllowed | StorageError

  type Keys = map<string, APIKey>

  /** Validation from the repository alone: status, expiry, allowlist, secret; then the key is touched and stored. */
  function Uncached(env: Env, keys: Keys, op: Op, now: int): (Keys, Outcome)
    requires op.Validate?
  {
    if op.keyId !in keys then (keys, NotFound)
    else
      var k := keys[op.keyId];
      if k.status != ACTIVE then (keys, KeyDisabled)
      else if IsExpired(k, now) then (keys, KeyInvalid)
      else if !IPAllowed(env, op.clientIP, k.allowlist) then (keys, IPNotAllowed)
      else if !SecretFits(env, op.secret, k, now) then (keys, KeyInvalid)
      else (keys[op.keyId := Touch(k, now)], Valid(Touch(k, now)))
  }

  /** The management operations on the repository. */
  function Manage(keys: Keys, op: Op, now: int): (Keys, Outcome)
    requires !op.Validate?
  {
    match op
    case SetStatus(keyId, enabled) =>
      if keyId !in keys then (keys, NotFound)
      else (keys[keyId := keys[keyId].(status := if enabled then ACTIVE else DISABLED)], Done)
    case Rotate(keyId, newHash) =>
      if keyId !in keys then (keys, NotFound)
      else (keys[keyId := Rotated(keys[keyId], newHash, now)], Done)
    case Create(keyId, name, role, secretHash, description) =>
      if keyId in keys then (keys, StorageError)
      else (keys[keyId := NewKey(keyId, name, role, secretHash, description, now)], Done)
    case InvalidateCache(_) => (keys, Done)
  }

  /** The service without a cache. */
  function Reference(env: Env, keys: Keys, t: Timed): (Keys, Outcome) {
    if t.op.Validate? then Uncached(env, keys, t.op, t.now) else Manage(keys, t.op, t.now)
  }

  // ---------------------------------------------------------------- the cache

  datatype Cached = Cached(key: APIKey, expiresAt: int)

  type Cache = List<Cached>

  function CacheGet(cache: Cache, keyId: string, now: int): (Cache, D.Option<APIKey>) {
    if !Has(cache, keyId) then (cache, D.None)
    else
      var e := Find(cache, keyId);
      if now > e.value.expiresAt then (Without(cache, keyId), D.None)
      else ([e] + Without(cache, keyId), D.Some(e.value.key))
  }

  function CacheSet(env: Env, cache: Cache, keyId: string, key: APIKey, now: int): Cache
    requires env.capacity >= 1
  {
    [Slot(keyId, Cached(key, now + env.ttl))] +
    if Has(cache, keyId) then Without(cache, keyId) else Evicted(cache, env.capacity)
  }

  /** A hit touches the cached key in place, at the front of the list. */
  function TouchFront(cache: Cache, now: int): Cache
    requires cache != []
  {
    [cache[0].(value := cache[0].value.(key := Touch(cache[0].value.key, now)))] + cache[1..]
  }

  datatype State = State(keys: Keys, cache: Cache)

  /** The verdict on a cached key whose secret fits. */
  function HitVerdict(env: Env, k: APIKey, clientIP: string, now: int): Outcome {
    if !IsActive(k, now) && k.status == DISABLED then KeyDisabled
    else if !IsActive(k, now) && IsExpired(k, now) then KeyInvalid
    else if !IPAllowed(env, clientIP, k.allowlist) then IPNotAllowed
    else Valid(Touch(k, now))
  }

  function ValidateKey(env: Env, s: State, op: Op, now: int): (State, Outcome)
    requires env.capacity >= 1 && op.Validate?
  {
    var (cache, hit) := CacheGet(s.cache, op.keyId, now);
    if hit.Some? && SecretFits(env, op.secret, hit.value, now) then
      var outcome := HitVerdict(env, hit.value, op.clientIP, now);
      (State(s.keys, if outcome.Valid? then TouchFront(cache, now) else cache), outcome)
    else
      var (keys, outcome) := Uncached(env, s.keys, op, now);
      (State(keys, if outcome.Valid? then CacheSet(env, cache, op.keyId, outcome.key, now) else cache), outcome)
  }

  /** The management operations drop the key from the cache when they changed it. */
  function Step(env: Env, s: State, t: Timed): (State, Outcome)
    requires env.capacity >= 1
  {
    if t.op.Validate? then ValidateKey(env, s, t.op, t.now)
    else
      var (keys, outcome) := Manage(s.keys, t.op, t.now);
      (State(keys, if outcome.Done? && !t.op.Create? then Without(s.cache, t.op.keyId) else s.cache), outcome)
  }

  // ---------------------------------------------------------------- refinement

  /** Two keys that differ at most in when they were last used. */
  ghost predicate Same(a: APIKey, b: APIKey) {
    a == b.(lastUsed := a.lastUsed)
  }

  ghost predicate Alike(a: Keys, b: Keys) {
    a.Keys == b.Keys && forall k <- a :: Same(a[k], b[k])
  }

  /** Every cached key is the stored one but for its last use, and is active. */
  ghost predicate Coherent(keys: Keys, cache: Cache) {
    forall e <- cache :: e.key in keys && Same(e.value.key, keys[e.key]) && e.value.key.status == ACTIVE
  }

  lemma GetKeepsCoherent(keys: Keys, cache: Cache, keyId: string, now: int)
    requires Coherent(keys, cache)
    ensures Coherent(keys, CacheGet(cache, keyId, now).0)
    ensures var hit := CacheGet(cache, keyId, now).1;
      hit.Some? ==> keyId in keys && Same(hit.value, keys[keyId]) && hit.value.status == ACTIVE &&
                    CacheGet(cache, keyId, now).0 != [] && CacheGet(cache, keyId, now).0[0].value.key == hit.value
  {
    hide Find, Without;
    WithoutMembers(cache, keyId);
    if Has(cache, keyId) {
      FindMember(cache, keyId);
    }
  }

  lemma TouchFrontKeepsCoherent(keys: Keys, cache: Cache, now: int)
    requires cache != [] && Coherent(keys, cache)
    ensures Coherent(keys, TouchFront(cache, now))
  {
    assert forall e <- cache[1..] :: e in cache;
  }

  lemma SetKeepsCoherent(env: Env, keys: Keys, cache: Cache, keyId: string, now: int)
    requires env.capacity >= 1 && Coherent(keys, cache) && keyId in keys && keys[keyId].status == ACTIVE
    ensures var k := Touch(keys[keyId], now); Coherent(keys[keyId := k], CacheSet(env, cache, keyId, k, now))
  {
    hide Without;
    WithoutMembers(cache, keyId);
    assert forall e <- Evicted(cache, env.capacity) :: e in cache;
  }

  /** A hit answers exactly what the repository would. */
  lemma HitIsExact(env: Env, keys: Keys, k: APIKey, op: Op, now: int)
    requires op.Validate? && op.keyId in keys && Same(k, keys[op.keyId]) && k.status == ACTIVE
    requires SecretFits(env, op.secret, k, now)
    ensures HitVerdict(env, k, op.clientIP, now) == Uncached(env, keys, op, now).1
  {
    hide IPAllowed;
  }

  lemma UncachedIsAlike(env: Env, a: Keys, b: Keys, op: Op, now: int)
    requires op.Validate? && Alike(a, b)
    ensures Uncached(env, a, op, now).1 == Uncached(env, b, op, now).1
    ensures Alike(Uncached(env, a, op, now).0, Uncached(env, b, op, now).0)
  {
    hide IPAllowed, SecretFits;
    if op.keyId in a {
      FitsAlike(env, op.secret, a[op.keyId], b[op.keyId], now);
    }
  }

  lemma FitsAlike(env: Env, secret: string, a: APIKey, b: APIKey, now: int)
    requires Same(a, b)
    ensures SecretFits(env, secret, a, now) <==> SecretFits(env, secret, b, now)
  {
  }

  /** Validation only touches. */
  lemma UncachedKeepsAlike(env: Env, a: Keys, b: Keys, op: Op, now: int)
    requires op.Validate? && Alike(a, b)
    ensures Alike(a, Uncached(env, b, op, now).0)
  {
    hide IPAllowed, SecretFits;
  }

  lemma ManageIsAlike(a: Keys, b: Keys, op: Op, now: int)
    requires !op.Validate? && Alike(a, b)
    ensures Manage(a, op, now).1 == Manage(b, op, now).1 && Alike(Manage(a, op, now).0, Manage(b, op, now).0)
  {
  }

  lemma ManageKeepsCoherent(keys: Keys, cache: Cache, op: Op, now: int)
    requires !op.Validate? && Coherent(keys, cache)
    ensures Manage(keys, op, now).1 != Done || op.Create? ==> Coherent(Manage(keys, op, now).0, cache)
    ensures Coherent(Manage(keys, op, now).0, Without(cache, op.keyId))
  {
    hide Without;
    WithoutMembers(cache, op.keyId);
  }

  lemma ValidateRefines(env: Env, s: State, keys: Keys, op: Op, now: int)
    requires env.capacity >= 1 && op.Validate? && Coherent(s.keys, s.cache) && Alike(s.keys, keys)
    ensures var (s', outcome) := ValidateKey(env, s, op, now);
      outcome == Uncached(env, keys, op, now).1 && Alike(s'.keys, Uncached(env, keys, op, now).0) &&
      Coherent(s'.keys, s'.cache)
  {
    hide CacheGet, CacheSet, Uncached, HitVerdict, SecretFits, Coherent, TouchFront, IPAllowed, Alike;
    var (cache, hit) := CacheGet(s.cache, op.keyId, now);
    GetKeepsCoherent(s.keys, s.cache, op.keyId, now);
    UncachedIsAlike(env, s.keys, keys, op, now);
    if hit.Some? && SecretFits(env, op.secret, hit.value, now) {
      HitIsExact(env, s.keys, hit.value, op, now);
      UncachedKeepsAlike(env, s.keys, keys, op, now);
      TouchFrontKeepsCoherent(s.keys, cache, now);
    } else {
      MissIsStored(env, s.keys, cache, op, now);
    }
  }

  lemma MissIsStored(env: Env, keys: Keys, cache: Cache, op: Op, now: int)
    requires env.capacity >= 1 && op.Validate? && Coherent(keys, cache)
    ensures var (keys', outcome) := Uncached(env, keys, op, now);
      Coherent(keys', if outcome.Valid? then CacheSet(env, cache, op.keyId, outcome.key, now) else cache)
  {
    hide CacheSet, SecretFits, Coherent, IPAllowed;
    if Uncached(env, keys, op, now).1.Valid? {
      SetKeepsCoherent(env, keys, cache, op.keyId, now);
    }
  }

  lemma StepRefines(env: Env, s: State, keys: Keys, t: Timed)
    requires env.capacity >= 1 && Coherent(s.keys, s.cache) && Alike(s.keys, keys)
    ensures var (s', outcome) := Step(env, s, t);
      outcome == Reference(env, keys, t).1 && Alike(s'.keys, Reference(env, keys, t).0) && Coherent(s'.keys, s'.cache)
  {
    hide ValidateKey, Uncached, Manage, Coherent, Alike, Without;
    if t.op.Validate? {
      ValidateRefines(env, s, keys, t.op, t.now);
    } else {
      ManageIsAlike(s.keys, keys, t.op, t.now);
      ManageKeepsCoherent(s.keys, s.cache, t.op, t.now);
    }
  }

  // ---------------------------------------------------------------- runs

  function Run(env: Env, keys: Keys, ts: seq<Timed>): State
    requires env.capacity >= 1
  {
    if ts == [] then State(keys, []) else Step(env, Run(env, keys, ts[..|ts| - 1]), ts[|ts| - 1]).0
  }

  function OutcomeAt(env: Env, keys: Keys, ts: seq<Timed>, i: nat): Outcome
    requires env.capacity >= 1 && i < |ts|
  {
    Step(env, Run(env, keys, ts[..i]), ts[i]).1
  }

  function ReferenceRun(env: Env, keys: Keys, ts: seq<Timed>): Keys {
    if ts == [] then keys else Reference(env, ReferenceRun(env, keys, ts[..|ts| - 1]), ts[|ts| - 1]).0
  }

  function ReferenceAt(env: Env, keys: Keys, ts: seq<Timed>, i: nat): Outcome
    requires i < |ts|
  {
    Reference(env, ReferenceRun(env, keys, ts[..i]), ts[i]).1
  }

  lemma {:induction false} RunsStayAlike(env: Env, keys: Keys, ts: seq<Timed>)
    requires env.capacity >= 1
    ensures var s := Run(env, keys, ts); Coherent(s.keys, s.cache) && Alike(s.keys, ReferenceRun(env, keys, ts))
  {
    if ts != [] {
      var before := ts[..|ts| - 1];
      RunsStayAlike(env, keys, before);
      StepRefines(env, Run(env, keys, before), ReferenceRun(env, keys, before), ts[|ts| - 1]);
    }
  }

  /** The cache is invisible: in every run over any repository, each request has the outcome, returned key included,
      that it would have without a cache. */
  lemma CacheIsInvisible(env: Env, keys: Keys, ts: seq<Timed>, i: nat)
    requires env.capacity >= 1 && i < |ts|
    ensures OutcomeAt(env, keys, ts, i) == ReferenceAt(env, keys, ts, i)
  {
    hide Step, Reference, Run, ReferenceRun;
    RunsStayAlike(env, keys, ts[..i]);
    StepRefines(env, Run(env, keys, ts[..i]), ReferenceRun(env, keys, ts[..i]), ts[i]);
  }

  // ---------------------------------------------------------------- what it means for a caller

  lemma ReferenceSnoc(env: Env, keys: Keys, ts: seq<Timed>, i: nat)
    requires i < |ts|
    ensures ReferenceRun(env, keys, ts[..i + 1]) == Reference(env, ReferenceRun(env, keys, ts[..i]), ts[i]).0
  {
    assert ts[..i + 1][..i] == ts[..i];
  }

  lemma {:induction false} StaysDisabled(env: Env, keys: Keys, ts: seq<Timed>, keyId: string, i: nat, j: nat)
    requires i < j <= |ts| && ts[i].op == SetStatus(keyId, false) && ReferenceAt(env, keys, ts, i) == Done
    requires forall m | i < m < j :: ts[m].op != SetStatus(keyId, true)
    ensures var now := ReferenceRun(env, keys, ts[..j]); keyId in now && now[keyId].status == DISABLED
  {
    hide IPAllowed, SecretFits, ReferenceRun;
    ReferenceSnoc(env, keys, ts, j - 1);
    if j > i + 1 {
      StaysDisabled(env, keys, ts, keyId, i, j - 1);
    }
  }

  /** Disabling takes effect at once, cached or not: until the key is enabled again it validates for nobody. */
  lemma DisableIsImmediate(env: Env, keys: Keys, ts: seq<Timed>, keyId: string, i: nat, j: nat)
    requires env.capacity >= 1 && i < j < |ts|
    requires ts[i].op == SetStatus(keyId, false) && OutcomeAt(env, keys, ts, i) == Done
    requires forall m | i < m < j :: ts[m].op != SetStatus(keyId, true)
    requires ts[j].op.Validate? && ts[j].op.keyId == keyId
    ensures OutcomeAt(env, keys, ts, j) == KeyDisabled
  {
    hide OutcomeAt, ReferenceRun;
    CacheIsInvisible(env, keys, ts, i);
    CacheIsInvisible(env, keys, ts, j);
    StaysDisabled(env, keys, ts, keyId, i, j);
  }

  lemma {:induction false} StaysRotated(env: Env, keys: Keys, ts: seq<Timed>, i: nat, j: nat)
    requires i < j <= |ts| && ts[i].op.Rotate? && ReferenceAt(env, keys, ts, i) == Done
    requires forall m | i < m < j :: !(ts[m].op.Rotate? && ts[m].op.keyId == ts[i].op.keyId)
    ensures ts[i].op.keyId in ReferenceRun(env, keys, ts[..i])
    ensures var keyId := ts[i].op.keyId;
      var now := ReferenceRun(env, keys, ts[..j]);
      keyId in now && now[keyId].secretHash == ts[i].op.newHash &&
      now[keyId].oldSecretHash == ReferenceRun(env, keys, ts[..i])[keyId].secretHash &&
      now[keyId].gracePeriodEnd == ts[i].now + GRACE_PERIOD
  {
    hide IPAllowed, SecretFits, ReferenceRun;
    ReferenceSnoc(env, keys, ts, j - 1);
    if j > i + 1 {
      StaysRotated(env, keys, ts, i, j - 1);
    }
  }

  /** After a rotation, and until the next, only the new secret is accepted, or the one before it within 24 hours. */
  lemma OldSecretEndsWithGrace(env: Env, keys: Keys, ts: seq<Timed>, i: nat, j: nat)
    requires env.capacity >= 1 && i < j < |ts| && ts[i].op.Rotate? && OutcomeAt(env, keys, ts, i) == Done
    requires forall m | i < m < j :: !(ts[m].op.Rotate? && ts[m].op.keyId == ts[i].op.keyId)
    requires ts[j].op.Validate? && ts[j].op.keyId == ts[i].op.keyId && OutcomeAt(env, keys, ts, j).Valid?
    ensures ts[i].op.keyId in ReferenceRun(env, keys, ts[..i])
    ensures env.verify(ts[j].op.secret, ts[i].op.newHash) ||
            (ts[j].now < ts[i].now + GRACE_PERIOD &&
             env.verify(ts[j].op.secret, ReferenceRun(env, keys, ts[..i])[ts[i].op.keyId].secretHash))
  {
    hide OutcomeAt, ReferenceRun, IPAllowed;
    CacheIsInvisible(env, keys, ts, i);
    CacheIsInvisible(env, keys, ts, j);
    StaysRotated(env, keys, ts, i, j);
  }
}
