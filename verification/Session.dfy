/** The session entity of src/internal/core/domain/session.go. A Go string is a sequence of bytes; each byte is one
    character here, so that the length limits are Go's. */
module Domain {

  datatype Option<+T> = None | Some(value: T)

  const MAX_USER_ID_LENGTH := 128
  const MAX_IP_ADDRESS_LENGTH := 45
  const MAX_USER_AGENT_LENGTH := 512
  const MAX_DEVICE_ID_LENGTH := 128
  const MAX_DATA_KEY_LENGTH := 64
  const MAX_DATA_VALUE_LENGTH := 1024
  const MAX_DATA_TOTAL_SIZE := 4096

  /** Number of distinct values of a Go uint64. */
  const TWO_TO_64 := 0x1_0000_0000_0000_0000

  datatype Session = Session(
    id: string,
    userId: string,
    tokenHash: string,
    ipAddress: string,
    userAgent: string,
    lastAccessIp: string,
    lastAccessUa: string,
    deviceId: string,
    createdBy: string,
    createdAt: int,
    expiresAt: int,
    lastActive: int,
    data: map<string, string>,
    version: nat,
    shardId: nat,
    ttl: int,
    isDeleted: bool)

  /** IncrVersion: the version is a uint64 and wraps. */
  function IncrVersion(s: Session): Session {
    s.(version := (s.version + 1) % TWO_TO_64)
  }

  /** What the log's JSON keeps of a session: ShardID, TTL and IsDeleted are not serialised. */
  function Strip(s: Session): Session {
    s.(shardId := 0, ttl := 0, isDeleted := false)
  }

  /** It loses those three fields and nothing else. */
  lemma StripLosesThree(a: Session, b: Session)
    ensures Strip(a) == Strip(b) <==> a == b.(shardId := a.shardId, ttl := a.ttl, isDeleted := a.isDeleted)
  {}

  /** IsExpired at clock reading `now`; an expiry of zero means "never". */
  predicate IsExpired(s: Session, now: int) {
    s.expiresAt != 0 && now > s.expiresAt
  }

  /** Total bytes of the custom data map. */
  ghost function DataSize(m: map<string, string>): nat
    decreases m.Keys
  {
    if m.Keys == {} then 0 else
      var k :| k in m;
      |k| + |m[k]| + DataSize(m - {k})
  }

  /** The size does not depend on the order in which entries are visited. */
  lemma {:induction false} DataSizeAnyOrder(m: map<string, string>, k: string)
    requires k in m
    ensures DataSize(m) == |k| + |m[k]| + DataSize(m - {k})
    decreases m.Keys
  {
    var p :| p in m && DataSize(m) == |p| + |m[p]| + DataSize(m - {p});
    if p != k {
      DataSizeAnyOrder(m - {p}, k);
      DataSizeAnyOrder(m - {k}, p);
      assert m - {p} - {k} == m - {k} - {p};
    }
  }

  ghost predicate ValidData(m: map<string, string>) {
    && (forall k <- m :: |k| <= MAX_DATA_KEY_LENGTH && |m[k]| <= MAX_DATA_VALUE_LENGTH)
    && DataSize(m) <= MAX_DATA_TOTAL_SIZE
  }

  /** The sessions that Validate accepts. */
  ghost predicate Acceptable(s: Session) {
    && s.userId != ""
    && |s.userId| <= MAX_USER_ID_LENGTH
    && |s.ipAddress| <= MAX_IP_ADDRESS_LENGTH
    && |s.userAgent| <= MAX_USER_AGENT_LENGTH
    && |s.deviceId| <= MAX_DEVICE_ID_LENGTH
    && ValidData(s.data)
  }

  lemma StripAcceptable(s: Session)
    ensures Acceptable(Strip(s)) <==> Acceptable(s)
  {}

  /** validateData: one pass over the map, in whatever order Go iterates it. */
  method ValidateData(m: map<string, string>) returns (ok: bool)
    ensures ok <==> ValidData(m)
    ensures ok <==> (forall k <- m :: |k| <= 64 && |m[k]| <= 1024) && DataSize(m) <= 4096
  {
    var rest, total := m, 0;
    while rest.Keys != {}
      invariant forall k <- rest :: k in m && m[k] == rest[k]
      invariant forall k <- m :: k in rest || (|k| <= MAX_DATA_KEY_LENGTH && |m[k]| <= MAX_DATA_VALUE_LENGTH)
      invariant total + DataSize(rest) == DataSize(m)
      decreases rest.Keys
    {
      var k :| k in rest;
      if |k| > MAX_DATA_KEY_LENGTH { return false; }
      if |rest[k]| > MAX_DATA_VALUE_LENGTH { return false; }
      DataSizeAnyOrder(rest, k);
      total := total + |k| + |rest[k]|;
      rest := rest - {k};
    }
    return total <= MAX_DATA_TOTAL_SIZE;
  }

  method Validate(s: Session) returns (ok: bool)
    ensures ok <==> Acceptable(s)
    ensures ok <==> 1 <= |s.userId| <= 128 && |s.ipAddress| <= 45 && |s.userAgent| <= 512 && |s.deviceId| <= 128 &&
                    (forall k <- s.data :: |k| <= 64 && |s.data[k]| <= 1024) && DataSize(s.data) <= 4096
  {
    var dataOk := ValidateData(s.data);
    return s.userId != "" && |s.userId| <= MAX_USER_ID_LENGTH && |s.ipAddress| <= MAX_IP_ADDRESS_LENGTH
           && |s.userAgent| <= MAX_USER_AGENT_LENGTH && |s.deviceId| <= MAX_DEVICE_ID_LENGTH && dataOk;
  }
}
