/** What the session store answers and what it keeps, told from the sessions alone: each refusal by its cause, each
    accepted change field by field, and what a caller reads back later. */
module StoreAnswers {
  import opened Domain
  import opened StoreModel
  import opened StoreRuns

  /** How many sessions a user has. */
  function SessionsOf(ss: map<string, Session>, u: string): nat {
    |set id | id in ss && ss[id].userId == u|
  }

  ghost predicate Carried(ss: map<string, Session>, token: string) {
    exists id <- ss :: ss[id].tokenHash == token
  }

  lemma TokenIsCarried(st: State, token: string)
    requires Indexed(st) && token != ""
    ensures token in st.tokens <==> Carried(st.sessions, token)
  {
    if token in st.tokens {
      assert st.sessions[st.tokens[token]].tokenHash == token;
    }
  }

  lemma EmptyTokenIsFree(st: State)
    requires Indexed(st)
    ensures "" !in st.tokens
  {}

  // ---------------------------------------------------------------- one call

  /** Create refuses for exactly one cause, in this order: an invalid session, a full quota, a taken id, a taken
      token. */
  lemma CreateAnswers(st: State, max: int, s: Session)
    requires Indexed(st)
    ensures var ss, (st', r) := st.sessions, Create(st, max, s);
            && r == (if !Acceptable(s) then Failed(ErrValidation)
                     else if SessionsOf(ss, s.userId) >= max then Failed(ErrQuotaExceeded)
                     else if s.id in ss then Failed(ErrConflict)
                     else if s.tokenHash != "" && Carried(ss, s.tokenHash) then Failed(ErrTokenHashConflict)
                     else Ok)
            && st'.sessions == if r.Ok? then ss[s.id := s] else ss
  {
    hide Acceptable, Indexed, Carried, IndexCount;
    UserCount(st, s.userId);
    if s.tokenHash != "" {
      TokenIsCarried(st, s.tokenHash);
    }
  }

  lemma UserCount(st: State, u: string)
    requires Indexed(st)
    ensures IndexCount(st.users, u) == SessionsOf(st.sessions, u)
  {
    CountIsScan(st, u);
  }

  /** Update refuses an invalid session, a missing one, a version that is not the expected one, and a new token that
      another session carries. When it accepts, it stores the caller's session with every field, one version on. */
  lemma UpdateAnswers(st: State, s: Session, expected: nat)
    requires Indexed(st)
    ensures var ss, (st', r) := st.sessions, Update(st, s, expected);
            && r == (if !Acceptable(s) then Failed(ErrValidation)
                     else if s.id !in ss then Failed(ErrNotFound)
                     else if ss[s.id].version != expected then Failed(ErrVersionConflict)
                     else if s.tokenHash != ss[s.id].tokenHash && s.tokenHash != "" && Carried(ss, s.tokenHash)
                     then Failed(ErrTokenHashConflict)
                     else Ok)
            && st'.sessions ==
               if r.Ok? then ss[s.id := s.(version := (s.version + 1) % 0x1_0000_0000_0000_0000)] else ss
  {
    hide Acceptable, Carried, Indexed;
    if s.tokenHash != "" {
      TokenIsCarried(st, s.tokenHash);
    }
  }

  /** UpdateSession refuses only an invalid or a missing session, and otherwise stores the caller's session as it is. */
  lemma UpdateSessionAnswers(st: State, s: Session)
    ensures var ss, (st', r) := st.sessions, UpdateSession(st, s);
            && r == (if !Acceptable(s) then Failed(ErrValidation) else if s.id !in ss then Failed(ErrNotFound) else Ok)
            && st'.sessions == if r.Ok? then ss[s.id := s] else ss
  {}

  lemma DeleteAnswers(st: State, id: string)
    ensures var (st', r) := Delete(st, id);
            r == (if id in st.sessions then Ok else Failed(ErrNotFound)) && st'.sessions == st.sessions - {id}
  {}

  /** DeleteByToken removes the one session that carries the token, and refuses when none does. */
  lemma DeleteByTokenAnswers(st: State, token: string)
    requires Indexed(st)
    ensures var ss, (st', r) := st.sessions, DeleteByToken(st, token);
            && r == (if token != "" && Carried(ss, token) then Ok else Failed(ErrTokenInvalid))
            && st'.sessions ==
               (if r.Ok? then map id | id in ss && ss[id].tokenHash != token :: ss[id] else ss)
  {
    if token == "" {
      EmptyTokenIsFree(st);
    } else {
      TokenIsCarried(st, token);
      DeleteByTokenIsDelete(st, token);
    }
  }

  /** GetByToken finds the session that carries the token, its expiry being zero or not yet past; a session past its
      expiry and a token that nobody carries are refused each with its own error. */
  lemma GetByTokenAnswers(st: State, token: string, now: int)
    requires Indexed(st)
    ensures var (st', r) := GetByToken(st, token, now);
            && st' == st
            && (r == Missing(ErrTokenInvalid) <==> token == "" || !Carried(st.sessions, token))
            && (forall id <- st.sessions :: token != "" && st.sessions[id].tokenHash == token ==>
                  r == (if st.sessions[id].expiresAt != 0 && now > st.sessions[id].expiresAt then Missing(ErrExpired)
                        else Found(st.sessions[id])))
  {
    if token == "" {
      EmptyTokenIsFree(st);
    } else {
      TokenIsCarried(st, token);
    }
  }

  /** A mapping to a session that is not there, which a breaking update can leave, is answered as an unknown token and
      goes; nothing else changes. */
  lemma OrphanIsDropped(st: State, token: string, now: int)
    requires token in st.tokens && st.tokens[token] !in st.sessions
    ensures var (st', r) := GetByToken(st, token, now);
            && r == Missing(ErrTokenInvalid)
            && st' == State(st.sessions, map t | t in st.tokens && t != token :: st.tokens[t], st.users)
  {
    assert st.tokens - {token} == map t | t in st.tokens && t != token :: st.tokens[t];
  }

  /** Cleanup keeps exactly the sessions without expiry or not yet past it; deletion by user keeps the other users'. */
  lemma BulkAnswers(st: State, now: int, u: string)
    requires Indexed(st)
    ensures CleanupExpired(st, now).sessions ==
            map id | id in st.sessions && (st.sessions[id].expiresAt == 0 || now <= st.sessions[id].expiresAt) ::
              st.sessions[id]
    ensures DeleteByUser(st, u).sessions == map id | id in st.sessions && st.sessions[id].userId != u :: st.sessions[id]
    ensures LiveIds(st, u, now) ==
            set id | id in st.sessions && st.sessions[id].userId == u &&
                     (st.sessions[id].expiresAt == 0 || now <= st.sessions[id].expiresAt)
  {
    hide UsersWithout;
    DeleteByUserIsScan(st, u);
  }

  // ---------------------------------------------------------------- reading back

  /** The session that an operation writes, with what it stores of it. */
  function Written(op: Op): Option<(Session, Session)> {
    match op
    case OpCreate(s) => Some((s, s))
    case OpUpdate(s, _) => Some((s, s.(version := (s.version + 1) % 0x1_0000_0000_0000_0000)))
    case OpUpdateSession(s) => Some((s, s))
    case _ => None
  }

  ghost predicate Accepted(st: State, max: int, op: Op) {
    match op
    case OpCreate(s) => Create(st, max, s).1.Ok?
    case OpUpdate(s, expected) => Update(st, s, expected).1.Ok?
    case OpUpdateSession(s) => UpdateSession(st, s).1.Ok?
    case _ => false
  }

  /** An operation that may change or remove a stored session. */
  predicate Disturbs(op: Op, s: Session) {
    match op
    case OpCreate(_) => false
    case OpUpdate(x, _) => x.id == s.id
    case OpUpdateSession(x) => x.id == s.id
    case OpDelete(id) => id == s.id
    case OpDeleteByToken(token) => token == s.tokenHash && token != ""
    case OpDeleteByUser(u) => u == s.userId
    case OpCleanup(now) => s.expiresAt != 0 && now > s.expiresAt
    case OpGetByToken(_, _) => false
  }

  lemma UndisturbedStays(st: State, max: int, op: Op, s: Session)
    requires Indexed(st) && s.id in st.sessions && st.sessions[s.id] == s && !Disturbs(op, s)
    ensures s.id in Step(st, max, op).sessions && Step(st, max, op).sessions[s.id] == s
  {
    hide Indexed, Acceptable, UsersWithout;
    match op {
      case OpCreate(x) => CreateAnswers(st, max, x);
      case OpUpdate(x, expected) => UpdateAnswers(st, x, expected);
      case OpUpdateSession(x) => UpdateSessionAnswers(st, x);
      case OpDelete(id) => DeleteAnswers(st, id);
      case OpDeleteByToken(token) => DeleteByTokenAnswers(st, token);
      case OpDeleteByUser(u) => BulkAnswers(st, 0, u);
      case OpCleanup(now) => BulkAnswers(st, now, "");
      case OpGetByToken(token, now) => GetByTokenAnswers(st, token, now);
    }
  }

  lemma WriteIsStored(st: State, max: int, op: Op)
    requires Indexed(st) && Accepted(st, max, op) && Written(op).Some?
    ensures var (s, stored) := Written(op).value;
            s.id in Step(st, max, op).sessions && Step(st, max, op).sessions[s.id] == stored
  {
    hide Indexed, Acceptable;
    match op {
      case OpCreate(x) => CreateAnswers(st, max, x);
      case OpUpdate(x, expected) => UpdateAnswers(st, x, expected);
      case OpUpdateSession(x) => UpdateSessionAnswers(st, x);
    }
  }

  lemma {:induction false} StaysStored(max: nat, ops: seq<Op>, i: nat)
    requires RespectfulRun(max, ops) && i < |ops| && Written(ops[i]).Some? && Accepted(Run(max, ops[..i]), max, ops[i])
    requires forall j | i < j < |ops| :: !Disturbs(ops[j], Written(ops[i]).value.1)
    ensures var (s, stored) := Written(ops[i]).value;
            s.id in Run(max, ops).sessions && Run(max, ops).sessions[s.id] == stored
    decreases |ops|
  {
    hide Step, Accepted, Indexed, Disturbs, Respectful;
    var before := ops[..|ops| - 1];
    RunsKeepIndexesIff(max, before);
    AlwaysIsNow(max, before);
    if i == |ops| - 1 {
      WriteIsStored(Run(max, before), max, ops[i]);
    } else {
      assert before[..i] == ops[..i];
      StaysStored(max, before, i);
      UndisturbedStays(Run(max, before), max, ops[|ops| - 1], Written(ops[i]).value.1);
    }
  }

  lemma AlwaysIsNow(max: int, ops: seq<Op>)
    requires AlwaysIndexed(max, ops)
    ensures Indexed(Run(max, ops))
  {}

  /** Read after write: in every run that keeps the indexes, a session that was created or updated is found by its token
      with every field as the caller wrote it, its version one on after an update, until an operation touches it or
      it expires. */
  lemma ReadAfterWrite(max: nat, ops: seq<Op>, i: nat, now: int)
    requires RespectfulRun(max, ops) && i < |ops| && Written(ops[i]).Some? && Accepted(Run(max, ops[..i]), max, ops[i])
    requires forall j | i < j < |ops| :: !Disturbs(ops[j], Written(ops[i]).value.1)
    requires var s := Written(ops[i]).value.0; s.tokenHash != "" && (s.expiresAt == 0 || now <= s.expiresAt)
    ensures var (s, stored) := Written(ops[i]).value; GetByToken(Run(max, ops), s.tokenHash, now).1 == Found(stored)
  {
    hide Run, RespectfulRun, Accepted, Indexed;
    StaysStored(max, ops, i);
    RunsKeepIndexesIff(max, ops);
    AlwaysIsNow(max, ops);
    GetByTokenAnswers(Run(max, ops), Written(ops[i]).value.0.tokenHash, now);
  }
}
