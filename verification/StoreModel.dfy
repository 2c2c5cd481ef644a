/** What each operation of src/internal/storage/memory/store.go does to the three maps, as functions on
    values, and the agreement between the maps that every run keeps. */
module StoreModel {
  import opened Domain

  datatype Error =
    | ErrValidation
    | ErrQuotaExceeded
    | ErrConflict
    | ErrTokenHashConflict
    | ErrNotFound
    | ErrVersionConflict
    | ErrTokenInvalid
    | ErrExpired

  datatype Outcome = Ok | Failed(error: Error)

  /** sessions: SessionID -> Session; tokens: TokenHash -> SessionID; users: UserID -> SessionIDs. */
  datatype State = State(
    sessions: map<string, Session>,
    tokens: map<string, string>,
    users: map<string, set<string>>)

  const EMPTY := State(map[], map[], map[])

  // ---------------------------------------------------------------- user index (index.go)

  function IndexCount(users: map<string, set<string>>, u: string): nat {
    if u in users then |users[u]| else 0
  }

  function IndexAdd(users: map<string, set<string>>, u: string, id: string): map<string, set<string>> {
    users[u := (if u in users then users[u] else {}) + {id}]
  }

  function IndexRemove(users: map<string, set<string>>, u: string, id: string): map<string, set<string>> {
    if u !in users then users
    else if users[u] - {id} == {} then users - {u}
    else users[u := users[u] - {id}]
  }

  // ---------------------------------------------------------------- operations (store.go)

  ghost function Create(st: State, max: int, s: Session): (State, Outcome) {
    if !Acceptable(s) then (st, Failed(ErrValidation))
    else if IndexCount(st.users, s.userId) >= max then (st, Failed(ErrQuotaExceeded))
    else if s.id in st.sessions then (st, Failed(ErrConflict))
    else if s.tokenHash != "" && s.tokenHash in st.tokens then (st, Failed(ErrTokenHashConflict))
    else (Insert(st, s), Ok)
  }

  function Insert(st: State, s: Session): State {
    State(st.sessions[s.id := s],
          if s.tokenHash != "" then st.tokens[s.tokenHash := s.id] else st.tokens,
          IndexAdd(st.users, s.userId, s.id))
  }

  /** The token index once a session has given up its old hash. */
  function Freed(tokens: map<string, string>, before: string, after: string): map<string, string> {
    if before != after && before != "" then tokens - {before} else tokens
  }

  /** ... and once it has taken the new one. */
  function Taken(tokens: map<string, string>, before: string, after: string, id: string): map<string, string> {
    if before != after && after != "" then tokens[after := id] else tokens
  }

  /** The old token mapping goes before the new hash is looked up, and stays gone when that ends in a conflict. */
  ghost function Update(st: State, s: Session, expected: nat): (State, Outcome) {
    if !Acceptable(s) then (st, Failed(ErrValidation))
    else if s.id !in st.sessions then (st, Failed(ErrNotFound))
    else if st.sessions[s.id].version != expected then (st, Failed(ErrVersionConflict))
    else
      var was := st.sessions[s.id].tokenHash;
      var freed := Freed(st.tokens, was, s.tokenHash);
      if was != s.tokenHash && s.tokenHash != "" && s.tokenHash in freed then
        (st.(tokens := freed), Failed(ErrTokenHashConflict))
      else
        (State(st.sessions[s.id := IncrVersion(s)], Taken(freed, was, s.tokenHash, s.id), st.users), Ok)
  }

  /** UpdateSession: no version check, no version bump, no index maintenance. */
  ghost function UpdateSession(st: State, s: Session): (State, Outcome) {
    if !Acceptable(s) then (st, Failed(ErrValidation))
    else if s.id !in st.sessions then (st, Failed(ErrNotFound))
    else (st.(sessions := st.sessions[s.id := s]), Ok)
  }

  function Delete(st: State, id: string): (State, Outcome) {
    if id !in st.sessions then (st, Failed(ErrNotFound)) else (Evict(st, id), Ok)
  }

  function Evict(st: State, id: string): State
    requires id in st.sessions
  {
    var s := st.sessions[id];
    State(st.sessions - {id},
          if s.tokenHash != "" then st.tokens - {s.tokenHash} else st.tokens,
          IndexRemove(st.users, s.userId, id))
  }

  function DeleteByToken(st: State, token: string): (State, Outcome) {
    if token !in st.tokens then (st, Failed(ErrTokenInvalid)) else
    var id := st.tokens[token];
    var popped := st.(tokens := st.tokens - {token});
    if id !in st.sessions then (popped, Failed(ErrNotFound)) else
    (State(st.sessions - {id}, popped.tokens, IndexRemove(st.users, st.sessions[id].userId, id)), Ok)
  }

  /** The token mappings that go with a set of removed sessions. */
  function TokensOf(sessions: map<string, Session>, ids: set<string>): set<string> {
    set id | id in ids && id in sessions && sessions[id].tokenHash != "" :: sessions[id].tokenHash
  }

  /** Sessions and tokens once a set of ids has been popped. */
  function Dropped(ss: map<string, Session>, tokens: map<string, string>, ids: set<string>)
    : (map<string, Session>, map<string, string>)
  {
    (ss - ids, tokens - TokensOf(ss, ids))
  }

  function DeleteByUser(st: State, u: string): State {
    if u !in st.users || st.users[u] == {} then st else
    var (sessions, tokens) := Dropped(st.sessions, st.tokens, st.users[u]);
    State(sessions, tokens, st.users - {u})
  }

  function IdsOf(sessions: map<string, Session>, u: string): set<string> {
    set id | id in sessions && sessions[id].userId == u
  }

  /** The sessions of a user that ListByUserID returns. */
  function LiveIds(st: State, u: string, now: int): set<string> {
    set id | id in (if u in st.users then st.users[u] else {}) && id in st.sessions && !IsExpired(st.sessions[id], now)
  }

  function ExpiredIds(sessions: map<string, Session>, now: int): set<string> {
    set id | id in sessions && IsExpired(sessions[id], now)
  }

  /** Removing a set of sessions, each with its token and its place in the user index. */
  function EvictAll(st: State, ids: set<string>): State {
    State(st.sessions - ids, st.tokens - TokensOf(st.sessions, ids), UsersWithout(st.sessions, st.users, ids))
  }

  /** The user index after those sessions have left: a set that empties goes with its user. */
  function UsersWithout(ss: map<string, Session>, users: map<string, set<string>>, ids: set<string>)
    : map<string, set<string>>
  {
    map u | u in users && (IdsOf(ss, u) * ids == {} || users[u] - (IdsOf(ss, u) * ids) != {})
      :: users[u] - (IdsOf(ss, u) * ids)
  }

  function CleanupExpired(st: State, now: int): State {
    EvictAll(st, ExpiredIds(st.sessions, now))
  }

  /** LoadFromSnapshot: the maps are rebuilt from a list of sessions, without any check. */
  function InsertAll(list: seq<Session>): State {
    if list == [] then EMPTY else Insert(InsertAll(list[..|list| - 1]), list[|list| - 1])
  }

  /** Recover loads a snapshot through Create, and goes on when one session is refused. */
  ghost function CreateAll(max: int, list: seq<Session>): State {
    if list == [] then EMPTY else Create(CreateAll(max, list[..|list| - 1]), max, list[|list| - 1]).0
  }

  datatype Lookup = Found(session: Session) | Missing(error: Error)

  /** GetByToken; the orphan branch also drops the dangling mapping. */
  function GetByToken(st: State, token: string, now: int): (State, Lookup) {
    if token !in st.tokens then (st, Missing(ErrTokenInvalid))
    else if st.tokens[token] !in st.sessions then
      (st.(tokens := st.tokens - {token}), Missing(ErrTokenInvalid))
    else if IsExpired(st.sessions[st.tokens[token]], now) then (st, Missing(ErrExpired))
    else (st, Found(st.sessions[st.tokens[token]]))
  }

  // ---------------------------------------------------------------- agreement of the three maps

  /** Every session sits under its own id. */
  predicate OwnIds(sessions: map<string, Session>) {
    forall id <- sessions :: sessions[id].id == id
  }

  /** The token index maps exactly the non-empty hashes, each to the one session that carries it. */
  predicate TokensAgree(sessions: map<string, Session>, tokens: map<string, string>) {
    && (forall t <- tokens :: t != "" && tokens[t] in sessions && sessions[tokens[t]].tokenHash == t)
    && (forall id <- sessions :: sessions[id].tokenHash != "" ==>
          sessions[id].tokenHash in tokens && tokens[sessions[id].tokenHash] == id)
  }

  /** The user index lists exactly the sessions of each user, and no user with an empty set. */
  predicate UsersAgree(sessions: map<string, Session>, users: map<string, set<string>>) {
    && (forall u <- users :: users[u] != {})
    && (forall u <- users, id <- users[u] :: id in sessions && sessions[id].userId == u)
    && (forall id <- sessions :: sessions[id].userId in users && id in users[sessions[id].userId])
  }

  predicate Indexed(st: State) {
    && OwnIds(st.sessions)
    && TokensAgree(st.sessions, st.tokens)
    && UsersAgree(st.sessions, st.users)
  }

  predicate WithinQuota(st: State, max: int) {
    forall u <- st.users :: |st.users[u]| <= max
  }

  ghost predicate AllAcceptable(st: State) {
    forall id <- st.sessions :: Acceptable(st.sessions[id])
  }

  /** What a scan of all sessions computes for the user index. */
  function UserScan(sessions: map<string, Session>): map<string, set<string>> {
    map u | u in set id | id in sessions :: sessions[id].userId :: IdsOf(sessions, u)
  }

  /** No two sessions share a non-empty token hash. */
  ghost predicate DistinctTokens(sessions: map<string, Session>) {
    forall i, j :: i in sessions && j in sessions && sessions[i].tokenHash == sessions[j].tokenHash != "" ==> i == j
  }

  /** What a scan of all sessions computes for the token index. */
  ghost function TokenScan(sessions: map<string, Session>): map<string, string>
    requires DistinctTokens(sessions)
  {
    map id | id in sessions && sessions[id].tokenHash != "" :: sessions[id].tokenHash := id
  }

  lemma TokensAgreeIsScan(sessions: map<string, Session>, tokens: map<string, string>)
    ensures TokensAgree(sessions, tokens) <==> DistinctTokens(sessions) && tokens == TokenScan(sessions)
  {
    if TokensAgree(sessions, tokens) {
      assert DistinctTokens(sessions);
      assert tokens.Keys == TokenScan(sessions).Keys;
    }
  }

  lemma UsersAgreeIsScan(sessions: map<string, Session>, users: map<string, set<string>>)
    ensures UsersAgree(sessions, users) <==> users == UserScan(sessions)
  {
    if UsersAgree(sessions, users) {
      assert forall u <- users :: users[u] == IdsOf(sessions, u);
      forall u | u in users ensures u in UserScan(sessions) {
        var id :| id in users[u];
        assert sessions[id].userId == u;
      }
      assert users.Keys == UserScan(sessions).Keys;
    }
    if users == UserScan(sessions) {
      forall u | u in users ensures users[u] != {} {
        var id :| id in sessions && sessions[id].userId == u;
        assert id in IdsOf(sessions, u);
      }
    }
  }

  /** Index agreement says that both indexes are exactly what a full scan of the sessions computes. */
  lemma IndexedIsScan(st: State)
    ensures Indexed(st) <==>
            && OwnIds(st.sessions) && DistinctTokens(st.sessions)
            && st.tokens == TokenScan(st.sessions) && st.users == UserScan(st.sessions)
  {
    TokensAgreeIsScan(st.sessions, st.tokens);
    UsersAgreeIsScan(st.sessions, st.users);
  }

  lemma IndexedDeterminesStore(a: State, b: State)
    requires Indexed(a) && Indexed(b) && a.sessions == b.sessions
    ensures a == b
  {
    IndexedIsScan(a);
    IndexedIsScan(b);
  }

  lemma CountIsScan(st: State, u: string)
    requires UsersAgree(st.sessions, st.users)
    ensures IndexCount(st.users, u) == |IdsOf(st.sessions, u)|
  {
    if u in st.users { assert st.users[u] == IdsOf(st.sessions, u); }
    else { assert IdsOf(st.sessions, u) == {}; }
  }

  lemma InsertKeepsTokens(ss: map<string, Session>, tokens: map<string, string>, s: Session)
    requires TokensAgree(ss, tokens) && s.id !in ss && s.tokenHash != "" && s.tokenHash !in tokens
    ensures TokensAgree(ss[s.id := s], tokens[s.tokenHash := s.id])
  {}

  lemma InsertKeepsUsers(ss: map<string, Session>, users: map<string, set<string>>, s: Session)
    requires UsersAgree(ss, users) && s.id !in ss
    ensures UsersAgree(ss[s.id := s], IndexAdd(users, s.userId, s.id))
  {
    var ss', users' := ss[s.id := s], IndexAdd(users, s.userId, s.id);
    forall u | u in users'
      ensures users'[u] != {}
      ensures forall id <- users'[u] :: id in ss' && ss'[id].userId == u
    {
      if u == s.userId { assert s.id in users'[u]; }
      else { assert users'[u] == users[u]; }
    }
  }

  lemma InsertKeepsIndexed(st: State, s: Session)
    requires Indexed(st)
    requires s.id !in st.sessions && (s.tokenHash != "" ==> s.tokenHash !in st.tokens)
    ensures Indexed(Insert(st, s))
  {
    if s.tokenHash != "" { InsertKeepsTokens(st.sessions, st.tokens, s); }
    InsertKeepsUsers(st.sessions, st.users, s);
  }

  lemma CreateKeepsIndexed(st: State, max: int, s: Session)
    requires Indexed(st)
    ensures Indexed(Create(st, max, s).0)
    ensures WithinQuota(st, max) ==> WithinQuota(Create(st, max, s).0, max)
  {
    hide Indexed, Acceptable;
    if Create(st, max, s).1.Ok? { InsertKeepsIndexed(st, s); }
  }

  lemma EvictKeepsIndexed(st: State, id: string)
    requires Indexed(st) && id in st.sessions
    ensures Indexed(Evict(st, id))
  {}

  lemma EvictAllKeepsUsers(st: State, ids: set<string>)
    requires UsersAgree(st.sessions, st.users)
    ensures UsersAgree(EvictAll(st, ids).sessions, EvictAll(st, ids).users)
  {
    var st' := EvictAll(st, ids);
    forall id | id in st'.sessions
      ensures st'.sessions[id].userId in st'.users && id in st'.users[st'.sessions[id].userId]
    {
      var u := st.sessions[id].userId;
      assert id in st.users[u] - IdsOf(st.sessions, u) * ids;
    }
    forall u, id | u in st'.users && id in st'.users[u]
      ensures id in st'.sessions && st'.sessions[id].userId == u
    {
      assert id in st.users[u] && id in IdsOf(st.sessions, u);
    }
  }

  lemma EvictAllKeepsTokens(st: State, ids: set<string>)
    requires TokensAgree(st.sessions, st.tokens)
    ensures TokensAgree(EvictAll(st, ids).sessions, EvictAll(st, ids).tokens)
  {
    var st' := EvictAll(st, ids);
    forall t | t in st'.tokens
      ensures st'.tokens[t] in st'.sessions && st'.sessions[st'.tokens[t]].tokenHash == t
    {
      var id := st.tokens[t];
      assert id in ids ==> t in TokensOf(st.sessions, ids);
    }
    forall id | id in st'.sessions && st'.sessions[id].tokenHash != ""
      ensures st'.sessions[id].tokenHash in st'.tokens && st'.tokens[st'.sessions[id].tokenHash] == id
    {
      var t := st.sessions[id].tokenHash;
      assert t !in TokensOf(st.sessions, ids);
    }
  }

  lemma EvictAllKeepsIndexed(st: State, ids: set<string>)
    requires Indexed(st)
    ensures Indexed(EvictAll(st, ids)) && EvictAll(st, ids).sessions == st.sessions - ids
  {
    EvictAllKeepsTokens(st, ids);
    EvictAllKeepsUsers(st, ids);
  }

  lemma UsersWithoutStep(ss: map<string, Session>, users: map<string, set<string>>, ids: set<string>, id: string)
    requires id in ss && id !in ids
    ensures IndexRemove(UsersWithout(ss, users, ids), ss[id].userId, id) == UsersWithout(ss, users, ids + {id})
  {
    var a := UsersWithout(ss, users, ids);
    var b := UsersWithout(ss, users, ids + {id});
    var v := ss[id].userId;
    forall u | u in users && u != v
      ensures u in a <==> u in b
      ensures u in a ==> a[u] == b[u]
    {
      assert IdsOf(ss, u) * (ids + {id}) == IdsOf(ss, u) * ids;
    }
    assert IdsOf(ss, v) * (ids + {id}) == IdsOf(ss, v) * ids + {id};
    if v in users {
      assert users[v] - (IdsOf(ss, v) * (ids + {id})) == users[v] - (IdsOf(ss, v) * ids) - {id};
    }
    assert IndexRemove(a, v, id) == b;
  }

  /** The loop of CleanupExpired: removing the sessions one after the other removes the whole set. */
  lemma EvictAllStep(st: State, ids: set<string>, id: string)
    requires id in st.sessions && id !in ids
    ensures id in EvictAll(st, ids).sessions
    ensures Evict(EvictAll(st, ids), id) == EvictAll(st, ids + {id})
  {
    UsersWithoutStep(st.sessions, st.users, ids, id);
    assert st.sessions - ids - {id} == st.sessions - (ids + {id});
    var t := st.sessions[id].tokenHash;
    assert TokensOf(st.sessions, ids + {id}) == TokensOf(st.sessions, ids) + (if t != "" then {t} else {});
    assert st.tokens - TokensOf(st.sessions, ids) - {t} == st.tokens - (TokensOf(st.sessions, ids) + {t});
  }

  lemma NothingEvicted(st: State)
    ensures EvictAll(st, {}) == st
  {
    assert st.sessions - {} == st.sessions;
    assert TokensOf(st.sessions, {}) == {};
    assert st.tokens - {} == st.tokens;
    forall u | u in st.users
      ensures st.users[u] - (IdsOf(st.sessions, u) * {}) == st.users[u] && IdsOf(st.sessions, u) * {} == {}
    {}
    assert UsersWithout(st.sessions, st.users, {}) == st.users;
  }

  lemma DropUserKeepsUsers(ss: map<string, Session>, users: map<string, set<string>>, u: string)
    requires UsersAgree(ss, users) && u in users
    ensures users[u] == IdsOf(ss, u)
    ensures UsersAgree(ss - users[u], users - {u})
  {}

  /** Deleting by user id is deleting the set of sessions that a scan finds for that user. */
  lemma DeleteByUserIsScan(st: State, u: string)
    requires Indexed(st)
    ensures DeleteByUser(st, u) == EvictAll(st, IdsOf(st.sessions, u))
  {
    var ids := IdsOf(st.sessions, u);
    if u in st.users {
      DropUserKeepsUsers(st.sessions, st.users, u);
      EvictAllKeepsUsers(st, ids);
      UsersAgreeIsScan(st.sessions - ids, st.users - {u});
      UsersAgreeIsScan(st.sessions - ids, UsersWithout(st.sessions, st.users, ids));
    } else {
      assert ids == {};
      NothingEvicted(st);
    }
  }

  /** The one branch of Update that an index-agreeing store does not survive: the version check passes and
      either the caller changed the user, or a token move frees the old hash and then finds the new one taken. */
  ghost predicate BreaksIndex(st: State, s: Session, expected: nat) {
    && Acceptable(s) && s.id in st.sessions && st.sessions[s.id].version == expected
    && var was := st.sessions[s.id];
       if was.tokenHash != s.tokenHash && s.tokenHash != "" && s.tokenHash in st.tokens
       then was.tokenHash != ""
       else was.userId != s.userId
  }

  /** Update keeps the indexes exact precisely when its arguments avoid that branch. */
  lemma UpdateKeepsIndexedIff(st: State, s: Session, expected: nat)
    requires Indexed(st)
    ensures Indexed(Update(st, s, expected).0) <==> !BreaksIndex(st, s, expected)
  {
    hide TokensAgree, UsersAgree, Acceptable;
    if Acceptable(s) && s.id in st.sessions && st.sessions[s.id].version == expected {
      var was := st.sessions[s.id];
      if was.tokenHash != s.tokenHash && s.tokenHash != "" && s.tokenHash in st.tokens {
        assert s.tokenHash in st.tokens - {was.tokenHash};
        if was.tokenHash != "" { FreedAndKept(st, s.id); }
      } else {
        UpdateKeepsTokens(st, s);
        UpdateKeepsUsersIff(st.sessions, st.users, s);
        assert OwnIds(st.sessions[s.id := IncrVersion(s)]);
      }
    }
  }

  /** A session whose mapping was dropped but that still carries the hash. */
  lemma FreedAndKept(st: State, id: string)
    requires id in st.sessions && st.sessions[id].tokenHash != ""
    ensures !TokensAgree(st.sessions, st.tokens - {st.sessions[id].tokenHash})
  {}

  lemma UpdateKeepsUsersIff(ss: map<string, Session>, users: map<string, set<string>>, s: Session)
    requires UsersAgree(ss, users) && s.id in ss
    ensures UsersAgree(ss[s.id := IncrVersion(s)], users) <==> ss[s.id].userId == s.userId
  {
    var ss' := ss[s.id := IncrVersion(s)];
    assert s.id in users[ss[s.id].userId] && ss'[s.id].userId == s.userId;
  }

  lemma UpdateKeepsTokens(st: State, s: Session)
    requires TokensAgree(st.sessions, st.tokens) && s.id in st.sessions
    requires var was := st.sessions[s.id];
             was.tokenHash == s.tokenHash || s.tokenHash == "" || s.tokenHash !in st.tokens
    ensures var was := st.sessions[s.id].tokenHash;
            TokensAgree(st.sessions[s.id := IncrVersion(s)],
                        Taken(Freed(st.tokens, was, s.tokenHash), was, s.tokenHash, s.id))
  {}
}
