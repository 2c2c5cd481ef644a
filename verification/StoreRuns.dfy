/** What holds in every state that a run of store operations reaches. */
module StoreRuns {
  import opened Domain
  import opened StoreModel

  datatype Op =
    | OpCreate(s: Session)
    | OpUpdate(s: Session, expected: nat)
    | OpUpdateSession(s: Session)
    | OpDelete(id: string)
    | OpDeleteByToken(token: string)
    | OpDeleteByUser(userId: string)
    | OpCleanup(now: int)
    | OpGetByToken(token: string, now: int)

  ghost function Step(st: State, max: int, op: Op): State {
    match op
    case OpCreate(s) => Create(st, max, s).0
    case OpUpdate(s, expected) => Update(st, s, expected).0
    case OpUpdateSession(s) => UpdateSession(st, s).0
    case OpDelete(id) => Delete(st, id).0
    case OpDeleteByToken(token) => DeleteByToken(st, token).0
    case OpDeleteByUser(u) => DeleteByUser(st, u)
    case OpCleanup(now) => CleanupExpired(st, now)
    case OpGetByToken(token, now) => GetByToken(st, token, now).0
  }

  /** What an operation must respect for the indexes to stay exact; only the two updates can break them. */
  ghost predicate Respectful(st: State, op: Op) {
    match op
    case OpUpdate(s, expected) => !BreaksIndex(st, s, expected)
    case OpUpdateSession(s) =>
      Acceptable(s) && s.id in st.sessions ==>
        st.sessions[s.id].userId == s.userId && st.sessions[s.id].tokenHash == s.tokenHash
    case _ => true
  }

  ghost function Run(max: int, ops: seq<Op>): State {
    if ops == [] then EMPTY else Step(Run(max, ops[..|ops| - 1]), max, ops[|ops| - 1])
  }

  ghost predicate RespectfulRun(max: int, ops: seq<Op>) {
    ops == [] ||
    (RespectfulRun(max, ops[..|ops| - 1]) && Respectful(Run(max, ops[..|ops| - 1]), ops[|ops| - 1]))
  }

  /** The indexes are exact after every operation of the run. */
  ghost predicate AlwaysIndexed(max: int, ops: seq<Op>) {
    Indexed(Run(max, ops)) && (ops == [] || AlwaysIndexed(max, ops[..|ops| - 1]))
  }

  lemma UpdateSessionKeepsIndexedIff(st: State, s: Session)
    requires Indexed(st)
    ensures Indexed(UpdateSession(st, s).0) <==> Respectful(st, OpUpdateSession(s))
  {
    if Acceptable(s) && s.id in st.sessions {
      ReplaceKeepsTokensIff(st.sessions, st.tokens, s);
      ReplaceKeepsUsersIff(st.sessions, st.users, s);
    }
  }

  lemma ReplaceKeepsTokensIff(ss: map<string, Session>, tokens: map<string, string>, s: Session)
    requires TokensAgree(ss, tokens) && s.id in ss
    ensures TokensAgree(ss[s.id := s], tokens) <==> ss[s.id].tokenHash == s.tokenHash
  {
    var was, ss' := ss[s.id].tokenHash, ss[s.id := s];
    assert ss'[s.id] == s;
    if was != "" && was != s.tokenHash {
      assert was in tokens && tokens[was] == s.id;
      assert ss'[tokens[was]].tokenHash != was;
    }
    if was == "" && s.tokenHash != "" && s.tokenHash in tokens {
      assert ss[tokens[s.tokenHash]].tokenHash == s.tokenHash;
    }
  }

  lemma ReplaceKeepsUsersIff(ss: map<string, Session>, users: map<string, set<string>>, s: Session)
    requires UsersAgree(ss, users) && s.id in ss
    ensures UsersAgree(ss[s.id := s], users) <==> ss[s.id].userId == s.userId
  {
    if ss[s.id].userId != s.userId {
      assert s.id in users[ss[s.id].userId] && ss[s.id := s][s.id].userId == s.userId;
    }
  }

  /** With exact indexes, deleting by token is deleting the session that carries the token. */
  lemma DeleteByTokenIsDelete(st: State, token: string)
    requires Indexed(st)
    ensures token in st.tokens ==> DeleteByToken(st, token) == Delete(st, st.tokens[token])
    ensures token !in st.tokens ==> DeleteByToken(st, token) == (st, Failed(ErrTokenInvalid))
  {}

  /** From exact indexes, one step leads to exact indexes precisely when it is respectful. */
  lemma StepKeepsIndexedIff(st: State, max: int, op: Op)
    requires Indexed(st)
    ensures Indexed(Step(st, max, op)) <==> Respectful(st, op)
  {
    match op
    case OpCreate(s) => CreateKeepsIndexed(st, max, s);
    case OpUpdate(s, expected) => UpdateKeepsIndexedIff(st, s, expected);
    case OpUpdateSession(s) => UpdateSessionKeepsIndexedIff(st, s);
    case OpDelete(id) => if id in st.sessions { EvictKeepsIndexed(st, id); }
    case OpDeleteByToken(token) =>
      DeleteByTokenIsDelete(st, token);
      if token in st.tokens { EvictKeepsIndexed(st, st.tokens[token]); }
    case OpDeleteByUser(u) =>
      DeleteByUserIsScan(st, u);
      EvictAllKeepsIndexed(st, IdsOf(st.sessions, u));
    case OpCleanup(now) => EvictAllKeepsIndexed(st, ExpiredIds(st.sessions, now));
    case OpGetByToken(token, now) =>
  }

  /** No operation but Create adds to a user's set. */
  lemma StepKeepsQuota(st: State, max: int, op: Op)
    requires Indexed(st) && WithinQuota(st, max)
    ensures WithinQuota(Step(st, max, op), max)
  {
    var st' := Step(st, max, op);
    match op
    case OpCreate(s) => CreateKeepsIndexed(st, max, s);
    case OpDeleteByToken(token) => DeleteByTokenIsDelete(st, token);
    case OpCleanup(now) =>
      forall u | u in st'.users ensures |st'.users[u]| <= max { SubsetSize(st'.users[u], st.users[u]); }
    case _ =>
  }

  lemma {:induction false} SubsetSize(a: set<string>, b: set<string>)
    requires a <= b
    ensures |a| <= |b|
  {
    if a != {} {
      var x :| x in a;
      SubsetSize(a - {x}, b - {x});
    }
  }

  /** Index agreement over whole runs: the indexes are exact in every state of a run if and only if no
      update of the run takes the breaking branch; and then the quota holds as well. */
  lemma {:induction false} RunsKeepIndexesIff(max: nat, ops: seq<Op>)
    ensures RespectfulRun(max, ops) <==> AlwaysIndexed(max, ops)
    ensures RespectfulRun(max, ops) ==> WithinQuota(Run(max, ops), max)
  {
    if ops != [] {
      var before := ops[..|ops| - 1];
      RunsKeepIndexesIff(max, before);
      if AlwaysIndexed(max, before) {
        StepKeepsIndexedIff(Run(max, before), max, ops[|ops| - 1]);
        StepKeepsQuota(Run(max, before), max, ops[|ops| - 1]);
      }
    }
  }

  /** In such a state GetByToken never meets an orphan: it changes nothing, and it finds exactly the
      unexpired session that carries the hash. */
  lemma GetByTokenIsScan(st: State, token: string, now: int)
    requires Indexed(st)
    ensures GetByToken(st, token, now).0 == st
    ensures forall s :: GetByToken(st, token, now).1 == Found(s) <==>
              token != "" && s.id in st.sessions && st.sessions[s.id] == s && s.tokenHash == token && !IsExpired(s, now)
  {}

  /** A list that names each session of a map once, in some order. */
  ghost predicate Lists(list: seq<Session>, sessions: map<string, Session>) {
    if list == [] then sessions == map[] else
    var s := list[|list| - 1];
    s.id in sessions && sessions[s.id] == s && Lists(list[..|list| - 1], sessions - {s.id})
  }

  lemma EvictThenInsert(st: State, id: string)
    requires Indexed(st) && id in st.sessions
    ensures Insert(Evict(st, id), st.sessions[id]) == st
  {
    var s := st.sessions[id];
    assert (st.sessions - {id})[id := s] == st.sessions;
    if s.tokenHash != "" { assert (st.tokens - {s.tokenHash})[s.tokenHash := id] == st.tokens; }
    assert st.users[s.userId] - {id} + {id} == st.users[s.userId];
    assert IndexAdd(IndexRemove(st.users, s.userId, id), s.userId, id) == st.users;
  }

  lemma EvictKeepsQuota(st: State, max: int, id: string)
    requires id in st.sessions && st.sessions[id].userId in st.users && id in st.users[st.sessions[id].userId]
    requires WithinQuota(st, max)
    ensures WithinQuota(Evict(st, id), max)
    ensures IndexCount(Evict(st, id).users, st.sessions[id].userId) == |st.users[st.sessions[id].userId]| - 1
  {}

  /** A session that just left a healthy store is accepted back, and the store is what it was. */
  lemma EvictThenCreate(st: State, max: int, id: string)
    requires Indexed(st) && WithinQuota(st, max) && AllAcceptable(st) && id in st.sessions
    ensures Create(Evict(st, id), max, st.sessions[id]) == (st, Ok)
  {
    EvictThenInsert(st, id);
    EvictKeepsQuota(st, max, id);
  }

  /** Loading a snapshot of a healthy store in any order, through Create or without checks, gives that store back. */
  lemma {:induction false} LoadIsExact(list: seq<Session>, st: State, max: int)
    requires Lists(list, st.sessions)
    requires Indexed(st) && WithinQuota(st, max) && AllAcceptable(st)
    ensures CreateAll(max, list) == InsertAll(list) == st
    decreases |list|
  {
    if list == [] {
      IndexedDeterminesStore(st, EMPTY);
    } else {
      var s := list[|list| - 1];
      EvictThenCreate(st, max, s.id);
      EvictThenInsert(st, s.id);
      EvictKeepsIndexed(st, s.id);
      EvictKeepsQuota(st, max, s.id);
      LoadIsExact(list[..|list| - 1], Evict(st, s.id), max);
    }
  }
}
