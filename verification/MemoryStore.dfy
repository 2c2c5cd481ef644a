/** The in-memory store: the objects of src/internal/storage/memory/store.go and index.go. Each method is
    proved against the function of StoreModel that says what it does to the three maps. */
module MemoryStore {
  import opened Domain
  import M = StoreModel
  import StoreRuns

  function SetOf(list: seq<string>): set<string> {
    set x | x in list
  }

  predicate Distinct(list: seq<string>) {
    forall i, j | 0 <= i < j < |list| :: list[i] != list[j]
  }

  function IdsIn(list: seq<Session>): seq<string> {
    seq(|list|, i requires 0 <= i < |list| => list[i].id)
  }

  class UserIndex {
    var index: map<string, set<string>>

    constructor ()
      ensures index == map[]
    {
      index := map[];
    }

    method Add(userId: string, sessionId: string)
      modifies this
      ensures index == M.IndexAdd(old(index), userId, sessionId)
    {
      if userId !in index { index := index[userId := {}]; }
      index := index[userId := index[userId] + {sessionId}];
    }

    method Remove(userId: string, sessionId: string)
      modifies this
      ensures index == M.IndexRemove(old(index), userId, sessionId)
    {
      if userId !in index { return; }
      index := index[userId := index[userId] - {sessionId}];
      if |index[userId]| == 0 {
        assert old(index)[userId] - {sessionId} == {};
        assert index - {userId} == old(index) - {userId};
        index := index - {userId};
      }
    }

    /** The ids come in the unspecified order of a map iteration, so they are a set. */
    method Get(userId: string) returns (ids: set<string>)
      ensures ids == (if userId in index then index[userId] else {})
    {
      if userId !in index { return {}; }
      return index[userId];
    }

    method Count(userId: string) returns (n: nat)
      ensures n == M.IndexCount(index, userId)
    {
      if userId !in index { return 0; }
      return |index[userId]|;
    }

    method Clear(userId: string)
      modifies this
      ensures index == old(index) - {userId}
    {
      index := index - {userId};
    }
  }

  class Store {
    var sessions: map<string, Session>
    var tokens: map<string, string>
    var userIndex: UserIndex
    const maxSessionsPerUser: int

    ghost function Model(): M.State
      reads this, userIndex
    {
      M.State(sessions, tokens, userIndex.index)
    }

    constructor (max: int)
      ensures Model() == M.EMPTY && maxSessionsPerUser == max && fresh(userIndex)
    {
      sessions, tokens, maxSessionsPerUser := map[], map[], max;
      userIndex := new UserIndex();
    }

    method Create(s: Session) returns (r: M.Outcome)
      modifies this, userIndex
      ensures (Model(), r) == M.Create(old(Model()), maxSessionsPerUser, s) && userIndex == old(userIndex)
    {
      var valid := Validate(s);
      if !valid { return M.Failed(M.ErrValidation); }
      var n := userIndex.Count(s.userId);
      if n >= maxSessionsPerUser { return M.Failed(M.ErrQuotaExceeded); }
      if s.id in sessions { return M.Failed(M.ErrConflict); }
      if s.tokenHash != "" && s.tokenHash in tokens { return M.Failed(M.ErrTokenHashConflict); }
      sessions := sessions[s.id := s];
      if s.tokenHash != "" { tokens := tokens[s.tokenHash := s.id]; }
      userIndex.Add(s.userId, s.id);
      return M.Ok;
    }

    /** The caller's copy gets the stored version back; it is returned as `version`. */
    method Update(s: Session, expected: nat) returns (r: M.Outcome, version: nat)
      modifies this
      ensures (Model(), r) == M.Update(old(Model()), s, expected) && userIndex == old(userIndex)
      ensures r.Ok? ==> sessions == old(sessions)[s.id := s.(version := (s.version + 1) % 0x1_0000_0000_0000_0000)]
      ensures r.Failed? ==> sessions == old(sessions)
      ensures version == if r.Ok? then (s.version + 1) % 0x1_0000_0000_0000_0000 else s.version
    {
      version := s.version;
      var valid := Validate(s);
      if !valid { return M.Failed(M.ErrValidation), version; }
      if s.id !in sessions { return M.Failed(M.ErrNotFound), version; }
      var existing := sessions[s.id];
      if existing.version != expected { return M.Failed(M.ErrVersionConflict), version; }
      if existing.tokenHash != s.tokenHash {
        if existing.tokenHash != "" { tokens := tokens - {existing.tokenHash}; }
        if s.tokenHash != "" {
          if s.tokenHash in tokens { return M.Failed(M.ErrTokenHashConflict), version; }
          tokens := tokens[s.tokenHash := s.id];
        }
      }
      var clone := IncrVersion(s);
      sessions := sessions[s.id := clone];
      return M.Ok, clone.version;
    }

    method UpdateSession(s: Session) returns (r: M.Outcome)
      modifies this
      ensures (Model(), r) == M.UpdateSession(old(Model()), s) && userIndex == old(userIndex)
    {
      var valid := Validate(s);
      if !valid { return M.Failed(M.ErrValidation); }
      if s.id !in sessions { return M.Failed(M.ErrNotFound); }
      sessions := sessions[s.id := s];
      return M.Ok;
    }

    /** Pops a session and cleans up both indexes. */
    method Remove(id: string) returns (found: bool)
      modifies this, userIndex
      ensures found == (id in old(sessions)) && userIndex == old(userIndex)
      ensures Model() == if found then M.Evict(old(Model()), id) else old(Model())
    {
      if id !in sessions { return false; }
      var s := sessions[id];
      sessions := sessions - {id};
      if s.tokenHash != "" { tokens := tokens - {s.tokenHash}; }
      userIndex.Remove(s.userId, id);
      return true;
    }

    method Delete(id: string) returns (r: M.Outcome)
      modifies this, userIndex
      ensures (Model(), r) == M.Delete(old(Model()), id) && userIndex == old(userIndex)
    {
      var found := Remove(id);
      return if found then M.Ok else M.Failed(M.ErrNotFound);
    }

    method DeleteByToken(token: string) returns (r: M.Outcome)
      modifies this, userIndex
      ensures (Model(), r) == M.DeleteByToken(old(Model()), token) && userIndex == old(userIndex)
    {
      if token !in tokens { return M.Failed(M.ErrTokenInvalid); }
      var id := tokens[token];
      tokens := tokens - {token};
      if id !in sessions { return M.Failed(M.ErrNotFound); }
      var s := sessions[id];
      sessions := sessions - {id};
      userIndex.Remove(s.userId, id);
      return M.Ok;
    }

    method GetByToken(token: string, now: int) returns (r: M.Lookup)
      modifies this`tokens
      ensures (Model(), r) == M.GetByToken(old(Model()), token, now)
    {
      if token !in tokens { return M.Missing(M.ErrTokenInvalid); }
      var id := tokens[token];
      if id !in sessions {
        tokens := tokens - {token};
        return M.Missing(M.ErrTokenInvalid);
      }
      if IsExpired(sessions[id], now) { return M.Missing(M.ErrExpired); }
      return M.Found(sessions[id]);
    }

    /** Unexpired sessions of a user, each once. */
    method ListByUserID(userId: string, now: int) returns (r: seq<Session>)
      ensures M.OwnIds(sessions) ==>
        && SetOf(IdsIn(r)) == M.LiveIds(Model(), userId, now) && Distinct(IdsIn(r))
        && (forall s <- r :: s.id in sessions && sessions[s.id] == s)
    {
      var rest := userIndex.Get(userId);
      r := [];
      ghost var ids, kept := rest, [];
      while rest != {}
        invariant rest <= ids && Distinct(kept) && |kept| == |r|
        invariant forall x :: x in kept <==> x in ids - rest && x in sessions && !IsExpired(sessions[x], now)
        invariant forall k | 0 <= k < |r| :: kept[k] in sessions && r[k] == sessions[kept[k]]
      {
        var id :| id in rest;
        rest := rest - {id};
        if id in sessions && !IsExpired(sessions[id], now) {
          r := r + [sessions[id]];
          kept := kept + [id];
        }
      }
      assert SetOf(kept) == M.LiveIds(Model(), userId, now);
      if M.OwnIds(sessions) {
        assert forall k | 0 <= k < |r| :: sessions[kept[k]].id == kept[k];
        assert IdsIn(r) == kept;
      }
    }

    /** Pops one session and its token mapping; the user index is left to the caller. */
    method PopWithToken(id: string) returns (popped: bool)
      modifies this`sessions, this`tokens
      ensures popped == (id in old(sessions))
      ensures !popped ==> sessions == old(sessions) && tokens == old(tokens)
      ensures popped ==> sessions == old(sessions) - {id}
      ensures popped ==>
        (tokens == if old(sessions)[id].tokenHash != "" then old(tokens) - {old(sessions)[id].tokenHash}
         else old(tokens))
    {
      if id !in sessions { return false; }
      var s := sessions[id];
      sessions := sessions - {id};
      if s.tokenHash != "" { tokens := tokens - {s.tokenHash}; }
      return true;
    }

    /** The loop of DeleteByUserID. */
    method PopAll(ids: set<string>) returns (popped: nat)
      modifies this`sessions, this`tokens
      ensures (sessions, tokens) == M.Dropped(old(sessions), old(tokens), ids)
      ensures popped == Stored(old(sessions), ids)
    {
      hide M.Dropped, Stored;
      var rest := ids;
      popped := 0;
      ghost var seen: set<string> := {};
      DroppedNone(sessions, tokens);
      while rest != {}
        invariant seen !! rest && seen + rest == ids
        invariant (sessions, tokens) == M.Dropped(old(sessions), old(tokens), seen)
        invariant popped == Stored(old(sessions), seen)
      {
        var id :| id in rest;
        DroppedStep(old(sessions), old(tokens), seen, id);
        rest, seen := rest - {id}, seen + {id};
        var found := PopWithToken(id);
        if found { popped := popped + 1; }
      }
      assert seen == ids;
    }

    method DeleteByUserID(userId: string) returns (deleted: nat)
      modifies this, userIndex
      ensures Model() == M.DeleteByUser(old(Model()), userId) && userIndex == old(userIndex)
      ensures deleted == Stored(old(sessions), if userId in old(userIndex.index) then old(userIndex.index)[userId]
                                else {})
    {
      hide M.Dropped, Stored;
      DroppedNone(sessions, tokens);
      var ids := userIndex.Get(userId);
      if ids == {} { return 0; }
      deleted := PopAll(ids);
      userIndex.Clear(userId);
    }

    method CleanupExpired(now: int) returns (count: nat)
      modifies this, userIndex
      ensures Model() == M.CleanupExpired(old(Model()), now) && userIndex == old(userIndex)
      ensures count == |M.ExpiredIds(old(sessions), now)|
    {
      var toDelete := set id | id in sessions && IsExpired(sessions[id], now);
      var rest := toDelete;
      ghost var seen: set<string> := {};
      M.NothingEvicted(Model());
      while rest != {}
        invariant seen !! rest && seen + rest == toDelete
        invariant userIndex == old(userIndex)
        invariant Model() == M.EvictAll(old(Model()), seen)
      {
        var id :| id in rest;
        M.EvictAllStep(old(Model()), seen, id);
        rest, seen := rest - {id}, seen + {id};
        var gone := Remove(id);
      }
      assert seen == toDelete;
      return |toDelete|;
    }

    method LoadFromSnapshot(list: seq<Session>)
      modifies this
      ensures Model() == M.InsertAll(list) && fresh(userIndex)
    {
      sessions, tokens := map[], map[];
      userIndex := new UserIndex();
      for i := 0 to |list|
        invariant fresh(userIndex)
        invariant Model() == M.InsertAll(list[..i])
      {
        var s := list[i];
        assert list[..i + 1][..i] == list[..i];
        sessions := sessions[s.id := s];
        if s.tokenHash != "" { tokens := tokens[s.tokenHash := s.id]; }
        userIndex.Add(s.userId, s.id);
      }
      assert list[..|list|] == list;
    }

    /** All: every session once, in the order of the map iteration. */
    method All() returns (list: seq<Session>)
      ensures M.OwnIds(sessions) ==> StoreRuns.Lists(list, sessions)
      ensures |list| == |sessions|
    {
      list := [];
      var rest := sessions.Keys;
      ghost var done: map<string, Session> := map[];
      while rest != {}
        invariant rest <= sessions.Keys
        invariant done == map id | id in sessions && id !in rest :: sessions[id]
        invariant |list| + |rest| == |sessions|
        invariant M.OwnIds(sessions) ==> StoreRuns.Lists(list, done)
      {
        var id :| id in rest;
        rest := rest - {id};
        assert (list + [sessions[id]])[..|list|] == list;
        ghost var grown := done[id := sessions[id]];
        assert grown - {id} == done;
        list, done := list + [sessions[id]], grown;
      }
      assert done == sessions;
    }
  }

  lemma DroppedNone(ss: map<string, Session>, tokens: map<string, string>)
    ensures M.Dropped(ss, tokens, {}) == (ss, tokens) && Stored(ss, {}) == 0
  {
    assert ss - {} == ss && M.TokensOf(ss, {}) == {} && tokens - {} == tokens && ss.Keys * {} == {};
  }

  lemma MinusTwice<V>(m: map<string, V>, a: set<string>, b: set<string>)
    ensures m - (a + b) == m - a - b
  {}

  lemma DroppedStep(ss: map<string, Session>, tokens: map<string, string>, ids: set<string>, id: string)
    requires id !in ids
    ensures M.Dropped(ss, tokens, ids + {id}) ==
      var d := M.Dropped(ss, tokens, ids);
      if id !in d.0 then d
      else (d.0 - {id}, if d.0[id].tokenHash != "" then d.1 - {d.0[id].tokenHash} else d.1)
    ensures id in M.Dropped(ss, tokens, ids).0 <==> id in ss
    ensures Stored(ss, ids + {id}) == Stored(ss, ids) + (if id in ss then 1 else 0)
  {
    hide Stored;
    StoredStep(ss, ids, id);
    MinusTwice(ss, ids, {id});
    if id in ss && ss[id].tokenHash != "" {
      assert M.TokensOf(ss, ids + {id}) == M.TokensOf(ss, ids) + {ss[id].tokenHash};
      MinusTwice(tokens, M.TokensOf(ss, ids), {ss[id].tokenHash});
    } else {
      assert M.TokensOf(ss, ids + {id}) == M.TokensOf(ss, ids);
      assert id !in ss ==> ss - ids - {id} == ss - ids;
    }
  }

  /** How many of the ids are stored. */
  function Stored(ss: map<string, Session>, ids: set<string>): nat {
    |ss.Keys * ids|
  }

  lemma StoredStep(ss: map<string, Session>, ids: set<string>, id: string)
    requires id !in ids
    ensures Stored(ss, ids + {id}) == Stored(ss, ids) + (if id in ss then 1 else 0)
  {
    assert ss.Keys * (ids + {id}) == ss.Keys * ids + (if id in ss then {id} else {});
  }
}
