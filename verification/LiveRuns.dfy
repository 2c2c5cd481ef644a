/** Live runs of the storage engine (src/internal/storage/engine.go): every operation goes to the log first
    and to the memory store second, and the log keeps it even when the store refuses it. */
module LiveRuns {
  import opened Domain
  import opened StoreModel
  import opened Entries

  /** `order` is the order in which ListByUserID happened to return the sessions. */
  datatype Op =
    | Create(s: Session)
    | Update(s: Session, expected: nat)
    | Delete(id: string)
    | DeleteByUser(userId: string, order: seq<string>)
    | DeleteExpired

  datatype Timed = Timed(at: int, op: Op)

  /** The store in memory, and the log as a reader will decode it. */
  datatype Live = Live(store: State, log: seq<Entry>)

  function DeleteEntries(order: seq<string>, now: int): seq<Entry> {
    seq(|order|, i requires 0 <= i < |order| => NewDeleteEntry(order[i], now))
  }

  /** What an operation appends to the log. */
  function Logged(x: Timed): seq<Entry> {
    match x.op
    case Create(s) => [Wire(NewCreateEntry(s, x.at))]
    case Update(s, _) => [Wire(NewUpdateEntry(s, x.at))]
    case Delete(id) => [NewDeleteEntry(id, x.at)]
    case DeleteByUser(_, order) => DeleteEntries(order, x.at)
    case DeleteExpired => []
  }

  /** Field by field: an entry carries the time, the id, the session's version and, but for a DELETE, the session
      without the three fields that JSON leaves out. Cleanup logs nothing. */
  lemma LoggedIs(x: Timed)
    ensures match x.op
            case Create(s) =>
              Logged(x) ==
              [Entry(OpCreate, x.at, s.id, s.version, Some(s.(shardId := 0, ttl := 0, isDeleted := false)))]
            case Update(s, _) =>
              Logged(x) ==
              [Entry(OpUpdate, x.at, s.id, s.version, Some(s.(shardId := 0, ttl := 0, isDeleted := false)))]
            case Delete(id) => Logged(x) == [Entry(OpDelete, x.at, id, 0, None)]
            case DeleteByUser(_, order) =>
              |Logged(x)| == |order| &&
              forall i | 0 <= i < |order| :: Logged(x)[i] == Entry(OpDelete, x.at, order[i], 0, None)
            case DeleteExpired => Logged(x) == []
  {}

  ghost function StoreStep(st: State, max: int, x: Timed): State {
    match x.op
    case Create(s) => StoreModel.Create(st, max, s).0
    case Update(s, expected) => StoreModel.Update(st, s, expected).0
    case Delete(id) => StoreModel.Delete(st, id).0
    case DeleteByUser(u, _) => StoreModel.DeleteByUser(st, u)
    case DeleteExpired => CleanupExpired(st, x.at)
  }

  ghost function Run(max: int, ops: seq<Timed>): Live {
    if ops == [] then Live(EMPTY, []) else
    var before := Run(max, ops[..|ops| - 1]);
    Live(StoreStep(before.store, max, ops[|ops| - 1]), before.log + Logged(ops[|ops| - 1]))
  }

  // ---------------------------------------------------------------- replaying everything

  function StripAll(st: State): State {
    st.(sessions := map id | id in st.sessions :: Strip(st.sessions[id]))
  }

  lemma PrevVersionOfNext(v: nat)
    requires v < TWO_TO_64
    ensures PrevVersion((v + 1) % TWO_TO_64) == v
  {}

  lemma StripCreate(st: State, max: int, s: Session)
    ensures StoreModel.Create(StripAll(st), max, Strip(s)).0 == StripAll(StoreModel.Create(st, max, s).0)
  {
    hide Acceptable, IndexAdd, IndexCount;
    StripAcceptable(s);
    assert StripAll(Insert(st, s)).sessions == StripAll(st).sessions[s.id := Strip(s)];
  }

  lemma StripUpdate(st: State, s: Session, expected: nat)
    ensures StoreModel.Update(StripAll(st), Strip(s), expected).0 == StripAll(StoreModel.Update(st, s, expected).0)
  {
    hide Acceptable, Taken, Freed;
    StripAcceptable(s);
    if s.id in st.sessions {
      StripPut(st, s);
    }
  }

  lemma StripPut(st: State, s: Session)
    ensures StripAll(st.(sessions := st.sessions[s.id := IncrVersion(s)])).sessions ==
            StripAll(st).sessions[Strip(s).id := IncrVersion(Strip(s))]
    ensures Strip(s).id == s.id && Strip(s).tokenHash == s.tokenHash
  {}

  lemma StripDelete(st: State, id: string)
    ensures StoreModel.Delete(StripAll(st), id).0 == StripAll(StoreModel.Delete(st, id).0)
  {
    if id in st.sessions {
      assert StripAll(Evict(st, id)).sessions == StripAll(st).sessions - {id};
    }
  }

  /** Operations that log one entry each, with the version law of the services: the session handed to Update
      is one version ahead of the expected one. */
  predicate UnderVersionLaw(x: Timed) {
    match x.op
    case Create(_) => true
    case Update(s, expected) => expected < TWO_TO_64 && s.version == (expected + 1) % TWO_TO_64
    case Delete(_) => true
    case DeleteByUser(_, _) => false
    case DeleteExpired => false
  }

  lemma StepReplays(st: State, max: int, x: Timed)
    requires UnderVersionLaw(x)
    ensures |Logged(x)| == 1 && Apply(StripAll(st), max, Logged(x)[0]) == StripAll(StoreStep(st, max, x))
  {
    match x.op
    case Create(s) => StripCreate(st, max, s);
    case Update(s, expected) =>
      PrevVersionOfNext(expected);
      StripUpdate(st, s, expected);
    case Delete(id) => StripDelete(st, id);
  }

  /** Replay equals live: for every run of Create, Update and Delete under the version law, folding applyEntry
      over the whole log rebuilds the store -- sessions, versions, token index and user index -- up to the
      three fields that the log does not carry. Operations that the store refused are in the log too. */
  lemma {:induction false} ReplayEqualsLive(max: int, ops: seq<Timed>)
    requires forall i | 0 <= i < |ops| :: UnderVersionLaw(ops[i])
    ensures ApplyAll(EMPTY, max, Run(max, ops).log) == StripAll(Run(max, ops).store)
  {
    if ops == [] {
      assert StripAll(EMPTY).sessions == map[];
    } else {
      var n := |ops| - 1;
      var before := Run(max, ops[..n]);
      ReplayEqualsLive(max, ops[..n]);
      StepReplays(before.store, max, ops[n]);
      var log := before.log + Logged(ops[n]);
      assert log[..|log| - 1] == before.log;
    }
  }
}
