/** Recovery from a snapshot and a log suffix (Recover and replayWAL in src/internal/storage/engine.go):
    what the rebuilt store has in common with the store that was lost. */
module Recovery {
  import opened Domain
  import opened StoreModel
  import StoreRuns
  import opened Entries
  import opened LiveRuns

  /** The sessions that a replay at clock `now` does not leave out. An expiry of zero is not among them. */
  predicate Kept(s: Session, now: int) {
    !(s.expiresAt < now)
  }

  /** What stays the same over the life of a session id: whose it is, its token, and whether its CREATE is kept. */
  datatype Owner = Owner(userId: string, tokenHash: string, kept: bool)

  predicate BelongsTo(s: Session, o: Owner) {
    s.userId == o.userId && s.tokenHash == o.tokenHash
  }

  ghost predicate Owned(st: State, owner: string -> Owner) {
    forall id <- st.sessions :: BelongsTo(st.sessions[id], owner(id))
  }

  /** The sessions that an operation takes out of the store without a DELETE in the log. */
  function Unlogged(st: State, x: Timed): set<string> {
    match x.op
    case DeleteByUser(u, _) => IdsOf(st.sessions, u) * ExpiredIds(st.sessions, x.at)
    case DeleteExpired => ExpiredIds(st.sessions, x.at)
    case _ => {}
  }

  /** The list names exactly the members of a set. */
  predicate Orders(order: seq<string>, ids: set<string>) {
    && (forall i | 0 <= i < |order| :: order[i] in ids)
    && (forall id <- ids :: id in order)
  }

  predicate Fresh(log: seq<Entry>, id: string) {
    forall i | 0 <= i < |log| :: log[i].sessionId != id
  }

  /** What every operation of a run respects: ids are never created again, updates keep user and token and follow the
      version law, and a deletion by user logs the sessions that it lists. */
  ghost predicate Ordinary(live: Live, now: int, owner: string -> Owner, x: Timed) {
    match x.op
    case Create(s) =>
      && Fresh(live.log, s.id)
      && (Acceptable(s) ==> BelongsTo(s, owner(s.id)) && (owner(s.id).kept <==> Kept(s, now)))
    case Update(s, expected) =>
      && s.version == expected + 1 && expected + 2 < TWO_TO_64
      && (Acceptable(s) ==> BelongsTo(s, owner(s.id)))
    case Delete(id) => true
    case DeleteByUser(u, order) => Orders(order, LiveIds(live.store, u, x.at))
    case DeleteExpired => true
  }

  /** What it must respect in addition for recovery at `now` to be exact: nothing that a replay keeps leaves the store
      unlogged, no CREATE that a replay keeps is refused, and no update is ahead of what is stored. */
  ghost predicate Sound(live: Live, max: int, now: int, owner: string -> Owner, x: Timed) {
    && Ordinary(live, now, owner, x)
    && (forall id <- Unlogged(live.store, x) :: !owner(id).kept)
    && (x.op.Create? && Acceptable(x.op.s) && Kept(x.op.s, now) ==> StoreModel.Create(live.store, max, x.op.s).1.Ok?)
    && (x.op.Update? && x.op.s.id in live.store.sessions ==> x.op.expected <= live.store.sessions[x.op.s.id].version)
  }

  ghost predicate OrdinaryRun(max: int, now: int, owner: string -> Owner, ops: seq<Timed>) {
    ops == [] ||
    (OrdinaryRun(max, now, owner, ops[..|ops| - 1]) && Ordinary(Run(max, ops[..|ops| - 1]), now, owner, ops[|ops| - 1]))
  }

  ghost predicate SoundRun(max: int, now: int, owner: string -> Owner, ops: seq<Timed>) {
    ops == [] ||
    (SoundRun(max, now, owner, ops[..|ops| - 1]) &&
     Sound(Run(max, ops[..|ops| - 1]), max, now, owner, ops[|ops| - 1]))
  }

  lemma {:induction false} SoundIsOrdinary(max: int, now: int, owner: string -> Owner, ops: seq<Timed>)
    requires SoundRun(max, now, owner, ops)
    ensures OrdinaryRun(max, now, owner, ops)
  {
    hide Ordinary, Run;
    if ops != [] {
      SoundIsOrdinary(max, now, owner, ops[..|ops| - 1]);
    }
  }

  /** An unlogged cleanup that is not ahead of the recovery clock meets its condition as long as no session that
      was created to outlive that clock has been shortened to expire before it. */
  lemma OnTimeCleanupIsSound(live: Live, max: int, now: int, owner: string -> Owner, x: Timed)
    requires x.at <= now && x.op.DeleteExpired?
    requires forall id <- live.store.sessions :: owner(id).kept ==> Kept(live.store.sessions[id], now)
    ensures Sound(live, max, now, owner, x)
  {}

  // ---------------------------------------------------------------- what a live run keeps

  ghost predicate Healthy(st: State, max: int) {
    Indexed(st) && WithinQuota(st, max) && AllAcceptable(st)
  }

  predicate Deletes(e: Entry, id: string) {
    e.op == OpDelete && e.sessionId == id
  }

  predicate DeletedFrom(log: seq<Entry>, i: nat, id: string) {
    exists j :: i <= j < |log| && Deletes(log[j], id)
  }

  ghost predicate Updates(e: Entry) {
    e.op == OpUpdate && e.session != None && Acceptable(e.session.value)
  }

  ghost predicate Creates(e: Entry, now: int) {
    e.op == OpCreate && e.session != None && Acceptable(e.session.value) && Kept(e.session.value, now)
  }

  /** The shape of every logged entry. */
  ghost predicate WellFormed(e: Entry, now: int, owner: string -> Owner) {
    && e.op != OpUnspecified
    && (e.op != OpDelete ==> e.session != None)
    && (e.session != None ==>
          && e.session.value.id == e.sessionId
          && (Acceptable(e.session.value) ==> BelongsTo(e.session.value, owner(e.sessionId))))
    && (e.op == OpCreate && Acceptable(e.session.value) ==> (owner(e.sessionId).kept <==> Kept(e.session.value, now)))
    && (e.op == OpUpdate ==> 1 <= e.session.value.version < TWO_TO_64 - 1)
  }

  ghost predicate Formed(log: seq<Entry>, now: int, owner: string -> Owner) {
    forall i | 0 <= i < |log| :: WellFormed(log[i], now, owner)
  }

  /** A deleted id is gone for good. */
  predicate DeletesHold(live: Live) {
    forall i | 0 <= i < |live.log| :: live.log[i].op == OpDelete ==> live.log[i].sessionId !in live.store.sessions
  }

  /** A stored session is ahead of every logged update of it. */
  ghost predicate UpdatesBehind(live: Live) {
    forall i | 0 <= i < |live.log| && Updates(live.log[i]) ::
      live.log[i].sessionId in live.store.sessions ==>
        live.log[i].session.value.version <= live.store.sessions[live.log[i].sessionId].version
  }

  /** A session that was created and would not be skipped is either stored or has a later DELETE in the log. */
  ghost predicate CreatesHold(live: Live, now: int) {
    forall i | 0 <= i < |live.log| && Creates(live.log[i], now) ::
      live.log[i].sessionId in live.store.sessions || DeletedFrom(live.log, i + 1, live.log[i].sessionId)
  }

  predicate StoredAreLogged(live: Live) {
    forall id <- live.store.sessions :: !Fresh(live.log, id)
  }

  ghost predicate LiveInv(live: Live, max: int, now: int, owner: string -> Owner) {
    && Healthy(live.store, max)
    && Owned(live.store, owner)
    && Formed(live.log, now, owner)
    && DeletesHold(live)
    && UpdatesBehind(live)
    && CreatesHold(live, now)
    && StoredAreLogged(live)
  }

  predicate Accepts(st: State, id: string, expected: nat) {
    id in st.sessions && st.sessions[id].version == expected
  }

  /** An update that keeps the token either replaces the session or changes nothing. */
  lemma UpdateInPlace(st: State, s: Session, expected: nat)
    requires s.id in st.sessions && Acceptable(s) ==> st.sessions[s.id].tokenHash == s.tokenHash
    ensures StoreModel.Update(st, s, expected).0 ==
            if Acceptable(s) && Accepts(st, s.id, expected)
            then st.(sessions := st.sessions[s.id := IncrVersion(s)]) else st
  {}

  lemma UpdateKeepsOwned(st: State, owner: string -> Owner, s: Session, expected: nat)
    requires Indexed(st) && Owned(st, owner)
    requires Acceptable(s) ==> BelongsTo(s, owner(s.id))
    ensures var st' := StoreModel.Update(st, s, expected).0; Indexed(st') && Owned(st', owner)
    ensures StoreModel.Update(st, s, expected).0 ==
            if Acceptable(s) && Accepts(st, s.id, expected)
            then st.(sessions := st.sessions[s.id := IncrVersion(s)]) else st
  {
    if s.id in st.sessions { assert BelongsTo(st.sessions[s.id], owner(s.id)); }
    UpdateInPlace(st, s, expected);
    UpdateKeepsIndexedIff(st, s, expected);
  }

  lemma UpdateIsHealthy(st: State, max: int, owner: string -> Owner, s: Session, expected: nat)
    requires Healthy(st, max) && Owned(st, owner)
    requires Acceptable(s) ==> BelongsTo(s, owner(s.id))
    ensures var st' := StoreModel.Update(st, s, expected).0; Healthy(st', max) && Owned(st', owner)
  {
    UpdateKeepsOwned(st, owner, s, expected);
    assert Acceptable(IncrVersion(s)) <==> Acceptable(s);
  }

  lemma EvictAllIsHealthy(st: State, max: int, owner: string -> Owner, ids: set<string>)
    requires Healthy(st, max) && Owned(st, owner)
    ensures Healthy(EvictAll(st, ids), max) && Owned(EvictAll(st, ids), owner)
  {
    EvictAllKeepsIndexed(st, ids);
    var st' := EvictAll(st, ids);
    forall u | u in st'.users ensures |st'.users[u]| <= max {
      StoreRuns.SubsetSize(st'.users[u], st.users[u]);
    }
  }

  lemma EvictIsHealthy(st: State, max: int, owner: string -> Owner, id: string)
    requires Healthy(st, max) && Owned(st, owner) && id in st.sessions
    ensures Healthy(Evict(st, id), max) && Owned(Evict(st, id), owner)
  {
    EvictKeepsIndexed(st, id);
    StoreRuns.EvictKeepsQuota(st, max, id);
  }

  lemma CreateIsHealthy(st: State, max: int, owner: string -> Owner, s: Session)
    requires Healthy(st, max) && Owned(st, owner)
    requires Acceptable(s) ==> BelongsTo(s, owner(s.id))
    ensures var st' := StoreModel.Create(st, max, s).0; Healthy(st', max) && Owned(st', owner)
  {
    hide Indexed, WithinQuota;
    CreateKeepsIndexed(st, max, s);
  }

  lemma StepIsHealthy(live: Live, max: int, now: int, owner: string -> Owner, x: Timed)
    requires Healthy(live.store, max) && Owned(live.store, owner) && Ordinary(live, now, owner, x)
    ensures Healthy(StoreStep(live.store, max, x), max) && Owned(StoreStep(live.store, max, x), owner)
  {
    var st := live.store;
    match x.op
    case Create(s) => CreateIsHealthy(st, max, owner, s);
    case Update(s, expected) => UpdateIsHealthy(st, max, owner, s, expected);
    case Delete(id) => if id in st.sessions { EvictIsHealthy(st, max, owner, id); }
    case DeleteByUser(u, _) =>
      DeleteByUserIsScan(st, u);
      EvictAllIsHealthy(st, max, owner, IdsOf(st.sessions, u));
    case DeleteExpired => EvictAllIsHealthy(st, max, owner, ExpiredIds(st.sessions, x.at));
  }

  /** How one step changes the sessions: only a Create adds an id, and versions never go back. */
  ghost predicate Advances(ss: map<string, Session>, ss': map<string, Session>, x: Timed) {
    forall id <- ss' ::
      || (id in ss && ss[id].version <= ss'[id].version)
      || (id !in ss && x.op.Create? && id == x.op.s.id && Acceptable(x.op.s))
  }

  lemma StepAdvances(st: State, max: int, x: Timed)
    requires x.op.Update? ==> x.op.s.version == x.op.expected + 1 && x.op.expected + 2 < TWO_TO_64
    ensures Advances(st.sessions, StoreStep(st, max, x).sessions, x)
  {
    hide Advances, Acceptable, Insert, IndexCount, Taken, Freed, IndexRemove, UsersWithout;
    var ss, ss' := st.sessions, StoreStep(st, max, x).sessions;
    match x.op {
      case Create(s) =>
        assert ss' == ss || (Acceptable(s) && s.id !in ss && ss' == ss[s.id := s]) by { CreateShape(st, max, s); }
        if ss' != ss { AddingAdvances(ss, x); } else { FewerAdvances(ss, ss', x); }
      case Update(s, expected) =>
        if ss' == ss[s.id := IncrVersion(s)] && s.id in ss && ss[s.id].version == expected {
          BumpAdvances(ss, x);
        } else {
          FewerAdvances(ss, ss', x);
        }
      case Delete(id) =>
        assert ss' == ss - {id};
        FewerAdvances(ss, ss', x);
      case DeleteByUser(u, _) =>
        assert ss' == ss || ss' == ss - st.users[u];
        FewerAdvances(ss, ss', x);
      case DeleteExpired =>
        assert ss' == ss - ExpiredIds(ss, x.at);
        FewerAdvances(ss, ss', x);
    }
  }

  lemma CreateShape(st: State, max: int, s: Session)
    ensures var ss' := StoreModel.Create(st, max, s).0.sessions;
            ss' == st.sessions || (Acceptable(s) && s.id !in st.sessions && ss' == st.sessions[s.id := s])
  {}

  lemma FewerAdvances(ss: map<string, Session>, ss': map<string, Session>, x: Timed)
    requires forall id <- ss' :: id in ss && ss'[id] == ss[id]
    ensures Advances(ss, ss', x)
  {}

  lemma AddingAdvances(ss: map<string, Session>, x: Timed)
    requires x.op.Create? && Acceptable(x.op.s) && x.op.s.id !in ss
    ensures Advances(ss, ss[x.op.s.id := x.op.s], x)
  {}

  lemma BumpAdvances(ss: map<string, Session>, x: Timed)
    requires x.op.Update? && x.op.s.version == x.op.expected + 1 && x.op.expected + 2 < TWO_TO_64
    requires x.op.s.id in ss && ss[x.op.s.id].version == x.op.expected
    ensures Advances(ss, ss[x.op.s.id := IncrVersion(x.op.s)], x)
  {}

  /** A session that would not be skipped only leaves the store with a DELETE in the log. */
  lemma RemovalIsLogged(live: Live, max: int, now: int, owner: string -> Owner, x: Timed, id: string)
    requires Indexed(live.store) && Owned(live.store, owner) && Sound(live, max, now, owner, x)
    requires id in live.store.sessions && id !in StoreStep(live.store, max, x).sessions && owner(id).kept
    ensures DeletedFrom(Logged(x), 0, id)
  {
    var st := live.store;
    assert id !in Unlogged(st, x);
    match x.op
    case Create(s) => assert false;
    case Update(s, expected) => assert false;
    case Delete(_) => assert Deletes(Logged(x)[0], id);
    case DeleteByUser(u, order) =>
      assert id in LiveIds(st, u, x.at) by { DeleteByUserIsScan(st, u); }
      hide Indexed, DeletedFrom;
      OrderDeletes(order, x.at, id);
    case DeleteExpired => assert false;
  }

  lemma OrderDeletes(order: seq<string>, at: int, id: string)
    requires id in order
    ensures DeletedFrom(DeleteEntries(order, at), 0, id)
  {
    var j :| 0 <= j < |order| && order[j] == id;
    assert Deletes(DeleteEntries(order, at)[j], id);
  }

  /** The entries that an operation logs, one by one. */
  lemma LoggedEntry(x: Timed, i: nat)
    requires i < |Logged(x)|
    ensures var e := Logged(x)[i];
            match x.op
            case Create(s) => e == Wire(NewCreateEntry(s, x.at))
            case Update(s, _) => e == Wire(NewUpdateEntry(s, x.at))
            case Delete(id) => e == NewDeleteEntry(id, x.at)
            case DeleteByUser(_, order) => i < |order| && e == NewDeleteEntry(order[i], x.at)
            case DeleteExpired => false
  {}

  lemma StepIsFormed(live: Live, now: int, owner: string -> Owner, x: Timed)
    requires Formed(live.log, now, owner) && Ordinary(live, now, owner, x)
    ensures Formed(live.log + Logged(x), now, owner)
  {
    forall i | 0 <= i < |Logged(x)| ensures WellFormed(Logged(x)[i], now, owner) {
      LoggedEntry(x, i);
      match x.op
      case Create(s) => StripAcceptable(s);
      case Update(s, _) => StripAcceptable(s);
      case _ =>
    }
  }

  /** What one operation logs is in step with the store it leaves behind. */
  ghost predicate InStep(ss': map<string, Session>, now: int, entries: seq<Entry>) {
    forall i | 0 <= i < |entries| ::
      && (entries[i].op == OpDelete ==> entries[i].sessionId !in ss')
      && (Creates(entries[i], now) ==> entries[i].sessionId in ss')
      && (Updates(entries[i]) && entries[i].sessionId in ss' ==>
            entries[i].session.value.version <= ss'[entries[i].sessionId].version)
  }

  lemma UpdateInStep(live: Live, max: int, now: int, owner: string -> Owner, x: Timed)
    requires Owned(live.store, owner) && x.op.Update? && Sound(live, max, now, owner, x)
    ensures InStep(StoreStep(live.store, max, x).sessions, now, Logged(x))
  {
    var s := x.op.s;
    StripAcceptable(s);
    if s.id in live.store.sessions { assert BelongsTo(live.store.sessions[s.id], owner(s.id)); }
    UpdateInPlace(live.store, s, x.op.expected);
  }

  lemma StepInStep(live: Live, max: int, now: int, owner: string -> Owner, x: Timed)
    requires Healthy(live.store, max) && Owned(live.store, owner) && Sound(live, max, now, owner, x)
    ensures InStep(StoreStep(live.store, max, x).sessions, now, Logged(x))
  {
    var ss' := StoreStep(live.store, max, x).sessions;
    match x.op
    case Create(s) => StripAcceptable(s);
    case Update(_, _) => UpdateInStep(live, max, now, owner, x);
    case Delete(id) => assert id !in ss';
    case DeleteByUser(u, order) =>
      forall i | 0 <= i < |order| ensures order[i] !in ss' { assert order[i] in LiveIds(live.store, u, x.at); }
    case DeleteExpired =>
  }

  ghost predicate RemovalsLogged(ss: map<string, Session>, ss': map<string, Session>, owner: string -> Owner,
                                 entries: seq<Entry>) {
    forall id | id in ss && id !in ss' && owner(id).kept :: DeletedFrom(entries, 0, id)
  }

  lemma StepDeletesHold(live: Live, x: Timed, now: int, st': State)
    requires DeletesHold(live) && (x.op.Create? ==> Fresh(live.log, x.op.s.id))
    requires Advances(live.store.sessions, st'.sessions, x) && InStep(st'.sessions, now, Logged(x))
    ensures DeletesHold(Live(st', live.log + Logged(x)))
  {}

  lemma StepUpdatesBehind(live: Live, x: Timed, now: int, st': State)
    requires UpdatesBehind(live) && (x.op.Create? ==> Fresh(live.log, x.op.s.id))
    requires Advances(live.store.sessions, st'.sessions, x) && InStep(st'.sessions, now, Logged(x))
    ensures UpdatesBehind(Live(st', live.log + Logged(x)))
  {}

  lemma StepCreatesHold(live: Live, now: int, owner: string -> Owner, entries: seq<Entry>, st': State)
    requires CreatesHold(live, now) && Formed(live.log, now, owner)
    requires RemovalsLogged(live.store.sessions, st'.sessions, owner, entries) && InStep(st'.sessions, now, entries)
    ensures CreatesHold(Live(st', live.log + entries), now)
  {
    var log, log' := live.log, live.log + entries;
    forall i | 0 <= i < |log'| && Creates(log'[i], now)
      ensures log'[i].sessionId in st'.sessions || DeletedFrom(log', i + 1, log'[i].sessionId)
    {
      var id := log'[i].sessionId;
      if i < |log| && id !in st'.sessions {
        assert WellFormed(log[i], now, owner);
        if id in live.store.sessions {
          var j :| 0 <= j < |entries| && Deletes(entries[j], id);
          assert Deletes(log'[|log| + j], id);
        } else {
          var j :| i + 1 <= j < |log| && Deletes(log[j], id);
          assert Deletes(log'[j], id);
        }
      }
    }
  }

  lemma StepStoredAreLogged(live: Live, x: Timed, st': State)
    requires StoredAreLogged(live) && Advances(live.store.sessions, st'.sessions, x)
    ensures StoredAreLogged(Live(st', live.log + Logged(x)))
  {
    var log' := live.log + Logged(x);
    forall id | id in st'.sessions ensures !Fresh(log', id) {
      if id in live.store.sessions {
        var i :| 0 <= i < |live.log| && live.log[i].sessionId == id;
        assert log'[i].sessionId == id;
      } else {
        assert log'[|live.log|].sessionId == id;
      }
    }
  }

  lemma StepKeepsInvariant(live: Live, max: nat, now: int, owner: string -> Owner, x: Timed)
    requires LiveInv(live, max, now, owner) && Sound(live, max, now, owner, x)
    ensures LiveInv(Live(StoreStep(live.store, max, x), live.log + Logged(x)), max, now, owner)
  {
    var st' := StoreStep(live.store, max, x);
    StepIsHealthy(live, max, now, owner, x);
    StepAdvances(live.store, max, x);
    StepInStep(live, max, now, owner, x);
    StepIsFormed(live, now, owner, x);
    forall id | id in live.store.sessions && id !in st'.sessions && owner(id).kept
      ensures DeletedFrom(Logged(x), 0, id)
    {
      RemovalIsLogged(live, max, now, owner, x, id);
    }
    StepDeletesHold(live, x, now, st');
    StepUpdatesBehind(live, x, now, st');
    StepCreatesHold(live, now, owner, Logged(x), st');
    StepStoredAreLogged(live, x, st');
  }

  lemma {:induction false} RunKeepsInvariant(max: nat, now: int, owner: string -> Owner, ops: seq<Timed>)
    requires SoundRun(max, now, owner, ops)
    ensures LiveInv(Run(max, ops), max, now, owner)
  {
    if ops != [] {
      RunKeepsInvariant(max, now, owner, ops[..|ops| - 1]);
      StepKeepsInvariant(Run(max, ops[..|ops| - 1]), max, now, owner, ops[|ops| - 1]);
    }
  }

  /** What every ordinary run keeps, sound or not. */
  lemma {:induction false} OrdinaryKeeps(max: nat, now: int, owner: string -> Owner, ops: seq<Timed>)
    requires OrdinaryRun(max, now, owner, ops)
    ensures var live := Run(max, ops);
            Healthy(live.store, max) && Owned(live.store, owner) && Formed(live.log, now, owner) &&
                StoredAreLogged(live)
  {
    hide Healthy, Owned, Formed, Ordinary, StoreStep, Logged, StoredAreLogged;
    if ops == [] {
      NothingYetIsKept(max, now, owner);
    } else {
      var before, x := Run(max, ops[..|ops| - 1]), ops[|ops| - 1];
      OrdinaryKeeps(max, now, owner, ops[..|ops| - 1]);
      StepIsHealthy(before, max, now, owner, x);
      StepIsFormed(before, now, owner, x);
      OrdinaryAdvances(before, max, now, owner, x);
      StepStoredAreLogged(before, x, StoreStep(before.store, max, x));
    }
  }

  lemma NothingYetIsKept(max: nat, now: int, owner: string -> Owner)
    ensures Healthy(EMPTY, max) && Owned(EMPTY, owner) && Formed([], now, owner) && StoredAreLogged(Live(EMPTY, []))
  {}

  lemma OrdinaryAdvances(live: Live, max: int, now: int, owner: string -> Owner, x: Timed)
    requires Ordinary(live, now, owner, x)
    ensures Advances(live.store.sessions, StoreStep(live.store, max, x).sessions, x)
  {
    hide StoreStep, Advances, Acceptable, Fresh;
    StepAdvances(live.store, max, x);
  }

  lemma LoggedDeletesHold(live: Live, max: int, now: int, owner: string -> Owner, x: Timed)
    requires Healthy(live.store, max) && Ordinary(live, now, owner, x)
    ensures DeletesHold(Live(StoreStep(live.store, max, x), Logged(x)))
  {
    var ss' := StoreStep(live.store, max, x).sessions;
    forall i | 0 <= i < |Logged(x)| && Logged(x)[i].op == OpDelete
      ensures Logged(x)[i].sessionId !in ss'
    {
      LoggedEntry(x, i);
      if x.op.DeleteByUser? {
        assert x.op.order[i] in LiveIds(live.store, x.op.userId, x.at);
      }
    }
  }

  /** In every ordinary run a deleted id is gone for good. */
  lemma {:induction false} OrdinaryDeletesHold(max: nat, now: int, owner: string -> Owner, ops: seq<Timed>)
    requires OrdinaryRun(max, now, owner, ops)
    ensures DeletesHold(Run(max, ops))
  {
    hide Healthy, StoreStep, Logged, Advances;
    if ops != [] {
      var before, x := Run(max, ops[..|ops| - 1]), ops[|ops| - 1];
      OrdinaryDeletesHold(max, now, owner, ops[..|ops| - 1]);
      OrdinaryKeeps(max, now, owner, ops[..|ops| - 1]);
      LoggedDeletesHold(before, max, now, owner, x);
      OrdinaryAdvances(before, max, now, owner, x);
      DeletesStay(before, x, StoreStep(before.store, max, x));
    }
  }

  lemma DeletesStay(live: Live, x: Timed, st': State)
    requires DeletesHold(live) && (x.op.Create? ==> Fresh(live.log, x.op.s.id))
    requires Advances(live.store.sessions, st'.sessions, x) && DeletesHold(Live(st', Logged(x)))
    ensures DeletesHold(Live(st', live.log + Logged(x)))
  {
    var log := live.log + Logged(x);
    forall i | 0 <= i < |log| && log[i].op == OpDelete
      ensures log[i].sessionId !in st'.sessions
    {
      if i >= |live.log| {
        assert log[i] == Logged(x)[i - |live.log|];
      } else {
        assert live.log[i].sessionId !in live.store.sessions;
      }
    }
  }
}
