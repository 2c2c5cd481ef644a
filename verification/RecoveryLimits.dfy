/** Why the conditions of the recovery theorem are there: for each, a family of runs that breaks it and a
    session on which the rebuilt store and the live one then differ. */
module RecoveryLimits {
  import opened Domain
  import opened StoreModel
  import opened Entries
  import opened LiveRuns
  import opened Recovery
  import opened RecoveryTheorem
  import StoreRuns

  lemma RunOne(max: int, x: Timed)
    ensures Run(max, [x]) == Live(StoreStep(EMPTY, max, x), Logged(x))
  {
    assert [x][..0] == [];
    assert [] + Logged(x) == Logged(x);
  }

  lemma RunSnoc(max: int, ops: seq<Timed>, x: Timed)
    ensures Run(max, ops + [x]) ==
            Live(StoreStep(Run(max, ops).store, max, x), Run(max, ops).log + Logged(x))
  {
    assert (ops + [x])[..|ops + [x]| - 1] == ops;
  }

  lemma RunTwo(max: int, x: Timed, y: Timed)
    ensures Run(max, [x, y]) == Live(StoreStep(StoreStep(EMPTY, max, x), max, y), Logged(x) + Logged(y))
    ensures [x, y][..1] == [x] && Run(max, [x]) == Live(StoreStep(EMPTY, max, x), Logged(x))
  {
    hide StoreStep, Logged;
    RunOne(max, x);
    RunSnoc(max, [x], y);
    assert [x] + [y] == [x, y];
  }

  lemma ReplayTwo(max: int, now: int, e: Entry, f: Entry)
    ensures Recovered(max, now, [], [e] + [f]) == ReplayStep(ReplayStep(EMPTY, max, now, e), max, now, f)
  {
    hide Apply, Skipped;
    ReplayAppend(EMPTY, max, now, [e], [f]);
    ReplayOne(EMPTY, max, now, e);
    ReplayOne(ReplayStep(EMPTY, max, now, e), max, now, f);
  }

  lemma FirstCreate(max: int, s: Session)
    requires Acceptable(s) && max >= 1
    ensures StoreModel.Create(EMPTY, max, s) == (Insert(EMPTY, s), Ok)
  {}

  /** A session that was renewed past the recovery clock is lost when its CREATE entry carried an expiry before it. */
  lemma RenewedSessionIsLost(max: int, now: int, s: Session, renewed: int, t0: int, t1: int)
    requires Acceptable(s) && max >= 1 && s.version + 2 < TWO_TO_64
    requires s.expiresAt < now <= renewed && renewed != 0
    ensures var s' := s.(expiresAt := renewed, version := s.version + 1);
            var ops := [Timed(t0, Create(s)), Timed(t1, Update(s', s.version))];
            var live, r := Run(max, ops), Recovered(max, now, [], Run(max, ops).log);
            && s.id in live.store.sessions && !IsExpired(live.store.sessions[s.id], now)
            && s.id !in r.sessions
  {
    hide Run, Recovered, Acceptable;
    var s' := s.(expiresAt := renewed, version := s.version + 1);
    var x, y := Timed(t0, Create(s)), Timed(t1, Update(s', s.version));
    FirstCreate(max, s);
    RunTwo(max, x, y);
    SameAcceptable(s, s');
    ReplayTwo(max, now, Logged(x)[0], Logged(y)[0]);
  }

  lemma SameAcceptable(s: Session, s': Session)
    requires s' == s.(expiresAt := s'.expiresAt, version := s'.version)
    ensures Acceptable(s') <==> Acceptable(s)
  {}

  /** A CREATE that the quota refused is in the log, and comes back once an older expired session is skipped. */
  lemma RefusedCreateComesBack(now: int, a: Session, b: Session, t0: int, t1: int)
    requires Acceptable(a) && Acceptable(b) && a.id != b.id && a.userId == b.userId
    requires a.expiresAt < now <= b.expiresAt
    ensures var ops := [Timed(t0, Create(a)), Timed(t1, Create(b))];
            var live, r := Run(1, ops), Recovered(1, now, [], Run(1, ops).log);
            && StoreModel.Create(Run(1, ops[..1]).store, 1, b).1 == Failed(ErrQuotaExceeded)
            && b.id !in live.store.sessions && b.id in r.sessions
  {
    hide Run, Recovered, Acceptable, IndexCount;
    var x, y := Timed(t0, Create(a)), Timed(t1, Create(b));
    FirstCreate(1, a);
    RunTwo(1, x, y);
    InsertCounts(a);
    ReplayTwo(1, now, Logged(x)[0], Logged(y)[0]);
    StripAcceptable(b);
    FirstCreate(1, Strip(b));
  }

  lemma InsertCounts(a: Session)
    ensures IndexCount(Insert(EMPTY, a).users, a.userId) == 1
  {}

  /** The run of the next lemma: create a, clean it up once it has expired, create b. */
  function CleanupThenCreate(a: Session, b: Session, t0: int, t1: int, t2: int): seq<Timed> {
    [Timed(t0, Create(a)), Timed(t1, DeleteExpired), Timed(t2, Create(b))]
  }

  lemma CleanupThenCreateRun(a: Session, b: Session, t0: int, t1: int, t2: int)
    requires Acceptable(a) && Acceptable(b) && IsExpired(a, t1)
    ensures var ops := CleanupThenCreate(a, b, t0, t1, t2);
            && Run(1, ops[..1]) == Live(Insert(EMPTY, a), [Wire(NewCreateEntry(a, t0))])
            && Run(1, ops) == Live(Insert(EMPTY, b), [Wire(NewCreateEntry(a, t0)), Wire(NewCreateEntry(b, t2))])
  {
    hide CleanupExpired, StoreModel.Create, Run, Insert, Acceptable;
    var ops := CleanupThenCreate(a, b, t0, t1, t2);
    FirstCreate(1, a);
    FirstCreate(1, b);
    CleanupOfOne(a, t1);
    RunTwo(1, ops[0], ops[1]);
    RunSnoc(1, [ops[0], ops[1]], ops[2]);
    assert ops[..1] == [ops[0]] && [ops[0], ops[1]] + [ops[2]] == ops;
  }

  /** An expired session that cleanup removed without a log entry is loaded again from the snapshot, takes up the
      quota, and makes the replay refuse a session that the live store accepted. */
  lemma ExpiredSnapshotCostsALiveSession(now: int, a: Session, b: Session, t0: int, t1: int, t2: int)
    requires Acceptable(a) && Acceptable(b) && a.id != b.id && a.userId == b.userId
    requires IsExpired(a, t1) && !IsExpired(b, now)
    ensures var ops := CleanupThenCreate(a, b, t0, t1, t2);
            var live := Run(1, ops);
            && StoreRuns.Lists([a], Run(1, ops[..1]).store.sessions)
            && |Run(1, ops[..1]).log| == 1 <= |live.log|
            && b.id in live.store.sessions && !IsExpired(live.store.sessions[b.id], now)
            && b.id !in Recovered(1, now, [a], live.log[1..]).sessions
  {
    CleanupThenCreateRun(a, b, t0, t1, t2);
    FirstCreate(1, a);
    StripAcceptable(b);
    var full, e := Insert(EMPTY, a), Wire(NewCreateEntry(b, t2));
    assert [a][..0] == [] && CreateAll(1, [a]) == full;
    assert full.sessions - {a.id} == map[];
    assert StoreRuns.Lists([a][..0], full.sessions - {a.id});
    hide Run;
    assert [Wire(NewCreateEntry(a, t0)), e][1..] == [e];
    ReplayOne(full, 1, now, e);
    assert IndexCount(full.users, b.userId) == 1;
  }

  /** The run of the next lemma: create a, shorten its life, clean it up once it has expired, create b. */
  function ShortenThenCreate(a: Session, shorter: int, b: Session, t0: int, t1: int, t2: int, t3: int): seq<Timed> {
    var a' := a.(expiresAt := shorter, version := a.version + 1);
    [Timed(t0, Create(a)), Timed(t1, Update(a', a.version)), Timed(t2, DeleteExpired), Timed(t3, Create(b))]
  }

  /** Without any snapshot: a session that was created to outlive the recovery clock, then renewed for a shorter
      time, and
      removed by the unlogged cleanup is created again at replay, takes up the quota as a ghost, and makes the replay
      refuse a session that the live store accepted. */
  lemma ShortenedSessionCostsALiveSession(now: int, a: Session, shorter: int, b: Session, t0: int, t1: int, t2: int,
                                          t3: int)
    requires Acceptable(a) && Acceptable(b) && a.id != b.id && a.userId == b.userId && a.version + 2 < TWO_TO_64
    requires now <= a.expiresAt && shorter != 0 && t2 > shorter && now <= b.expiresAt
    ensures var ops := ShortenThenCreate(a, shorter, b, t0, t1, t2, t3);
            var live, r := Run(1, ops), Recovered(1, now, [], Run(1, ops).log);
            && b.id in live.store.sessions && !IsExpired(live.store.sessions[b.id], now)
            && a.id !in live.store.sessions && a.id in r.sessions && b.id !in r.sessions
  {
    hide Run, Acceptable, Insert, ReplayStep, Wire, ShortenThenCreate, Replay;
    var a' := a.(expiresAt := shorter, version := a.version + 1);
    SameAcceptable(a, a');
    ShortenThenCreateRun(a, shorter, b, t0, t1, t2, t3);
    var e, f, g := Wire(NewCreateEntry(a, t0)), Wire(NewUpdateEntry(a', t1)), Wire(NewCreateEntry(b, t3));
    WireIs(a, t0);
    WireIs(a', t1);
    WireIs(b, t3);
    ReplayThree(EMPTY, 1, now, e, f, g);
    ShortenedIsReplayed(now, a, a', b, e, f, g);
    InsertedSessions(b);
  }

  lemma WireIs(s: Session, t: int)
    ensures Wire(NewCreateEntry(s, t)).session == Some(Strip(s)) && Wire(NewCreateEntry(s, t)).op == OpCreate
    ensures Wire(NewUpdateEntry(s, t)).session == Some(Strip(s)) && Wire(NewUpdateEntry(s, t)).op == OpUpdate
  {}

  lemma ShortenThenCreateRun(a: Session, shorter: int, b: Session, t0: int, t1: int, t2: int, t3: int)
    requires Acceptable(a) && Acceptable(b) && shorter != 0 && t2 > shorter
    ensures var a' := a.(expiresAt := shorter, version := a.version + 1);
            Run(1, ShortenThenCreate(a, shorter, b, t0, t1, t2, t3)) ==
            Live(Insert(EMPTY, b), [Wire(NewCreateEntry(a, t0))] + [Wire(NewUpdateEntry(a', t1))] +
                 [Wire(NewCreateEntry(b, t3))])
  {
    hide Run, Acceptable, StoreModel.Update, StoreModel.Create, CleanupExpired, Insert, Wire;
    var ops := ShortenThenCreate(a, shorter, b, t0, t1, t2, t3);
    var a' := ops[1].op.s;
    SameAcceptable(a, a');
    FirstCreate(1, a);
    FirstCreate(1, b);
    UpdateOfSame(a, a');
    CleanupOfOne(IncrVersion(a'), t2);
    RunTwo(1, ops[0], ops[1]);
    RunSnoc(1, [ops[0], ops[1]], ops[2]);
    RunSnoc(1, [ops[0], ops[1]] + [ops[2]], ops[3]);
    assert [ops[0], ops[1]] + [ops[2]] + [ops[3]] == ops;
  }

  lemma ReplayThree(st: State, max: int, now: int, e: Entry, f: Entry, g: Entry)
    ensures Replay(st, max, now, [e] + [f] + [g]) ==
            ReplayStep(ReplayStep(ReplayStep(st, max, now, e), max, now, f), max, now, g)
  {
    hide Apply, Skipped;
    ReplayAppend(st, max, now, [e], [f]);
    ReplayOne(st, max, now, e);
    ReplayOne(ReplayStep(st, max, now, e), max, now, f);
    ReplayAppend(st, max, now, [e] + [f], [g]);
    ReplayOne(ReplayStep(ReplayStep(st, max, now, e), max, now, f), max, now, g);
  }

  lemma InsertedSessions(b: Session)
    ensures Insert(EMPTY, b).sessions == map[b.id := b]
  {}

  lemma ShortenedIsReplayed(now: int, a: Session, a': Session, b: Session, e: Entry, f: Entry, g: Entry)
    requires Acceptable(a) && Acceptable(a') && Acceptable(b) && a.id != b.id && a.userId == b.userId
    requires a' == a.(expiresAt := a'.expiresAt, version := a.version + 1) && a.version + 2 < TWO_TO_64
    requires now <= a.expiresAt && e.op == OpCreate && f.op == OpUpdate && g.op == OpCreate
    requires e.session == Some(Strip(a)) && f.session == Some(Strip(a')) && g.session == Some(Strip(b))
    requires now <= b.expiresAt
    ensures var r := ReplayStep(ReplayStep(ReplayStep(EMPTY, 1, now, e), 1, now, f), 1, now, g);
            a.id in r.sessions && b.id !in r.sessions
  {
    hide Acceptable, StoreModel.Update, StoreModel.Create, Insert;
    StripAcceptable(a);
    StripAcceptable(a');
    FirstCreate(1, Strip(a));
    UpdateOfSame(Strip(a), Strip(a'));
    var last := IncrVersion(Strip(a'));
    InsertedSessions(last);
    InsertCounts(last);
    RefusedByQuota(Insert(EMPTY, last), Strip(b));
  }

  lemma RefusedByQuota(st: State, s: Session)
    requires IndexCount(st.users, s.userId) >= 1
    ensures StoreModel.Create(st, 1, s).0 == st
  {}

  /** The run of the next lemma: create a, an update that expects a version two ahead, then a regular one. */
  function UpdateAhead(a: Session, x: Session, y: Session, t0: int, t1: int, t2: int): seq<Timed> {
    [Timed(t0, Create(a)), Timed(t1, Update(x, a.version + 2)), Timed(t2, Update(y, a.version))]
  }

  /** An update that expected too high a version is refused, but stays in the log; once a regular update has brought the
      session to that version, replaying the overlap over a snapshot applies it after all. */
  lemma UpdateAheadComesThrough(max: int, now: int, a: Session, x: Session, y: Session, t0: int, t1: int, t2: int)
    requires Acceptable(a) && max >= 1 && a.version + 4 < TWO_TO_64
    requires x == a.(expiresAt := x.expiresAt, version := a.version + 3)
    requires y == a.(expiresAt := y.expiresAt, version := a.version + 1)
    ensures var live := Run(max, UpdateAhead(a, x, y, t0, t1, t2));
            var r := Replay(live.store, max, now, live.log);
            && a.id in live.store.sessions && live.store.sessions[a.id].version == a.version + 2
            && a.id in r.sessions && r.sessions[a.id].version == a.version + 4
  {
    hide Run, Acceptable, Insert, ReplayStep, Wire, Replay, StoreModel.Create, StoreModel.Update;
    var ops := UpdateAhead(a, x, y, t0, t1, t2);
    SameAcceptable(a, x);
    SameAcceptable(a, y);
    FirstCreate(max, a);
    RefusedByVersion(Insert(EMPTY, a), a, x, a.version + 2);
    UpdateOfSame(a, y);
    RunTwo(max, ops[0], ops[1]);
    RunSnoc(max, [ops[0], ops[1]], ops[2]);
    assert [ops[0], ops[1]] + [ops[2]] == ops;
    var e, f, g := Wire(NewCreateEntry(a, t0)), Wire(NewUpdateEntry(x, t1)), Wire(NewUpdateEntry(y, t2));
    WireIs(a, t0);
    WireIs(x, t1);
    WireIs(y, t2);
    ReplayThree(Insert(EMPTY, IncrVersion(y)), max, now, e, f, g);
    InsertedSessions(IncrVersion(y));
    OverlapApplies(max, now, a, x, y, e, f, g);
  }

  lemma RefusedByVersion(st: State, a: Session, x: Session, expected: nat)
    requires st == Insert(EMPTY, a) && x.id == a.id && expected != a.version
    ensures StoreModel.Update(st, x, expected).0 == st
  {}

  lemma OverlapApplies(max: int, now: int, a: Session, x: Session, y: Session, e: Entry, f: Entry, g: Entry)
    requires Acceptable(a) && Acceptable(x) && Acceptable(y) && a.version + 4 < TWO_TO_64
    requires x == a.(expiresAt := x.expiresAt, version := a.version + 3)
    requires y == a.(expiresAt := y.expiresAt, version := a.version + 1)
    requires e.op == OpCreate && f.op == OpUpdate && g.op == OpUpdate
    requires e.session == Some(Strip(a)) && f.session == Some(Strip(x)) && g.session == Some(Strip(y))
    ensures var st := Insert(EMPTY, IncrVersion(y));
            var r := ReplayStep(ReplayStep(ReplayStep(st, max, now, e), max, now, f), max, now, g);
            a.id in r.sessions && r.sessions[a.id].version == a.version + 4
  {
    hide Acceptable, StoreModel.Update, StoreModel.Create, Insert;
    StripAcceptable(x);
    var stored, later := IncrVersion(y), IncrVersion(Strip(x));
    InsertedSessions(stored);
    RefusedById(Insert(EMPTY, stored), max, Strip(a));
    UpdateOfSame(stored, Strip(x));
    RefusedByVersion(Insert(EMPTY, later), later, Strip(y), a.version);
    InsertedSessions(later);
  }

  lemma RefusedById(st: State, max: int, s: Session)
    requires s.id in st.sessions
    ensures StoreModel.Create(st, max, s).0 == st
  {}

  lemma UpdateOfSame(a: Session, x: Session)
    requires Acceptable(x) && x.id == a.id && x.userId == a.userId && x.tokenHash == a.tokenHash
    ensures StoreModel.Update(Insert(EMPTY, a), x, a.version).0 == Insert(EMPTY, IncrVersion(x))
  {
    assert map[a.id := a][a.id := IncrVersion(x)] == map[a.id := IncrVersion(x)];
  }

  lemma CleanupOfOne(a: Session, now: int)
    requires IsExpired(a, now)
    ensures CleanupExpired(Insert(EMPTY, a), now) == EMPTY
  {
    var full := Insert(EMPTY, a);
    assert ExpiredIds(full.sessions, now) == {a.id};
    assert full.sessions - {a.id} == map[];
    assert a.tokenHash != "" ==> a.tokenHash in TokensOf(full.sessions, {a.id});
    assert full.tokens - TokensOf(full.sessions, {a.id}) == map[];
    assert IdsOf(full.sessions, a.userId) * {a.id} == {a.id};
    assert UsersWithout(full.sessions, full.users, {a.id}) == map[];
  }

  /** UpdateSession logs an UPDATE but stores it without the version bump: its replay lands one version higher,
      and the next regular update, which the live store accepts, is dropped. */
  lemma UpdateSessionDiverges(st: State, s: Session, touched: Session, next: Session, t0: int, t1: int)
    requires s.id in st.sessions && st.sessions[s.id] == s
    requires touched.id == s.id == next.id && touched.tokenHash == s.tokenHash == next.tokenHash
    requires Acceptable(touched) && Acceptable(next)
    requires touched.version == s.version + 1 && next.version == s.version + 2 && s.version + 4 < TWO_TO_64
    ensures var live := UpdateSession(st, touched).0;
            var replayed := Apply(st, 0, NewUpdateEntry(touched, t0));
            && live.sessions[s.id].version == s.version + 1 && replayed.sessions[s.id].version == s.version + 2
            && StoreModel.Update(live, next, s.version + 1).1.Ok?
            && StoreModel.Update(live, next, s.version + 1).0.sessions[s.id].version == s.version + 3
            && Apply(replayed, 0, NewUpdateEntry(next, t1)) == replayed
  {}

  /** Exactly when UpdateSession survives a replay: an accepted call replays to the same store if and only if it
      changes nothing that the log carries. In particular it never does when the caller has bumped the version. */
  lemma UpdateSessionReplaysIff(st: State, max: int, s: Session, at: int)
    requires s.version < TWO_TO_64 && UpdateSession(st, s).1.Ok?
    ensures Apply(StripAll(st), max, Wire(NewUpdateEntry(s, at))) == StripAll(UpdateSession(st, s).0) <==>
            Strip(s) == Strip(st.sessions[s.id])
  {
    hide Acceptable;
    StripAcceptable(s);
    var live, replayed := StripAll(UpdateSession(st, s).0), Apply(StripAll(st), max, Wire(NewUpdateEntry(s, at)));
    assert live.sessions[s.id] == Strip(s);
    if Strip(s) == Strip(st.sessions[s.id]) {
      assert live.sessions == StripAll(st).sessions;
      PrevIsAnother(s.version);
    } else {
      ReplayedSession(StripAll(st), Strip(s), PrevVersion(s.version));
      assert replayed.sessions[s.id] in {Strip(st.sessions[s.id]), IncrVersion(Strip(s))};
    }
  }

  lemma PrevIsAnother(v: nat)
    requires v < TWO_TO_64
    ensures PrevVersion(v) != v
  {}

  lemma ReplayedSession(st: State, s: Session, expected: nat)
    requires s.id in st.sessions && s.version < TWO_TO_64
    ensures s.id in StoreModel.Update(st, s, expected).0.sessions
    ensures StoreModel.Update(st, s, expected).0.sessions[s.id] in {st.sessions[s.id], IncrVersion(s)}
    ensures IncrVersion(s) != s
  {}

  /** An update that the live store accepted, and that keeps its token, replays to the same store if and only if it
      follows the version law or changes nothing. */
  lemma UpdateReplaysIff(st: State, max: int, s: Session, expected: nat, at: int)
    requires expected < TWO_TO_64 && s.version < TWO_TO_64
    requires StoreModel.Update(st, s, expected).1.Ok? && st.sessions[s.id].tokenHash == s.tokenHash
    ensures Apply(StripAll(st), max, Wire(NewUpdateEntry(s, at))) == StripAll(StoreModel.Update(st, s, expected).0) <==>
            s.version == (expected + 1) % TWO_TO_64 || Strip(IncrVersion(s)) == Strip(st.sessions[s.id])
  {
    hide StoreModel.Update;
    StripAcceptable(s);
    AcceptedUpdate(st, s, expected);
    UpdateInPlace(st, s, expected);
    UpdateInPlace(StripAll(st), Strip(s), PrevVersion(s.version));
    PrevVersionIs(s.version, expected);
    var live := StripAll(StoreModel.Update(st, s, expected).0);
    assert live.sessions == StripAll(st).sessions[s.id := Strip(IncrVersion(s))];
    if Strip(IncrVersion(s)) == Strip(st.sessions[s.id]) {
      assert live.sessions == StripAll(st).sessions;
    }
  }

  lemma AcceptedUpdate(st: State, s: Session, expected: nat)
    requires StoreModel.Update(st, s, expected).1.Ok?
    ensures Acceptable(s) && Accepts(st, s.id, expected)
  {}

  lemma PrevVersionIs(v: nat, expected: nat)
    requires v < TWO_TO_64 && expected < TWO_TO_64
    ensures PrevVersion(v) == expected <==> v == (expected + 1) % TWO_TO_64
  {}
}
