/** The shortcut of replayWAL (src/internal/storage/engine.go) that leaves out every CREATE whose own expiry has
    passed: what it costs against replaying the whole log, exactly. The whole log rebuilds the live store
    (LiveRuns.ReplayEqualsLive), so `full` below stands for what the live engine held. */
module Skipping {
  import opened Domain
  import opened StoreModel
  import opened Entries
  import opened LiveRuns
  import opened Recovery
  import RecoveryTheorem
  import StoreRuns

  /** An update keeps the token and the user of the session it changes. */
  ghost predicate KeepsOwner(full: State, e: Entry) {
    e.op == OpUpdate && e.session != None && Acceptable(e.session.value) && e.session.value.id in full.sessions ==>
      full.sessions[e.session.value.id].tokenHash == e.session.value.tokenHash &&
      full.sessions[e.session.value.id].userId == e.session.value.userId
  }

  ghost predicate OwnersKept(max: int, log: seq<Entry>) {
    log == [] ||
    (OwnersKept(max, log[..|log| - 1]) && KeepsOwner(ApplyAll(EMPTY, max, log[..|log| - 1]), log[|log| - 1]))
  }

  ghost predicate Accepts(full: State, max: int, e: Entry) {
    e.op == OpCreate && e.session != None && StoreModel.Create(full, max, e.session.value).1.Ok?
  }

  /** The ids whose CREATE was accepted, was left out of the replay, and that have not been deleted since. */
  ghost function LeftOut(max: int, log: seq<Entry>, now: int): set<string> {
    if log == [] then {} else
    LeftOutStep(LeftOut(max, log[..|log| - 1], now), ApplyAll(EMPTY, max, log[..|log| - 1]), max, log[|log| - 1], now)
  }

  ghost function LeftOutStep(before: set<string>, full: State, max: int, e: Entry, now: int): set<string> {
    if Skipped(e, now) then (if Accepts(full, max, e) then before + {e.session.value.id} else before)
    else if e.op == OpDelete then before - {e.sessionId}
    else before
  }

  /** The replayed sessions are the full ones without those left out. */
  ghost predicate Restricts(r: State, full: State, out: set<string>) {
    out <= full.sessions.Keys && r.sessions == full.sessions - out
  }

  // ---------------------------------------------------------------- when a CREATE is accepted

  /** What Create asks of the sessions that are there. */
  ghost predicate Fits(sessions: map<string, Session>, max: int, s: Session) {
    && Acceptable(s)
    && |IdsOf(sessions, s.userId)| < max
    && s.id !in sessions
    && (s.tokenHash != "" ==> forall id <- sessions :: sessions[id].tokenHash != s.tokenHash)
  }

  lemma AcceptedIffFits(st: State, max: int, s: Session)
    requires Indexed(st)
    ensures StoreModel.Create(st, max, s).1.Ok? <==> Fits(st.sessions, max, s)
  {
    hide Acceptable, Insert, IndexCount;
    CountIsScan(st, s.userId);
    if s.tokenHash != "" && s.tokenHash in st.tokens {
      assert st.sessions[st.tokens[s.tokenHash]].tokenHash == s.tokenHash;
    }
  }

  lemma FitsInLess(sessions: map<string, Session>, out: set<string>, max: int, s: Session)
    requires Fits(sessions, max, s)
    ensures Fits(sessions - out, max, s)
  {
    hide Acceptable;
    StoreRuns.SubsetSize(IdsOf(sessions - out, s.userId), IdsOf(sessions, s.userId));
  }

  // ---------------------------------------------------------------- one entry

  /** A CREATE that the live store refused comes back at replay: it is not skipped, and what was left out makes room. */
  ghost predicate ComesBack(full: State, out: set<string>, max: int, e: Entry, now: int) {
    && e.op == OpCreate && e.session != None && !Skipped(e, now)
    && !Accepts(full, max, e) && Fits(full.sessions - out, max, e.session.value)
  }

  lemma CreateRestrictsIff(r: State, full: State, out: set<string>, max: int, now: int, e: Entry)
    requires Indexed(r) && Indexed(full) && Restricts(r, full, out) && e.op == OpCreate
    ensures ComesBack(full, out, max, e, now) <==>
            !Restricts(RecoveryTheorem.ReplayStep(r, max, now, e), Apply(full, max, e),
                       LeftOutStep(out, full, max, e, now))
  {
    hide Indexed, StoreModel.Create, Fits;
    if e.session != None {
      var s := e.session.value;
      AcceptedIffFits(full, max, s);
      AcceptedIffFits(r, max, s);
      RecoveryTheorem.CreateSessions(full, max, s);
      RecoveryTheorem.CreateSessions(r, max, s);
      if Fits(full.sessions, max, s) {
        FittingIsNew(full.sessions, max, s);
        FitsInLess(full.sessions, out, max, s);
        if Skipped(e, now) {
          PutOne(r.sessions, full.sessions, out, s);
        } else {
          PutBoth(r.sessions, full.sessions, out, s);
        }
      } else if Fits(r.sessions, max, s) {
        FittingIsNew(r.sessions, max, s);
        assert s.id in r.sessions[s.id := s];
      }
    }
  }

  lemma FittingIsNew(sessions: map<string, Session>, max: int, s: Session)
    requires Fits(sessions, max, s)
    ensures s.id !in sessions
  {}

  lemma PutOne(rs: map<string, Session>, fs: map<string, Session>, out: set<string>, s: Session)
    requires out <= fs.Keys && rs == fs - out && s.id !in fs
    ensures out + {s.id} <= fs[s.id := s].Keys && rs == fs[s.id := s] - (out + {s.id})
  {}

  lemma PutBoth(rs: map<string, Session>, fs: map<string, Session>, out: set<string>, s: Session)
    requires out <= fs.Keys && rs == fs - out && s.id !in fs
    ensures out <= fs[s.id := s].Keys && rs[s.id := s] == fs[s.id := s] - out
  {}

  lemma UpdateRestricts(r: State, full: State, out: set<string>, max: int, now: int, e: Entry)
    requires Restricts(r, full, out) && KeepsOwner(full, e) && e.op == OpUpdate
    ensures Restricts(RecoveryTheorem.ReplayStep(r, max, now, e), Apply(full, max, e),
                      LeftOutStep(out, full, max, e, now))
  {
    hide StoreModel.Update, Acceptable;
    if e.session != None {
      var s, expected := e.session.value, PrevVersion(e.session.value.version);
      UpdateInPlace(full, s, expected);
      UpdateInPlace(r, s, expected);
    }
  }

  lemma DeleteRestricts(r: State, full: State, out: set<string>, max: int, now: int, e: Entry)
    requires Restricts(r, full, out) && e.op == OpDelete
    ensures Restricts(RecoveryTheorem.ReplayStep(r, max, now, e), Apply(full, max, e),
                      LeftOutStep(out, full, max, e, now))
  {
    hide IndexRemove;
  }

  /** One entry keeps the restriction exactly when it does not come back. */
  lemma StepRestrictsIff(r: State, full: State, out: set<string>, max: int, now: int, e: Entry)
    requires Indexed(r) && Indexed(full) && Restricts(r, full, out) && KeepsOwner(full, e)
    ensures ComesBack(full, out, max, e, now) <==>
            !Restricts(RecoveryTheorem.ReplayStep(r, max, now, e), Apply(full, max, e),
                       LeftOutStep(out, full, max, e, now))
  {
    hide Indexed, Restricts, KeepsOwner, Fits, StoreModel.Create, StoreModel.Update;
    match e.op {
      case OpCreate => CreateRestrictsIff(r, full, out, max, now, e);
      case OpUpdate => UpdateRestricts(r, full, out, max, now, e);
      case OpDelete => DeleteRestricts(r, full, out, max, now, e);
      case OpUnspecified =>
    }
  }

  lemma StepIsIndexed(st: State, max: int, e: Entry)
    requires Indexed(st) && KeepsOwner(st, e)
    ensures Indexed(Apply(st, max, e))
  {
    hide Indexed, StoreModel.Create, StoreModel.Update, Acceptable;
    match e.op {
      case OpCreate => if e.session != None { CreateKeepsIndexed(st, max, e.session.value); }
      case OpUpdate => if e.session != None { UpdateStaysIndexed(st, e.session.value,
          PrevVersion(e.session.value.version)); }
      case OpDelete => if e.sessionId in st.sessions { EvictKeepsIndexed(st, e.sessionId); }
      case OpUnspecified =>
    }
  }

  lemma UpdateStaysIndexed(st: State, s: Session, expected: nat)
    requires Indexed(st)
    requires Acceptable(s) && s.id in st.sessions ==>
      st.sessions[s.id].tokenHash == s.tokenHash && st.sessions[s.id].userId == s.userId
    ensures Indexed(StoreModel.Update(st, s, expected).0)
  {
    UpdateKeepsIndexedIff(st, s, expected);
  }

  // ---------------------------------------------------------------- whole logs

  /** No CREATE that was refused when it was logged comes back. */
  ghost predicate NoneComesBack(max: int, now: int, log: seq<Entry>) {
    log == [] ||
    var before := log[..|log| - 1];
    NoneComesBack(max, now, before) &&
    !ComesBack(ApplyAll(EMPTY, max, before), LeftOut(max, before, now), max, log[|log| - 1], now)
  }

  ghost predicate RestrictsNow(max: int, now: int, log: seq<Entry>) {
    Restricts(Replay(EMPTY, max, now, log), ApplyAll(EMPTY, max, log), LeftOut(max, log, now))
  }

  ghost predicate RestrictsThroughout(max: int, now: int, log: seq<Entry>) {
    RestrictsNow(max, now, log) && (log == [] || RestrictsThroughout(max, now, log[..|log| - 1]))
  }

  lemma {:induction false} FullIsIndexed(max: int, log: seq<Entry>)
    requires OwnersKept(max, log)
    ensures Indexed(ApplyAll(EMPTY, max, log))
  {
    hide Indexed, Apply, KeepsOwner;
    if log == [] {
      EmptyIsIndexed();
    } else {
      FullIsIndexed(max, log[..|log| - 1]);
      StepIsIndexed(ApplyAll(EMPTY, max, log[..|log| - 1]), max, log[|log| - 1]);
    }
  }

  lemma EmptyIsIndexed()
    ensures Indexed(EMPTY) && Restricts(EMPTY, EMPTY, {})
  {}

  /** The replayed store has exact indexes while it is a restriction of the full one. */
  lemma {:induction false} ReplayIsIndexed(max: int, now: int, log: seq<Entry>)
    requires OwnersKept(max, log) && (log != [] ==> RestrictsThroughout(max, now, log[..|log| - 1]))
    ensures Indexed(Replay(EMPTY, max, now, log))
  {
    hide Indexed, Apply, KeepsOwner, Restricts;
    if log == [] {
      EmptyIsIndexed();
    } else {
      var before, e := log[..|log| - 1], log[|log| - 1];
      ReplayIsIndexed(max, now, before);
      var r := Replay(EMPTY, max, now, before);
      RestrictionKeepsOwner(r, ApplyAll(EMPTY, max, before), LeftOut(max, before, now), e);
      if !Skipped(e, now) {
        StepIsIndexed(r, max, e);
      }
    }
  }

  lemma RestrictionKeepsOwner(r: State, full: State, out: set<string>, e: Entry)
    requires Restricts(r, full, out) && KeepsOwner(full, e)
    ensures KeepsOwner(r, e)
  {}

  /** For every log whose updates keep token and user: replaying with the shortcut is, after every entry, the full
      replay without exactly the sessions left out, if and only if no refused CREATE comes back. */
  lemma {:induction false} SkippingIsRestrictionIff(max: int, now: int, log: seq<Entry>)
    requires OwnersKept(max, log)
    ensures RestrictsThroughout(max, now, log) <==> NoneComesBack(max, now, log)
  {
    hide Indexed, Apply, KeepsOwner, Restricts, ComesBack, LeftOutStep;
    if log == [] {
      EmptyIsIndexed();
    } else {
      var before, e := log[..|log| - 1], log[|log| - 1];
      SkippingIsRestrictionIff(max, now, before);
      if RestrictsThroughout(max, now, before) {
        NowFromThroughout(max, now, before);
        FullIsIndexed(max, before);
        ReplayIsIndexed(max, now, before);
        var r, full, out := Replay(EMPTY, max, now, before), ApplyAll(EMPTY, max, before), LeftOut(max, before, now);
        StepRestrictsIff(r, full, out, max, now, e);
        ReplaySnoc(max, now, log);
      }
    }
  }

  lemma NowFromThroughout(max: int, now: int, log: seq<Entry>)
    requires RestrictsThroughout(max, now, log)
    ensures RestrictsNow(max, now, log) && (log != [] ==> RestrictsThroughout(max, now, log[..|log| - 1]))
  {}

  lemma ReplaySnoc(max: int, now: int, log: seq<Entry>)
    requires log != []
    ensures Replay(EMPTY, max, now, log) ==
            RecoveryTheorem.ReplayStep(Replay(EMPTY, max, now, log[..|log| - 1]), max, now, log[|log| - 1])
  {}

  /** Exactly when a refused CREATE comes back, for a replay that has been a restriction so far: the live store keeps
      what it had, and the replayed one takes the session in if and only if the sessions that were left out stood
      in its way -- by the quota, by its id or by its token. */
  lemma RefusedComesBackIff(max: int, now: int, log: seq<Entry>, e: Entry)
    requires OwnersKept(max, log) && NoneComesBack(max, now, log)
    requires e.op == OpCreate && e.session != None && !Skipped(e, now)
    requires !Accepts(ApplyAll(EMPTY, max, log), max, e)
    ensures ApplyAll(EMPTY, max, log + [e]) == ApplyAll(EMPTY, max, log)
    ensures var r, s := Replay(EMPTY, max, now, log), e.session.value;
            Replay(EMPTY, max, now, log + [e]) ==
            if Fits(ApplyAll(EMPTY, max, log).sessions - LeftOut(max, log, now), max, s) then Insert(r, s) else r
  {
    hide Indexed, Insert, Acceptable, Fits, Restricts;
    SkippingIsRestrictionIff(max, now, log);
    NowFromThroughout(max, now, log);
    FullIsIndexed(max, log);
    ReplayIsIndexed(max, now, log);
    assert (log + [e])[..|log + [e]| - 1] == log;
    var r, s := Replay(EMPTY, max, now, log), e.session.value;
    RestrictionIs(r, ApplyAll(EMPTY, max, log), LeftOut(max, log, now));
    AcceptedIffFits(r, max, s);
  }

  lemma RestrictionIs(r: State, full: State, out: set<string>)
    requires Restricts(r, full, out)
    ensures r.sessions == full.sessions - out && out <= full.sessions.Keys
  {}

  // ---------------------------------------------------------------- what is still valid

  /** Two stores hold the same sessions among those still valid at `now`. */
  ghost predicate SameValid(a: State, b: State, now: int) {
    forall id :: ValidIn(a, id, now) == ValidIn(b, id, now) &&
        (ValidIn(a, id, now) ==> a.sessions[id] == b.sessions[id])
  }

  predicate ValidIn(st: State, id: string, now: int) {
    id in st.sessions && !IsExpired(st.sessions[id], now)
  }

  /** So the shortcut is harmless exactly when no session it left out is still valid: none was renewed past the
      clock, and none was created never to expire. */
  lemma SkippingRefinesIff(max: int, now: int, log: seq<Entry>)
    requires OwnersKept(max, log) && NoneComesBack(max, now, log)
    ensures var full := ApplyAll(EMPTY, max, log);
      SameValid(Replay(EMPTY, max, now, log), full, now) <==>
          forall id <- LeftOut(max, log, now) :: !ValidIn(full, id, now)
  {
    hide ApplyAll, Replay, LeftOut, OwnersKept, NoneComesBack, IsExpired;
    SkippingIsRestrictionIff(max, now, log);
    NowFromThroughout(max, now, log);
    var full, r, out := ApplyAll(EMPTY, max, log), Replay(EMPTY, max, now, log), LeftOut(max, log, now);
    if SameValid(r, full, now) {
      forall id | id in out
        ensures !ValidIn(full, id, now)
      {
        assert ValidIn(r, id, now) == ValidIn(full, id, now);
      }
    }
  }

  /** The same for a live engine: of what its store holds, recovery at `now` without a snapshot brings back all but
      the sessions left out; every session still valid comes back if and only if none of those is. */
  lemma RunRecoversIff(max: int, now: int, ops: seq<Timed>)
    requires forall i | 0 <= i < |ops| :: UnderVersionLaw(ops[i])
    requires OwnersKept(max, Run(max, ops).log) && NoneComesBack(max, now, Run(max, ops).log)
    ensures var live, log := Run(max, ops).store, Run(max, ops).log;
      var r := RecoveryTheorem.Recovered(max, now, [], log);
      && r.sessions == StripAll(live).sessions - LeftOut(max, log, now)
      && ((forall id | ValidIn(live, id, now) :: ValidIn(r, id, now)) <==>
          forall id <- LeftOut(max, log, now) :: !ValidIn(live, id, now))
  {
    hide Apply, Indexed, StoreStep, Logged, OwnersKept, NoneComesBack, Replay, ApplyAll, LeftOut, Run;
    var live, log := Run(max, ops).store, Run(max, ops).log;
    ReplayEqualsLive(max, ops);
    SkippingIsRestrictionIff(max, now, log);
    NowFromThroughout(max, now, log);
    var r, out := RecoveryTheorem.Recovered(max, now, [], log), LeftOut(max, log, now);
    assert r == Replay(EMPTY, max, now, log);
    assert out <= live.sessions.Keys;
    forall id | id in live.sessions && id !in out
      ensures id in r.sessions && (ValidIn(live, id, now) <==> ValidIn(r, id, now))
    {
      assert r.sessions[id] == Strip(live.sessions[id]);
    }
    forall id | id in out
      ensures !ValidIn(r, id, now)
    {
    }
  }
}
