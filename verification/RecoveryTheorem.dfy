/** The recovery theorem: loading a snapshot and replaying an overlapping log suffix gives back every live session
    that the snapshot holds or whose CREATE the replay keeps, exactly; and what happens when the two disagree. */
module RecoveryTheorem {
  import opened Domain
  import opened StoreModel
  import opened Entries
  import opened LiveRuns
  import opened Recovery
  import StoreRuns

  // ---------------------------------------------------------------- entries the snapshot already contains

  /** While entries that the snapshot already covers are replayed over it, its sessions stay untouched and
      anything that comes back has a DELETE still ahead in the log. */
  predicate Around(rs: map<string, Session>, ss: map<string, Session>, log: seq<Entry>, i: nat) {
    && (forall id <- ss :: id in rs && rs[id] == ss[id])
    && (forall id <- rs :: id in ss || DeletedFrom(log, i, id))
  }

  ghost function ReplayStep(st: State, max: int, now: int, e: Entry): State {
    if Skipped(e, now) then st else Apply(st, max, e)
  }

  lemma DeletedLater(log: seq<Entry>, i: nat, id: string)
    requires i < |log| && DeletedFrom(log, i, id) && !Deletes(log[i], id)
    ensures DeletedFrom(log, i + 1, id)
  {
    var j :| i <= j < |log| && Deletes(log[j], id);
  }

  /** What the live run says about one logged entry and the store it led to. */
  ghost predicate Covered(s: State, now: int, owner: string -> Owner, log: seq<Entry>, i: nat)
    requires i < |log|
  {
    var e := log[i];
    && WellFormed(e, now, owner)
    && (e.op == OpDelete ==> e.sessionId !in s.sessions)
    && (Updates(e) && e.sessionId in s.sessions ==> e.session.value.version <= s.sessions[e.sessionId].version)
    && (Creates(e, now) ==> e.sessionId in s.sessions || DeletedFrom(log, i + 1, e.sessionId))
  }

  lemma InvariantCovers(live: Live, max: int, now: int, owner: string -> Owner, i: nat)
    requires LiveInv(live, max, now, owner) && i < |live.log|
    ensures Covered(live.store, now, owner, live.log, i)
  {}

  /** How replaying one entry changes the sessions. */
  ghost predicate Replayed(rs: map<string, Session>, rs': map<string, Session>, now: int, e: Entry) {
    match e.op
    case OpCreate => rs' == rs || (Creates(e, now) && e.sessionId !in rs && rs' == rs[e.sessionId := e.session.value])
    case OpUpdate =>
      || rs' == rs
      || (Updates(e) && e.sessionId in rs && rs[e.sessionId].version == PrevVersion(e.session.value.version)
          && rs' == rs[e.sessionId := IncrVersion(e.session.value)])
    case OpDelete => rs' == rs - {e.sessionId}
    case OpUnspecified => rs' == rs
  }

  lemma ReplayStepSessions(r: State, max: int, now: int, owner: string -> Owner, e: Entry)
    requires WellFormed(e, now, owner)
    ensures Replayed(r.sessions, ReplayStep(r, max, now, e).sessions, now, e)
  {
    if e.op == OpDelete && e.sessionId !in r.sessions { assert r.sessions - {e.sessionId} == r.sessions; }
  }

  lemma ReplayStepKeepsIndexed(r: State, max: int, now: int, owner: string -> Owner, e: Entry)
    requires WellFormed(e, now, owner) && Indexed(r) && Owned(r, owner)
    ensures Indexed(ReplayStep(r, max, now, e)) && Owned(ReplayStep(r, max, now, e), owner)
  {
    match e.op
    case OpCreate => CreateKeepsIndexed(r, max, e.session.value);
    case OpUpdate => UpdateKeepsOwned(r, owner, e.session.value, PrevVersion(e.session.value.version));
    case OpDelete => if e.sessionId in r.sessions { EvictKeepsIndexed(r, e.sessionId); }
  }

  lemma AroundStep(rs: map<string, Session>, rs': map<string, Session>, s: State, now: int, owner: string -> Owner,
                   log: seq<Entry>, i: nat)
    requires i < |log| && Covered(s, now, owner, log, i) && Around(rs, s.sessions, log, i)
    requires Replayed(rs, rs', now, log[i])
    ensures Around(rs', s.sessions, log, i + 1)
  {
    hide Creates, Updates, DeletedFrom, Acceptable, BelongsTo;
    forall id | id in rs' && id !in s.sessions ensures DeletedFrom(log, i + 1, id) {
      if id in rs { DeletedLater(log, i, id); }
    }
  }

  /** One covered entry: the rebuilt store stays exact and around the snapshot. */
  lemma OverlapStep(r: State, s: State, max: int, now: int, owner: string -> Owner, log: seq<Entry>, i: nat)
    requires i < |log| && Covered(s, now, owner, log, i)
    requires Indexed(r) && Owned(r, owner) && Around(r.sessions, s.sessions, log, i)
    ensures var r' := ReplayStep(r, max, now, log[i]);
            Indexed(r') && Owned(r', owner) && Around(r'.sessions, s.sessions, log, i + 1)
  {
    hide Indexed, Owned, Around, ReplayStep, Replayed, Updates, Creates;
    ReplayStepKeepsIndexed(r, max, now, owner, log[i]);
    ReplayStepSessions(r, max, now, owner, log[i]);
    AroundStep(r.sessions, ReplayStep(r, max, now, log[i]).sessions, s, now, owner, log, i);
  }

  lemma AroundItself(ss: map<string, Session>, log: seq<Entry>, i: nat)
    ensures Around(ss, ss, log, i)
  {}

  lemma {:induction false} OverlapHolds(s: State, max: int, now: int, owner: string -> Owner, log: seq<Entry>, k: nat,
                                        i: nat)
    requires Indexed(s) && Owned(s, owner) && k <= i <= |log|
    requires forall j | 0 <= j < |log| :: Covered(s, now, owner, log, j)
    ensures var r := Replay(s, max, now, log[k..i]);
            Indexed(r) && Owned(r, owner) && Around(r.sessions, s.sessions, log, i)
  {
    hide Indexed, Owned, Around, Apply, Skipped, Covered;
    if i == k {
      assert log[k..i] == [];
      AroundItself(s.sessions, log, i);
    } else {
      OverlapHolds(s, max, now, owner, log, k, i - 1);
      var part := log[k..i];
      assert part[..|part| - 1] == log[k..i - 1] && part[|part| - 1] == log[i - 1];
      assert Covered(s, now, owner, log, i - 1);
      OverlapStep(Replay(s, max, now, log[k..i - 1]), s, max, now, owner, log, i - 1);
    }
  }

  /** Replaying entries that the snapshot already covers leaves the snapshot as it is. */
  lemma OverlapIsHarmless(live: Live, max: int, now: int, owner: string -> Owner, k: nat)
    requires LiveInv(live, max, now, owner) && k <= |live.log|
    ensures Replay(live.store, max, now, live.log[k..]) == live.store
  {
    forall j | 0 <= j < |live.log| ensures Covered(live.store, now, owner, live.log, j) {
      InvariantCovers(live, max, now, owner, j);
    }
    OverlapHolds(live.store, max, now, owner, live.log, k, |live.log|);
    assert live.log[k..|live.log|] == live.log[k..];
    AroundEnds(Replay(live.store, max, now, live.log[k..]), live.store, live.log);
  }

  lemma AroundEnds(r: State, s: State, log: seq<Entry>)
    requires Indexed(r) && Indexed(s) && Around(r.sessions, s.sessions, log, |log|)
    ensures r == s
  {
    assert r.sessions == s.sessions;
    IndexedDeterminesStore(r, s);
  }

  // ---------------------------------------------------------------- entries after the snapshot

  /** The rebuilt sessions against the live ones. `ss` are the sessions of the snapshot; `ghosts` are sessions that have
      left the live store without a DELETE in the log, and are therefore still in the rebuilt one. Ghosts aside, the
      rebuilt store has exactly the live sessions that the snapshot holds or whose CREATE a replay keeps. */
  ghost predicate Rebuilt(rs: map<string, Session>, ls: map<string, Session>, ss: map<string, Session>,
                          owner: string -> Owner, ghosts: set<string>) {
    && (forall id <- ghosts :: id in ss || owner(id).kept)
    && (forall id <- ghosts :: id in rs && id !in ls)
    && (forall id <- rs :: id in ghosts || (id in ls && Strip(rs[id]) == Strip(ls[id])))
    && (forall id <- ls :: id in rs <==> owner(id).kept || id in ss)
  }

  /** The ids in the rebuilt store, told from the live one. */
  ghost function RebuiltIds(ls: map<string, Session>, ss: map<string, Session>, owner: string -> Owner,
                            ghosts: set<string>): set<string> {
    set id | id in ls.Keys + ghosts && (id in ghosts || owner(id).kept || id in ss)
  }

  /** Those of one user. */
  ghost function Held(ls: map<string, Session>, ss: map<string, Session>, owner: string -> Owner, ghosts: set<string>,
                      u: string): set<string> {
    set id | id in RebuiltIds(ls, ss, owner, ghosts) && owner(id).userId == u
  }

  /** What a CREATE must find for the rebuilt store to accept it, told from the live one: the quota, ghosts included, is
      not used up, and neither its id nor its token is taken. */
  ghost predicate Room(ls: map<string, Session>, ss: map<string, Session>, owner: string -> Owner, ghosts: set<string>,
                       max: int, s: Session) {
    && |Held(ls, ss, owner, ghosts, s.userId)| < max
    && s.id !in RebuiltIds(ls, ss, owner, ghosts)
    && (s.tokenHash != "" ==> forall id <- RebuiltIds(ls, ss, owner, ghosts) :: owner(id).tokenHash != s.tokenHash)
  }

  lemma IdsAreRebuilt(rs: map<string, Session>, ls: map<string, Session>, ss: map<string, Session>,
                      owner: string -> Owner, ghosts: set<string>)
    requires Rebuilt(rs, ls, ss, owner, ghosts)
    ensures rs.Keys == RebuiltIds(ls, ss, owner, ghosts)
  {}

  lemma HeldIsScan(r: State, ls: map<string, Session>, ss: map<string, Session>, owner: string -> Owner,
                   ghosts: set<string>, u: string)
    requires Owned(r, owner) && r.sessions.Keys == RebuiltIds(ls, ss, owner, ghosts)
    ensures IdsOf(r.sessions, u) == Held(ls, ss, owner, ghosts, u)
  {
    hide RebuiltIds;
    assert forall id <- r.sessions :: BelongsTo(r.sessions[id], owner(id));
  }

  lemma TokenIsTaken(r: State, owner: string -> Owner, token: string)
    requires Indexed(r) && Owned(r, owner) && token != ""
    ensures token in r.tokens <==> exists id <- r.sessions :: owner(id).tokenHash == token
  {
    if token in r.tokens {
      assert BelongsTo(r.sessions[r.tokens[token]], owner(r.tokens[token]));
    }
    if id :| id in r.sessions && owner(id).tokenHash == token {
      assert BelongsTo(r.sessions[id], owner(id));
    }
  }

  /** A CREATE is accepted at replay if and only if there is room for it, whatever the live store said. */
  lemma ReplayAcceptsIffRoom(r: State, ls: map<string, Session>, ss: map<string, Session>, max: int,
                             owner: string -> Owner, ghosts: set<string>, s: Session)
    requires Indexed(r) && Owned(r, owner) && Rebuilt(r.sessions, ls, ss, owner, ghosts) && Acceptable(s)
    ensures StoreModel.Create(r, max, s).1.Ok? <==> Room(ls, ss, owner, ghosts, max, s)
  {
    hide Indexed, IndexCount, Acceptable, Insert, Owned, Held, Rebuilt, RebuiltIds;
    IdsAreRebuilt(r.sessions, ls, ss, owner, ghosts);
    CountIsHeld(r, ls, ss, owner, ghosts, s.userId);
    if s.tokenHash != "" {
      TokenIsTaken(r, owner, s.tokenHash);
    }
  }

  lemma CountIsHeld(r: State, ls: map<string, Session>, ss: map<string, Session>, owner: string -> Owner,
                    ghosts: set<string>, u: string)
    requires Indexed(r) && Owned(r, owner) && r.sessions.Keys == RebuiltIds(ls, ss, owner, ghosts)
    ensures IndexCount(r.users, u) == |Held(ls, ss, owner, ghosts, u)|
  {
    hide RebuiltIds, Held;
    CountIsScan(r, u);
    HeldIsScan(r, ls, ss, owner, ghosts, u);
  }

  /** Without ghosts there is room for every CREATE that the live store accepted. */
  lemma NoGhostsLeaveRoom(l: State, ss: map<string, Session>, max: int, owner: string -> Owner, s: Session)
    requires Indexed(l) && Owned(l, owner) && StoreModel.Create(l, max, s).1.Ok?
    ensures Room(l.sessions, ss, owner, {}, max, s)
  {
    hide Indexed, Owned, IndexCount, Acceptable, Insert, Held;
    HeldIsLess(l, ss, owner, s.userId);
    if s.tokenHash != "" {
      TokenIsTaken(l, owner, s.tokenHash);
    }
  }

  lemma HeldIsLess(l: State, ss: map<string, Session>, owner: string -> Owner, u: string)
    requires Indexed(l) && Owned(l, owner)
    ensures |Held(l.sessions, ss, owner, {}, u)| <= IndexCount(l.users, u)
  {
    CountIsScan(l, u);
    assert forall id <- l.sessions :: BelongsTo(l.sessions[id], owner(id));
    StoreRuns.SubsetSize(Held(l.sessions, ss, owner, {}, u), IdsOf(l.sessions, u));
  }

  // ---------------------------------------------------------------- one operation

  /** Those of the ids that the rebuilt store holds. */
  ghost function OfRebuilt(ids: set<string>, ss: map<string, Session>, owner: string -> Owner): set<string> {
    set id | id in ids && (id in ss || owner(id).kept)
  }

  /** The ghosts after an operation: what left unlogged joins them, a DELETE in the log takes them away. */
  ghost function GhostsAfter(ghosts: set<string>, st: State, x: Timed, ss: map<string, Session>,
                             owner: string -> Owner): set<string> {
    (ghosts + OfRebuilt(Unlogged(st, x), ss, owner)) - if x.op.Delete? then {x.op.id} else {}
  }

  lemma PutBoth(rs: map<string, Session>, ls: map<string, Session>, ss: map<string, Session>, owner: string -> Owner,
                ghosts: set<string>, id: string, a: Session, b: Session)
    requires Rebuilt(rs, ls, ss, owner, ghosts) && Strip(a) == Strip(b) && id !in ghosts
    requires owner(id).kept || id in rs
    ensures Rebuilt(rs[id := a], ls[id := b], ss, owner, ghosts)
  {
    hide Strip;
    assert id in rs ==> id in ls;
  }

  lemma PutLive(rs: map<string, Session>, ls: map<string, Session>, ss: map<string, Session>, owner: string -> Owner,
                ghosts: set<string>, id: string, b: Session)
    requires Rebuilt(rs, ls, ss, owner, ghosts) && !owner(id).kept && id !in ss
    ensures Rebuilt(rs, ls[id := b], ss, owner, ghosts)
  {}

  lemma PutGhost(rs: map<string, Session>, ls: map<string, Session>, ss: map<string, Session>, owner: string -> Owner,
                 ghosts: set<string>, id: string, a: Session)
    requires Rebuilt(rs, ls, ss, owner, ghosts) && id in ghosts
    ensures Rebuilt(rs[id := a], ls, ss, owner, ghosts)
  {}

  lemma CreateSessions(st: State, max: int, s: Session)
    ensures StoreModel.Create(st, max, s).0.sessions ==
            if StoreModel.Create(st, max, s).1.Ok? then st.sessions[s.id := s] else st.sessions
    ensures StoreModel.Create(st, max, s).1.Ok? ==> Acceptable(s)
  {}

  /** A CREATE that a replay keeps: the relation survives exactly when both stores give the same verdict. */
  lemma CreateFollowsIff(r: State, l: State, ss: map<string, Session>, max: int, owner: string -> Owner,
                         ghosts: set<string>, s: Session)
    requires Indexed(r) && Owned(r, owner) && Rebuilt(r.sessions, l.sessions, ss, owner, ghosts)
    requires owner(s.id).kept && Acceptable(s)
    ensures Rebuilt(StoreModel.Create(r, max, Strip(s)).0.sessions, StoreModel.Create(l, max, s).0.sessions, ss, owner,
                    ghosts) <==>
            (StoreModel.Create(l, max, s).1.Ok? <==> Room(l.sessions, ss, owner, ghosts, max, s))
  {
    hide Rebuilt, Room, Indexed, Owned, StoreModel.Create, Acceptable;
    StripAcceptable(s);
    ReplayAcceptsIffRoom(r, l.sessions, ss, max, owner, ghosts, Strip(s));
    RoomForStripped(l.sessions, ss, owner, ghosts, max, s);
    CreateSessions(r, max, Strip(s));
    CreateSessions(l, max, s);
    var room := Room(l.sessions, ss, owner, ghosts, max, s);
    if room {
      RoomIsNew(r.sessions, l.sessions, ss, owner, ghosts, max, s);
    }
    if StoreModel.Create(l, max, s).1.Ok? {
      CreatedIsNew(l, max, s);
      if room {
        PutBoth(r.sessions, l.sessions, ss, owner, ghosts, s.id, Strip(s), s);
      } else {
        MissingShows(r.sessions, l.sessions, ss, owner, ghosts, s);
      }
    } else if room {
      SurplusShows(r.sessions, l.sessions, ss, owner, ghosts, s.id, Strip(s));
    }
  }

  lemma CreatedIsNew(st: State, max: int, s: Session)
    requires StoreModel.Create(st, max, s).1.Ok?
    ensures s.id !in st.sessions
  {}

  lemma RoomForStripped(ls: map<string, Session>, ss: map<string, Session>, owner: string -> Owner,
                        ghosts: set<string>, max: int, s: Session)
    ensures Room(ls, ss, owner, ghosts, max, Strip(s)) <==> Room(ls, ss, owner, ghosts, max, s)
  {}

  lemma RoomIsNew(rs: map<string, Session>, ls: map<string, Session>, ss: map<string, Session>, owner: string -> Owner,
                  ghosts: set<string>, max: int, s: Session)
    requires Room(ls, ss, owner, ghosts, max, s) && Rebuilt(rs, ls, ss, owner, ghosts)
    ensures s.id !in ghosts && s.id !in rs
  {
    IdsAreRebuilt(rs, ls, ss, owner, ghosts);
  }

  /** A CREATE that only the live store accepted leaves the rebuilt one without it, or with a ghost that is live
      again. */
  lemma MissingShows(rs: map<string, Session>, ls: map<string, Session>, ss: map<string, Session>,
                     owner: string -> Owner, ghosts: set<string>, s: Session)
    requires Rebuilt(rs, ls, ss, owner, ghosts) && owner(s.id).kept && s.id !in ls
    ensures !Rebuilt(rs, ls[s.id := s], ss, owner, ghosts)
  {
    assert s.id in ls[s.id := s];
  }

  /** A CREATE that only the rebuilt store accepted shows there. */
  lemma SurplusShows(rs: map<string, Session>, ls: map<string, Session>, ss: map<string, Session>,
                     owner: string -> Owner, ghosts: set<string>, id: string, a: Session)
    requires Rebuilt(rs, ls, ss, owner, ghosts) && owner(id).kept && id !in rs && id !in ghosts
    ensures !Rebuilt(rs[id := a], ls, ss, owner, ghosts)
  {
    assert id in rs[id := a];
  }

  /** A CREATE that a replay leaves out. */
  lemma SkippedFollows(rs: map<string, Session>, l: State, ss: map<string, Session>, max: int, owner: string -> Owner,
                       ghosts: set<string>, s: Session)
    requires Rebuilt(rs, l.sessions, ss, owner, ghosts) && s.id !in ss && (Acceptable(s) ==> !owner(s.id).kept)
    ensures Rebuilt(rs, StoreModel.Create(l, max, s).0.sessions, ss, owner, ghosts)
  {
    hide Rebuilt, StoreModel.Create, Acceptable;
    CreateSessions(l, max, s);
    if Acceptable(s) {
      PutLive(rs, l.sessions, ss, owner, ghosts, s.id, s);
    }
  }

  lemma SameAccepts(r: State, l: State, ss: map<string, Session>, owner: string -> Owner, ghosts: set<string>,
                    id: string, expected: nat)
    requires Rebuilt(r.sessions, l.sessions, ss, owner, ghosts)
    ensures id in r.sessions && id !in ghosts ==>
              id in l.sessions && (Accepts(r, id, expected) <==> Accepts(l, id, expected))
    ensures id in ghosts ==> id in r.sessions && id !in l.sessions
    ensures id in l.sessions && id !in r.sessions ==> !owner(id).kept && id !in ss
  {
    if id in r.sessions && id !in ghosts {
      assert Strip(r.sessions[id]) == Strip(l.sessions[id]);
    }
  }

  lemma UpdateFollows(r: State, l: State, ss: map<string, Session>, owner: string -> Owner, ghosts: set<string>,
                      s: Session, expected: nat)
    requires Owned(r, owner) && Owned(l, owner) && Rebuilt(r.sessions, l.sessions, ss, owner, ghosts)
    requires Acceptable(s) ==> BelongsTo(s, owner(s.id))
    ensures Rebuilt(StoreModel.Update(r, Strip(s), expected).0.sessions, StoreModel.Update(l, s, expected).0.sessions,
                    ss, owner, ghosts)
  {
    hide Rebuilt, StoreModel.Update, Acceptable;
    StripAcceptable(s);
    assert Strip(s).id == s.id && Strip(s).tokenHash == s.tokenHash;
    if s.id in r.sessions { assert BelongsTo(r.sessions[s.id], owner(s.id)); }
    if s.id in l.sessions { assert BelongsTo(l.sessions[s.id], owner(s.id)); }
    SameAccepts(r, l, ss, owner, ghosts, s.id, expected);
    UpdateInPlace(l, s, expected);
    UpdateInPlace(r, Strip(s), expected);
    var a, b := IncrVersion(Strip(s)), IncrVersion(s);
    if Acceptable(s) {
      if s.id in ghosts {
        PutGhost(r.sessions, l.sessions, ss, owner, ghosts, s.id, a);
      } else if s.id in r.sessions {
        PutBoth(r.sessions, l.sessions, ss, owner, ghosts, s.id, a, b);
      } else if s.id in l.sessions {
        PutLive(r.sessions, l.sessions, ss, owner, ghosts, s.id, b);
      }
    }
  }

  lemma {:induction false} ReplayDeletes(r: State, max: int, now: int, order: seq<string>, at: int)
    ensures Replay(r, max, now, DeleteEntries(order, at)).sessions == r.sessions - set id | id in order
    decreases |order|
  {
    var es := DeleteEntries(order, at);
    if order == [] {
      assert es == [];
    } else {
      var n := |order| - 1;
      ReplayDeletes(r, max, now, order[..n], at);
      assert es[..n] == DeleteEntries(order[..n], at);
      var before := Replay(r, max, now, es[..n]);
      assert Replay(r, max, now, es) == StoreModel.Delete(before, order[n]).0;
      assert StoreModel.Delete(before, order[n]).0.sessions == before.sessions - {order[n]};
      assert (set id | id in order) == (set id | id in order[..n]) + {order[n]} by {
        assert order == order[..n] + [order[n]];
      }
    }
  }

  /** Removing the same sessions on both sides; of what only the live side loses, what the other holds becomes
      ghosts. */
  lemma RemoveFollows(rs: map<string, Session>, ls: map<string, Session>, ss: map<string, Session>,
                      owner: string -> Owner,
                      ghosts: set<string>, both: set<string>, liveOnly: set<string>)
    requires Rebuilt(rs, ls, ss, owner, ghosts) && liveOnly <= ls.Keys
    ensures Rebuilt(rs - both, ls - (both + liveOnly), ss, owner, (ghosts + OfRebuilt(liveOnly, ss, owner)) - both)
  {}

  lemma DeleteByUserFollows(r: State, live: Live, ss: map<string, Session>, max: int, now: int, owner: string -> Owner,
                            ghosts: set<string>, x: Timed)
    requires Indexed(live.store) && x.op.DeleteByUser? && Ordinary(live, now, owner, x)
    requires Rebuilt(r.sessions, live.store.sessions, ss, owner, ghosts)
    ensures Rebuilt(Replay(r, max, now, Logged(x)).sessions, StoreStep(live.store, max, x).sessions, ss, owner,
                    GhostsAfter(ghosts, live.store, x, ss, owner))
  {
    hide Rebuilt, Replay;
    var st, u, order := live.store, x.op.userId, x.op.order;
    ReplayDeletes(r, max, now, order, x.at);
    DeleteByUserIsScan(st, u);
    var both := set id | id in order;
    var liveOnly := Unlogged(st, x);
    assert both == LiveIds(st, u, x.at);
    UserIds(st, u, x.at);
    RemoveFollows(r.sessions, st.sessions, ss, owner, ghosts, both, liveOnly);
    GhostsAreGone(r.sessions, st.sessions, ss, owner, ghosts, both);
    assert (ghosts + OfRebuilt(liveOnly, ss, owner)) - both == GhostsAfter(ghosts, st, x, ss, owner);
  }

  lemma GhostsAreGone(rs: map<string, Session>, ls: map<string, Session>, ss: map<string, Session>,
                      owner: string -> Owner,
                      ghosts: set<string>, stored: set<string>)
    requires Rebuilt(rs, ls, ss, owner, ghosts) && stored <= ls.Keys
    ensures ghosts !! stored
  {}

  lemma UserIds(st: State, u: string, at: int)
    requires UsersAgree(st.sessions, st.users)
    ensures IdsOf(st.sessions, u) == LiveIds(st, u, at) + IdsOf(st.sessions, u) * ExpiredIds(st.sessions, at)
  {}

  lemma CleanupFollows(r: State, live: Live, ss: map<string, Session>, max: int, now: int, owner: string -> Owner,
                       ghosts: set<string>, x: Timed)
    requires x.op.DeleteExpired? && Rebuilt(r.sessions, live.store.sessions, ss, owner, ghosts)
    ensures Rebuilt(Replay(r, max, now, Logged(x)).sessions, StoreStep(live.store, max, x).sessions, ss, owner,
                    GhostsAfter(ghosts, live.store, x, ss, owner))
  {
    hide Rebuilt, UsersWithout;
    var gone := ExpiredIds(live.store.sessions, x.at);
    RemoveFollows(r.sessions, live.store.sessions, ss, owner, ghosts, {}, gone);
    assert Replay(r, max, now, []) == r && r.sessions - {} == r.sessions && {} + gone == gone;
  }

  lemma DeleteFollows(r: State, live: Live, ss: map<string, Session>, max: int, now: int, owner: string -> Owner,
                      ghosts: set<string>, x: Timed)
    requires x.op.Delete? && Rebuilt(r.sessions, live.store.sessions, ss, owner, ghosts)
    ensures Rebuilt(Replay(r, max, now, Logged(x)).sessions, StoreStep(live.store, max, x).sessions, ss, owner,
                    GhostsAfter(ghosts, live.store, x, ss, owner))
  {
    hide Rebuilt, IndexRemove, Replay;
    var id := x.op.id;
    ReplayOne(r, max, now, Logged(x)[0]);
    RemoveFollows(r.sessions, live.store.sessions, ss, owner, ghosts, {id}, {});
    assert r.sessions - {id} == StoreModel.Delete(r, id).0.sessions;
    assert live.store.sessions - ({id} + {}) == StoreModel.Delete(live.store, id).0.sessions;
    assert OfRebuilt({}, ss, owner) == {} == OfRebuilt(Unlogged(live.store, x), ss, owner);
  }

  /** The condition that one operation adds: on a CREATE that a replay keeps, the rebuilt store gives the verdict that
      the live one gave. */
  ghost predicate SameVerdict(st: State, ss: map<string, Session>, owner: string -> Owner, ghosts: set<string>,
                              max: int, now: int, x: Timed) {
    x.op.Create? && Acceptable(x.op.s) && Kept(x.op.s, now) ==>
      (StoreModel.Create(st, max, x.op.s).1.Ok? <==> Room(st.sessions, ss, owner, ghosts, max, x.op.s))
  }

  lemma CreateStepFollowsIff(r: State, live: Live, ss: map<string, Session>, max: int, now: int, owner: string -> Owner,
                             ghosts: set<string>, x: Timed)
    requires Indexed(r) && Owned(r, owner) && x.op.Create? && x.op.s.id !in ss
    requires Ordinary(live, now, owner, x) && Rebuilt(r.sessions, live.store.sessions, ss, owner, ghosts)
    ensures SameVerdict(live.store, ss, owner, ghosts, max, now, x) <==>
            Rebuilt(Replay(r, max, now, Logged(x)).sessions, StoreStep(live.store, max, x).sessions, ss, owner, ghosts)
  {
    hide Rebuilt, Room, Indexed, Owned, StoreModel.Create, Acceptable, Fresh, Replay;
    var s := x.op.s;
    ReplayOne(r, max, now, Logged(x)[0]);
    StripAcceptable(s);
    if !Kept(s, now) {
      SkippedFollows(r.sessions, live.store, ss, max, owner, ghosts, s);
    } else if Acceptable(s) {
      CreateFollowsIff(r, live.store, ss, max, owner, ghosts, s);
    } else {
      CreateRefused(r, max, Strip(s));
      CreateRefused(live.store, max, s);
    }
  }

  /** One live step and the replay of what it logged keep the relation exactly when a CREATE gets the same verdict. */
  lemma StepFollowsIff(r: State, live: Live, ss: map<string, Session>, max: int, now: int, owner: string -> Owner,
                       ghosts: set<string>, x: Timed)
    requires Indexed(r) && Indexed(live.store) && Owned(r, owner) && Owned(live.store, owner)
    requires Ordinary(live, now, owner, x) && forall id <- ss :: !Fresh(live.log, id)
    requires Rebuilt(r.sessions, live.store.sessions, ss, owner, ghosts)
    ensures SameVerdict(live.store, ss, owner, ghosts, max, now, x) <==>
            Rebuilt(Replay(r, max, now, Logged(x)).sessions, StoreStep(live.store, max, x).sessions, ss, owner,
                    GhostsAfter(ghosts, live.store, x, ss, owner))
  {
    hide Rebuilt, Room, Indexed, Replay, StoreModel.Create, StoreModel.Update, Acceptable, Owned;
    match x.op {
      case Create(s) =>
        CreateStepFollowsIff(r, live, ss, max, now, owner, ghosts, x);
        NoNewGhosts(ghosts, live.store, x, ss, owner);
      case Update(s, expected) =>
        ReplayOne(r, max, now, Logged(x)[0]);
        assert PrevVersion(s.version) == expected;
        UpdateFollows(r, live.store, ss, owner, ghosts, s, expected);
        NoNewGhosts(ghosts, live.store, x, ss, owner);
      case Delete(_) => DeleteFollows(r, live, ss, max, now, owner, ghosts, x);
      case DeleteByUser(_, _) => DeleteByUserFollows(r, live, ss, max, now, owner, ghosts, x);
      case DeleteExpired => CleanupFollows(r, live, ss, max, now, owner, ghosts, x);
    }
  }

  lemma NoNewGhosts(ghosts: set<string>, st: State, x: Timed, ss: map<string, Session>, owner: string -> Owner)
    requires x.op.Create? || x.op.Update?
    ensures GhostsAfter(ghosts, st, x, ss, owner) == ghosts
  {
    assert OfRebuilt(Unlogged(st, x), ss, owner) == {};
  }

  lemma CreateRefused(st: State, max: int, s: Session)
    requires !Acceptable(s)
    ensures StoreModel.Create(st, max, s).0 == st
  {}

  lemma {:induction false} ReplayKeepsIndexed(r: State, max: int, now: int, owner: string -> Owner, log: seq<Entry>)
    requires Indexed(r) && Owned(r, owner) && Formed(log, now, owner)
    ensures var r' := Replay(r, max, now, log); Indexed(r') && Owned(r', owner)
    decreases |log|
  {
    hide Indexed, Owned;
    if log != [] {
      ReplayKeepsIndexed(r, max, now, owner, log[..|log| - 1]);
      ReplayStepKeepsIndexed(Replay(r, max, now, log[..|log| - 1]), max, now, owner, log[|log| - 1]);
    }
  }

  lemma FormedTail(a: seq<Entry>, b: seq<Entry>, now: int, owner: string -> Owner)
    requires Formed(a + b, now, owner)
    ensures Formed(b, now, owner)
  {
    assert forall i | 0 <= i < |b| :: b[i] == (a + b)[|a| + i];
  }

  // ---------------------------------------------------------------- whole runs

  /** The sessions that have left the store unlogged since the snapshot after n operations and that a replay over that
      snapshot holds on to. */
  ghost function Ghosts(max: int, owner: string -> Owner, ops: seq<Timed>, n: nat): set<string>
    requires n <= |ops|
    decreases |ops|
  {
    if |ops| == n then {} else
    var before := ops[..|ops| - 1];
    GhostsAfter(Ghosts(max, owner, before, n), Run(max, before).store, ops[|ops| - 1],
                Run(max, before[..n]).store.sessions, owner)
  }

  /** Every CREATE since the snapshot that a replay keeps gets the same verdict from the rebuilt store of its time. */
  ghost predicate SameVerdicts(max: int, now: int, owner: string -> Owner, ops: seq<Timed>, n: nat)
    requires n <= |ops|
    decreases |ops|
  {
    |ops| == n ||
    var before := ops[..|ops| - 1];
    SameVerdicts(max, now, owner, before, n) &&
    SameVerdict(Run(max, before).store, Run(max, before[..n]).store.sessions, owner, Ghosts(max, owner, before, n),
                max, now, ops[|ops| - 1])
  }

  /** What a replay from log position k rebuilds over the snapshot taken after n operations. */
  ghost function RebuiltStore(max: int, now: int, ops: seq<Timed>, n: nat, k: nat): State
    requires n <= |ops| && k <= |Run(max, ops).log|
  {
    Replay(Run(max, ops[..n]).store, max, now, Run(max, ops).log[k..])
  }

  ghost predicate RebuiltNow(max: int, now: int, owner: string -> Owner, ops: seq<Timed>, n: nat, k: nat)
    requires n <= |ops| && k <= |Run(max, ops[..n]).log|
  {
    LogGrows(max, ops, n);
    Rebuilt(RebuiltStore(max, now, ops, n, k).sessions, Run(max, ops).store.sessions, Run(max, ops[..n]).store.sessions,
            owner, Ghosts(max, owner, ops, n))
  }

  /** The relation holds after every operation since the snapshot. */
  ghost predicate RebuiltThroughout(max: int, now: int, owner: string -> Owner, ops: seq<Timed>, n: nat, k: nat)
    requires n <= |ops| && k <= |Run(max, ops[..n]).log|
    decreases |ops|
  {
    RebuiltNow(max, now, owner, ops, n, k) &&
    (|ops| == n ||
     (assert ops[..|ops| - 1][..n] == ops[..n]; RebuiltThroughout(max, now, owner, ops[..|ops| - 1], n, k)))
  }

  lemma {:induction false} LogGrows(max: int, ops: seq<Timed>, n: nat)
    requires n <= |ops|
    ensures Run(max, ops[..n]).log <= Run(max, ops).log
    decreases |ops|
  {
    if n < |ops| {
      LogGrows(max, ops[..|ops| - 1], n);
      assert ops[..|ops| - 1][..n] == ops[..n];
    } else {
      assert ops[..n] == ops;
    }
  }

  lemma RebuiltReflexive(ss: map<string, Session>, owner: string -> Owner)
    ensures Rebuilt(ss, ss, ss, owner, {})
  {}

  /** The rebuilt store has exact indexes and the sessions' own users and tokens, whatever the verdicts. */
  lemma RebuiltIsIndexed(max: nat, now: int, owner: string -> Owner, ops: seq<Timed>, n: nat, k: nat)
    requires OrdinaryRun(max, now, owner, ops) && n <= |ops| && k <= |Run(max, ops).log|
    ensures var r := RebuiltStore(max, now, ops, n, k); Indexed(r) && Owned(r, owner)
  {
    hide Indexed, Owned, Run, Healthy;
    OrdinaryPrefix(max, now, owner, ops, n);
    OrdinaryKeeps(max, now, owner, ops[..n]);
    OrdinaryKeeps(max, now, owner, ops);
    HealthyIsIndexed(Run(max, ops[..n]).store, max);
    var log := Run(max, ops).log;
    assert log == log[..k] + log[k..];
    FormedTail(log[..k], log[k..], now, owner);
    ReplayKeepsIndexed(Run(max, ops[..n]).store, max, now, owner, log[k..]);
  }

  lemma HealthyIsIndexed(st: State, max: int)
    requires Healthy(st, max)
    ensures Indexed(st)
  {}

  lemma SnapshotIsLogged(max: nat, now: int, owner: string -> Owner, ops: seq<Timed>, n: nat)
    requires OrdinaryRun(max, now, owner, ops) && n <= |ops|
    ensures forall id <- Run(max, ops[..n]).store.sessions :: !Fresh(Run(max, ops).log, id)
  {
    hide Run;
    OrdinaryPrefix(max, now, owner, ops, n);
    OrdinaryKeeps(max, now, owner, ops[..n]);
    LogGrows(max, ops, n);
    var log := Run(max, ops[..n]).log;
    forall id | id in Run(max, ops[..n]).store.sessions
      ensures !Fresh(Run(max, ops).log, id)
    {
      var i :| 0 <= i < |log| && log[i].sessionId == id;
      assert Run(max, ops).log[i].sessionId == id;
    }
  }

  /** Replaying what the snapshot already covers, from position k on, leaves the snapshot as it is. Overlap.HarmlessIff
      says exactly when. */
  ghost predicate HarmlessOverlap(max: int, now: int, ops: seq<Timed>, n: nat, k: nat)
    requires n <= |ops|
  {
    var live := Run(max, ops[..n]);
    k <= |live.log| && Replay(live.store, max, now, live.log[k..]) == live.store
  }

  /** It does when the run up to the snapshot is sound, or when there is nothing of it to replay. */
  lemma SoundOverlap(max: nat, now: int, owner: string -> Owner, ops: seq<Timed>, n: nat, k: nat)
    requires n <= |ops| && k <= |Run(max, ops[..n]).log|
    requires SoundRun(max, now, owner, ops[..n]) || k == |Run(max, ops[..n]).log|
    ensures HarmlessOverlap(max, now, ops, n, k)
  {
    hide Run, LiveInv;
    var live := Run(max, ops[..n]);
    if k == |live.log| {
      assert live.log[k..] == [];
    } else {
      RunKeepsInvariant(max, now, owner, ops[..n]);
      OverlapIsHarmless(live, max, now, owner, k);
    }
  }

  /** For every ordinary run: recovery follows the live store, ghosts aside, through every operation since the snapshot
      if and only if every CREATE since then that a replay keeps gets the verdict that the live store gave. */
  lemma {:induction false} RebuiltFollowsIff(max: nat, now: int, owner: string -> Owner, ops: seq<Timed>, n: nat,
                                             k: nat)
    requires OrdinaryRun(max, now, owner, ops) && n <= |ops| && HarmlessOverlap(max, now, ops, n, k)
    ensures RebuiltThroughout(max, now, owner, ops, n, k) <==> SameVerdicts(max, now, owner, ops, n)
    decreases |ops|
  {
    hide Rebuilt, Indexed, Owned, Ordinary, Healthy, StoredAreLogged, Formed, StoreStep, Logged, GhostsAfter,
        SameVerdict,
         RebuiltStore, Replay;
    LogGrows(max, ops, n);
    if |ops| == n {
      assert ops[..n] == ops;
      RebuiltAtSnapshot(max, now, ops, k);
      RebuiltReflexive(Run(max, ops).store.sessions, owner);
    } else {
      var before, x := ops[..|ops| - 1], ops[|ops| - 1];
      assert before[..n] == ops[..n];
      LogGrows(max, before, n);
      RebuiltFollowsIff(max, now, owner, before, n, k);
      if RebuiltNow(max, now, owner, before, n, k) {
        OrdinaryKeeps(max, now, owner, before);
        HealthyIsIndexed(Run(max, before).store, max);
        RebuiltIsIndexed(max, now, owner, before, n, k);
        SnapshotIsLogged(max, now, owner, before, n);
        RebuiltSnoc(max, now, ops, n, k);
        StepFollowsIff(RebuiltStore(max, now, before, n, k), Run(max, before), Run(max, ops[..n]).store.sessions, max,
                       now,
                       owner, Ghosts(max, owner, before, n), x);
      }
      if RebuiltThroughout(max, now, owner, before, n, k) {
        assert RebuiltNow(max, now, owner, before, n, k);
      }
    }
  }

  lemma RebuiltAtSnapshot(max: int, now: int, ops: seq<Timed>, k: nat)
    requires k <= |Run(max, ops).log|
    ensures RebuiltStore(max, now, ops, |ops|, k) == Replay(Run(max, ops).store, max, now, Run(max, ops).log[k..])
  {
    assert ops[..|ops|] == ops;
  }

  lemma RebuiltSnoc(max: int, now: int, ops: seq<Timed>, n: nat, k: nat)
    requires n < |ops| && k <= |Run(max, ops[..|ops| - 1]).log| <= |Run(max, ops).log|
    ensures RebuiltStore(max, now, ops, n, k) ==
            Replay(RebuiltStore(max, now, ops[..|ops| - 1], n, k), max, now, Logged(ops[|ops| - 1]))
  {
    hide Logged, StoreStep, Replay;
    var before, x := ops[..|ops| - 1], ops[|ops| - 1];
    assert before[..n] == ops[..n];
    var log := Run(max, before).log;
    assert Run(max, ops).log[k..] == log[k..] + Logged(x);
    ReplayAppend(Run(max, ops[..n]).store, max, now, log[k..], Logged(x));
  }

  /** What Recover builds from the sessions of a snapshot and the entries of a log suffix. */
  ghost function Recovered(max: int, now: int, list: seq<Session>, suffix: seq<Entry>): State {
    Replay(CreateAll(max, list), max, now, suffix)
  }

  /** Loading a snapshot in any order is starting from the store it was taken of. */
  lemma RecoveredIsRebuilt(max: nat, now: int, owner: string -> Owner, ops: seq<Timed>, n: nat, k: nat,
                           list: seq<Session>)
    requires OrdinaryRun(max, now, owner, ops) && n <= |ops| && k <= |Run(max, ops).log|
    requires StoreRuns.Lists(list, Run(max, ops[..n]).store.sessions)
    ensures Recovered(max, now, list, Run(max, ops).log[k..]) == RebuiltStore(max, now, ops, n, k)
  {
    hide Run, Replay;
    OrdinaryPrefix(max, now, owner, ops, n);
    OrdinaryKeeps(max, now, owner, ops[..n]);
    StoreRuns.LoadIsExact(list, Run(max, ops[..n]).store, max);
  }

  /** Recovery with ghosts. Take any ordinary run in which every CREATE since the snapshot gets the same verdict, any
      snapshot of it listed in any order, and any log position k not beyond what the snapshot covers. The rebuilt store
      has exact indexes; ghosts aside, it is the live store cut down to what the snapshot holds or whose CREATE is
      kept. */
  lemma RecoveryWithGhosts(max: nat, now: int, owner: string -> Owner, ops: seq<Timed>, n: nat, k: nat,
                           list: seq<Session>)
    requires OrdinaryRun(max, now, owner, ops) && n <= |ops| && HarmlessOverlap(max, now, ops, n, k)
    requires StoreRuns.Lists(list, Run(max, ops[..n]).store.sessions)
    requires SameVerdicts(max, now, owner, ops, n)
    ensures k <= |Run(max, ops).log|
    ensures var r := Recovered(max, now, list, Run(max, ops).log[k..]);
            && Indexed(r)
            && Rebuilt(r.sessions, Run(max, ops).store.sessions, Run(max, ops[..n]).store.sessions, owner,
                       Ghosts(max, owner, ops, n))
  {
    hide Run, Rebuilt, Indexed, Recovered, RebuiltStore, SameVerdicts, SoundRun, OrdinaryRun;
    LogGrows(max, ops, n);
    RecoveredIsRebuilt(max, now, owner, ops, n, k, list);
    RebuiltIsIndexed(max, now, owner, ops, n, k);
    RebuiltFollowsIff(max, now, owner, ops, n, k);
  }

  /** Without a snapshot, then: every session that is still valid comes back if and only if the CREATE of each had not
      expired; and beside them there are only the ghosts. */
  lemma ValidComeBackIff(max: nat, now: int, owner: string -> Owner, ops: seq<Timed>)
    requires OrdinaryRun(max, now, owner, ops) && SameVerdicts(max, now, owner, ops, 0)
    ensures var r, l := Recovered(max, now, [], Run(max, ops).log).sessions, Run(max, ops).store.sessions;
            && ((forall id <- l :: !IsExpired(l[id], now) ==> id in r && Strip(r[id]) == Strip(l[id])) <==>
                (forall id <- l :: !IsExpired(l[id], now) ==> owner(id).kept))
            && r.Keys - l.Keys == Ghosts(max, owner, ops, 0)
  {
    hide Run, Indexed, Recovered, SameVerdicts, OrdinaryRun, IsExpired, Ghosts;
    assert ops[..0] == [];
    RunNothing(max);
    SoundOverlap(max, now, owner, ops, 0, 0);
    RecoveryWithGhosts(max, now, owner, ops, 0, 0, []);
    assert Run(max, ops).log[0..] == Run(max, ops).log;
  }

  // ---------------------------------------------------------------- exact recovery

  /** Since the snapshot `ss` was taken after n operations, nothing it contains left the store unlogged. */
  ghost predicate SnapshotStays(max: int, ops: seq<Timed>, n: nat, ss: map<string, Session>)
    requires n <= |ops|
    decreases |ops|
  {
    |ops| == n ||
    (SnapshotStays(max, ops[..|ops| - 1], n, ss) &&
     Unlogged(Run(max, ops[..|ops| - 1]).store, ops[|ops| - 1]) !! ss.Keys)
  }

  /** Then there are no ghosts, and the verdicts are the same. */
  lemma {:induction false} StayingLeavesNoGhosts(max: nat, now: int, owner: string -> Owner, ops: seq<Timed>, n: nat)
    requires SoundRun(max, now, owner, ops) && n <= |ops|
    requires SnapshotStays(max, ops, n, Run(max, ops[..n]).store.sessions)
    ensures Ghosts(max, owner, ops, n) == {} && SameVerdicts(max, now, owner, ops, n)
    decreases |ops|
  {
    hide Run, Indexed, Owned, Room, StoreModel.Create, Acceptable, Healthy, Ordinary;
    if n < |ops| {
      var before, x := ops[..|ops| - 1], ops[|ops| - 1];
      assert before[..n] == ops[..n];
      StayingLeavesNoGhosts(max, now, owner, before, n);
      RunKeepsInvariant(max, now, owner, before);
      HealthyIsIndexed(Run(max, before).store, max);
      if x.op.Create? && Acceptable(x.op.s) && Kept(x.op.s, now) {
        NoGhostsLeaveRoom(Run(max, before).store, Run(max, ops[..n]).store.sessions, max, owner, x.op.s);
      }
    }
  }

  /** Recovery is exact. Take any sound run, any snapshot of it after n operations listed in any order, of which
      nothing has left the store unlogged since, and any log position k that is not beyond what the snapshot covers.
      Loading the snapshot and replaying everything from k on, at clock `now`, yields exact indexes and, up to the
      three unlogged fields, precisely the live sessions that the snapshot holds or whose CREATE had not expired. */
  lemma RecoveryIsExact(max: nat, now: int, owner: string -> Owner, ops: seq<Timed>, n: nat, k: nat, list: seq<Session>)
    requires SoundRun(max, now, owner, ops) && n <= |ops| && k <= |Run(max, ops[..n]).log|
    requires StoreRuns.Lists(list, Run(max, ops[..n]).store.sessions)
    requires SnapshotStays(max, ops, n, Run(max, ops[..n]).store.sessions)
    ensures k <= |Run(max, ops).log|
    ensures var r, l, s := Recovered(max, now, list, Run(max, ops).log[k..]), Run(max, ops).store,
            Run(max, ops[..n]).store;
            && Indexed(r)
            && StripAll(r).sessions ==
               map id | id in l.sessions && (owner(id).kept || id in s.sessions) :: Strip(l.sessions[id])
  {
    hide Run, Indexed, Recovered, SnapshotStays, SoundRun, SameVerdicts, OrdinaryRun;
    SoundIsOrdinary(max, now, owner, ops);
    SoundPrefix(max, now, owner, ops, n);
    SoundOverlap(max, now, owner, ops, n, k);
    StayingLeavesNoGhosts(max, now, owner, ops, n);
    RecoveryWithGhosts(max, now, owner, ops, n, k, list);
  }

  lemma {:induction false} OrdinaryPrefix(max: int, now: int, owner: string -> Owner, ops: seq<Timed>, n: nat)
    requires OrdinaryRun(max, now, owner, ops) && n <= |ops|
    ensures OrdinaryRun(max, now, owner, ops[..n])
    decreases |ops|
  {
    hide Ordinary, Run;
    if n < |ops| {
      OrdinaryPrefix(max, now, owner, ops[..|ops| - 1], n);
      assert ops[..|ops| - 1][..n] == ops[..n];
    } else {
      assert ops[..n] == ops;
    }
  }

  lemma {:induction false} SoundPrefix(max: int, now: int, owner: string -> Owner, ops: seq<Timed>, n: nat)
    requires SoundRun(max, now, owner, ops) && n <= |ops|
    ensures SoundRun(max, now, owner, ops[..n])
    decreases |ops|
  {
    if n < |ops| {
      SoundPrefix(max, now, owner, ops[..|ops| - 1], n);
      assert ops[..|ops| - 1][..n] == ops[..n];
    } else {
      assert ops[..n] == ops;
    }
  }

  /** Without a snapshot, the rebuilt store is exactly the live one cut down to the sessions whose CREATE had not
      expired. So a session comes back if and only if its CREATE carried an expiry not before `now`, however it
      was renewed since. */
  lemma RecoveryWithoutSnapshot(max: nat, now: int, owner: string -> Owner, ops: seq<Timed>)
    requires SoundRun(max, now, owner, ops)
    ensures var r, l := Recovered(max, now, [], Run(max, ops).log), Run(max, ops).store;
            && Indexed(r)
            && StripAll(r).sessions == map id | id in l.sessions && owner(id).kept :: Strip(l.sessions[id])
  {
    hide Run, Recovered, Indexed;
    assert ops[..0] == [];
    RunNothing(max);
    StaysEmpty(max, ops);
    RecoveryIsExact(max, now, owner, ops, 0, 0, []);
    assert Run(max, ops).log[0..] == Run(max, ops).log;
  }

  lemma RunNothing(max: int)
    ensures Run(max, []) == Live(EMPTY, [])
  {}

  lemma {:induction false} StaysEmpty(max: int, ops: seq<Timed>)
    ensures SnapshotStays(max, ops, 0, map[])
  {
    if ops != [] { StaysEmpty(max, ops[..|ops| - 1]); }
  }

  /** Said of the log: a stored session is lost if and only if the replay skips its CREATE. */
  lemma LostIffSkipped(max: nat, now: int, owner: string -> Owner, ops: seq<Timed>, i: nat)
    requires SoundRun(max, now, owner, ops) && i < |Run(max, ops).log|
    requires var e := Run(max, ops).log[i];
             e.op == OpCreate && e.session != None && Acceptable(e.session.value) &&
             e.sessionId in Run(max, ops).store.sessions
    ensures var e := Run(max, ops).log[i];
            e.sessionId !in Recovered(max, now, [], Run(max, ops).log).sessions <==> Skipped(e, now)
  {
    hide Run, Recovered, Indexed, SoundRun, Acceptable, UpdatesBehind, CreatesHold, DeletesHold, Healthy,
        StoredAreLogged;
    RunKeepsInvariant(max, now, owner, ops);
    RecoveryWithoutSnapshot(max, now, owner, ops);
    var e, r := Run(max, ops).log[i], Recovered(max, now, [], Run(max, ops).log);
    assert WellFormed(e, now, owner);
    assert r.sessions.Keys == StripAll(r).sessions.Keys;
  }
}
