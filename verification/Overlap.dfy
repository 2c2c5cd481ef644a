/** A snapshot may carry an offset that lies before what it covers (src/internal/storage/engine.go:452-459): exactly
    when replaying the entries in between over the snapshot leaves it as it is. */
module Overlap {
  import opened Domain
  import opened StoreModel
  import opened Entries
  import opened LiveRuns
  import opened Recovery
  import opened RecoveryTheorem

  /** The snapshot's sessions `ss` are there untouched, beside sessions that the replay has created again for a time. */
  ghost predicate Beside(rs: map<string, Session>, ss: map<string, Session>, owner: string -> Owner,
                         guests: set<string>) {
    Rebuilt(rs, ss, ss, owner, guests) && forall id <- ss :: id in rs && rs[id] == ss[id]
  }

  /** An update in the log that expects the very version at which the snapshot holds its session. */
  ghost predicate Hits(ss: map<string, Session>, e: Entry) {
    Updates(e) && e.sessionId in ss && ss[e.sessionId].version == PrevVersion(e.session.value.version)
  }

  /** The guests after one more entry: a CREATE that finds room brings one, a DELETE takes one away. */
  ghost function GuestsAfter(guests: set<string>, ss: map<string, Session>, owner: string -> Owner, max: int, now: int,
                             e: Entry): set<string> {
    if Creates(e, now) && Room(ss, ss, owner, guests, max, e.session.value) then guests + {e.sessionId}
    else if e.op == OpDelete then guests - {e.sessionId}
    else guests
  }

  /** The guests after a log. */
  ghost function Guests(ss: map<string, Session>, owner: string -> Owner, max: int, now: int,
                        log: seq<Entry>): set<string> {
    if log == [] then {} else
    GuestsAfter(Guests(ss, owner, max, now, log[..|log| - 1]), ss, owner, max, now, log[|log| - 1])
  }

  ghost predicate NoneHits(ss: map<string, Session>, log: seq<Entry>) {
    forall i | 0 <= i < |log| :: !Hits(ss, log[i])
  }

  predicate NoneDeletes(ss: map<string, Session>, log: seq<Entry>) {
    forall i | 0 <= i < |log| :: log[i].op == OpDelete ==> log[i].sessionId !in ss
  }

  // ---------------------------------------------------------------- one entry

  lemma CreateStays(r: State, ss: map<string, Session>, owner: string -> Owner, guests: set<string>, max: int, now: int,
                    e: Entry)
    requires Indexed(r) && Owned(r, owner) && Beside(r.sessions, ss, owner, guests)
    requires WellFormed(e, now, owner) && e.op == OpCreate
    ensures Beside(ReplayStep(r, max, now, e).sessions, ss, owner, GuestsAfter(guests, ss, owner, max, now, e))
  {
    hide Indexed, Owned, Beside, Room, StoreModel.Create, Acceptable;
    var s := e.session.value;
    CreateSessions(r, max, s);
    if Creates(e, now) {
      BesideIsRebuilt(r.sessions, ss, owner, guests);
      ReplayAcceptsIffRoom(r, ss, ss, max, owner, guests, s);
      if Room(ss, ss, owner, guests, max, s) {
        RoomIsNew(r.sessions, ss, ss, owner, guests, max, s);
        GuestComes(r.sessions, ss, owner, guests, s.id, s);
      }
    } else {
      SkippedOrRefused(r, max, now, e);
    }
  }

  lemma BesideIsRebuilt(rs: map<string, Session>, ss: map<string, Session>, owner: string -> Owner, guests: set<string>)
    requires Beside(rs, ss, owner, guests)
    ensures Rebuilt(rs, ss, ss, owner, guests)
  {}

  lemma SkippedOrRefused(r: State, max: int, now: int, e: Entry)
    requires e.op == OpCreate && e.session != None && !Creates(e, now)
    ensures ReplayStep(r, max, now, e) == r
  {}

  lemma GuestComes(rs: map<string, Session>, ss: map<string, Session>, owner: string -> Owner, guests: set<string>,
                   id: string, s: Session)
    requires Beside(rs, ss, owner, guests) && id !in rs && owner(id).kept
    ensures Beside(rs[id := s], ss, owner, guests + {id})
  {}

  lemma GuestChanges(rs: map<string, Session>, ss: map<string, Session>, owner: string -> Owner, guests: set<string>,
                     id: string, s: Session)
    requires Beside(rs, ss, owner, guests) && id in guests
    ensures Beside(rs[id := s], ss, owner, guests)
  {}

  lemma GuestLeaves(rs: map<string, Session>, ss: map<string, Session>, owner: string -> Owner, guests: set<string>,
                    id: string)
    requires Beside(rs, ss, owner, guests) && id !in ss
    ensures Beside(rs - {id}, ss, owner, guests - {id})
  {}

  /** One entry that does not hit the snapshot leaves its sessions untouched. */
  lemma StepStays(r: State, ss: map<string, Session>, owner: string -> Owner, guests: set<string>, max: int, now: int,
                  e: Entry)
    requires Indexed(r) && Owned(r, owner) && Beside(r.sessions, ss, owner, guests)
    requires WellFormed(e, now, owner) && !Hits(ss, e) && (e.op == OpDelete ==> e.sessionId !in ss)
    ensures Beside(ReplayStep(r, max, now, e).sessions, ss, owner, GuestsAfter(guests, ss, owner, max, now, e))
  {
    hide Indexed, Owned, Room, Beside, Acceptable, StoreModel.Create, StoreModel.Update, ReplayStep, WellFormed,
         IndexRemove;
    EntryHasItsSession(e, now, owner);
    if e.op == OpCreate {
      CreateStays(r, ss, owner, guests, max, now, e);
    } else {
      ReplayStepSessions(r, max, now, owner, e);
      var rs' := ReplayStep(r, max, now, e).sessions;
      if e.op == OpDelete {
        GuestLeaves(r.sessions, ss, owner, guests, e.sessionId);
      } else if rs' != r.sessions {
        OnlyGuestsChange(r.sessions, ss, owner, guests, e);
        GuestChanges(r.sessions, ss, owner, guests, e.sessionId, IncrVersion(e.session.value));
      }
    }
  }

  lemma EntryHasItsSession(e: Entry, now: int, owner: string -> Owner)
    requires WellFormed(e, now, owner)
    ensures e.op != OpUnspecified
  {}

  lemma OnlyGuestsChange(rs: map<string, Session>, ss: map<string, Session>, owner: string -> Owner,
                         guests: set<string>, e: Entry)
    requires Beside(rs, ss, owner, guests) && Updates(e) && !Hits(ss, e)
    requires e.sessionId in rs && rs[e.sessionId].version == PrevVersion(e.session.value.version)
    ensures e.sessionId in guests
  {}

  // ---------------------------------------------------------------- after a hit

  /** A session of the snapshot has run ahead of it. */
  ghost predicate RanAhead(rs: map<string, Session>, ss: map<string, Session>) {
    exists id <- ss :: id in rs && rs[id].version > ss[id].version
  }

  lemma HitRunsAhead(r: State, ss: map<string, Session>, owner: string -> Owner, guests: set<string>, max: int,
                     now: int, e: Entry)
    requires Owned(r, owner) && Beside(r.sessions, ss, owner, guests) && WellFormed(e, now, owner) && Hits(ss, e)
    ensures RanAhead(ReplayStep(r, max, now, e).sessions, ss)
  {
    hide Rebuilt, StoreModel.Update, Acceptable;
    var s, id := e.session.value, e.sessionId;
    assert BelongsTo(r.sessions[id], owner(id));
    UpdateInPlace(r, s, PrevVersion(s.version));
    assert ReplayStep(r, max, now, e).sessions[id] == IncrVersion(s);
  }

  /** And stays ahead: nothing deletes it, and versions only grow. */
  lemma StaysAhead(r: State, ss: map<string, Session>, max: int, now: int, owner: string -> Owner, e: Entry)
    requires RanAhead(r.sessions, ss) && WellFormed(e, now, owner) && (e.op == OpDelete ==> e.sessionId !in ss)
    ensures RanAhead(ReplayStep(r, max, now, e).sessions, ss)
  {
    hide ReplayStep, Acceptable;
    var id :| id in ss && id in r.sessions && r.sessions[id].version > ss[id].version;
    ReplayStepSessions(r, max, now, owner, e);
    var rs' := ReplayStep(r, max, now, e).sessions;
    assert id in rs' && rs'[id].version > ss[id].version;
  }

  // ---------------------------------------------------------------- the whole overlap

  /** Until the first hit the snapshot's sessions are untouched; from then on one has run ahead. */
  lemma {:induction false} OverlapRun(s: State, owner: string -> Owner, max: int, now: int, log: seq<Entry>)
    requires Indexed(s) && Owned(s, owner) && Formed(log, now, owner) && NoneDeletes(s.sessions, log)
    ensures var r := Replay(s, max, now, log);
            && Indexed(r) && Owned(r, owner)
            && (if NoneHits(s.sessions, log)
                then Beside(r.sessions, s.sessions, owner, Guests(s.sessions, owner, max, now, log))
                else RanAhead(r.sessions, s.sessions))
  {
    hide Indexed, Owned, Beside, Hits, RanAhead, Apply, Skipped, WellFormed, GuestsAfter;
    ReplayKeepsIndexed(s, max, now, owner, log);
    if log == [] {
      NoGuestsYet(s.sessions, owner);
    } else {
      var before, e := log[..|log| - 1], log[|log| - 1];
      OverlapRun(s, owner, max, now, before);
      var r := Replay(s, max, now, before);
      var guests := Guests(s.sessions, owner, max, now, before);
      assert WellFormed(e, now, owner);
      if !NoneHits(s.sessions, before) {
        StaysAhead(r, s.sessions, max, now, owner, e);
      } else if Hits(s.sessions, e) {
        HitRunsAhead(r, s.sessions, owner, guests, max, now, e);
      } else {
        StepStays(r, s.sessions, owner, guests, max, now, e);
      }
    }
  }

  lemma NoGuestsYet(ss: map<string, Session>, owner: string -> Owner)
    ensures Beside(ss, ss, owner, {})
  {}

  lemma AloneIsTheSnapshot(r: State, s: State, owner: string -> Owner, guests: set<string>)
    requires Indexed(r) && Indexed(s) && Beside(r.sessions, s.sessions, owner, guests)
    ensures r == s <==> guests == {}
  {
    if guests == {} {
      assert r.sessions == s.sessions;
      IndexedDeterminesStore(r, s);
    } else {
      var id :| id in guests;
      assert id in r.sessions && id !in s.sessions;
    }
  }

  /** For every ordinary run: replaying what a snapshot covers, from any position on, leaves the snapshot as it is if
      and only if none of the updates replayed expects the version at which the snapshot holds its session, and every
      session that the replay creates again is also deleted again. */
  lemma HarmlessIff(max: nat, now: int, owner: string -> Owner, ops: seq<Timed>, n: nat, k: nat)
    requires OrdinaryRun(max, now, owner, ops) && n <= |ops| && k <= |Run(max, ops[..n]).log|
    ensures var live := Run(max, ops[..n]);
            HarmlessOverlap(max, now, ops, n, k) <==>
            NoneHits(live.store.sessions, live.log[k..]) &&
            Guests(live.store.sessions, owner, max, now, live.log[k..]) == {}
  {
    hide Run, Indexed, Owned, Healthy, Replay, NoneHits, Beside, Formed, DeletesHold, StoredAreLogged;
    OrdinaryPrefix(max, now, owner, ops, n);
    OrdinaryKeeps(max, now, owner, ops[..n]);
    OrdinaryDeletesHold(max, now, owner, ops[..n]);
    var live := Run(max, ops[..n]);
    HealthyIsIndexed(live.store, max);
    var part := live.log[k..];
    assert live.log == live.log[..k] + part;
    FormedTail(live.log[..k], part, now, owner);
    NothingDeleted(live, k);
    OverlapRun(live.store, owner, max, now, part);
    var r := Replay(live.store, max, now, part);
    if NoneHits(live.store.sessions, part) {
      AloneIsTheSnapshot(r, live.store, owner, Guests(live.store.sessions, owner, max, now, part));
    }
  }

  lemma NothingDeleted(live: Live, k: nat)
    requires DeletesHold(live) && k <= |live.log|
    ensures NoneDeletes(live.store.sessions, live.log[k..])
  {}
}
