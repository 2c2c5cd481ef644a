/** Log entries (src/internal/storage/wal/entry.go) and what recovery does with one
    (applyEntry and the loop of replayWAL in src/internal/storage/engine.go). */
module Entries {
  import opened Domain
  import opened StoreModel

  datatype OpType = OpUnspecified | OpCreate | OpUpdate | OpDelete

  datatype Entry = Entry(
    op: OpType,
    timestamp: int,
    sessionId: string,
    version: nat,
    session: Option<Session>)

  function NewCreateEntry(s: Session, now: int): Entry {
    Entry(OpCreate, now, s.id, s.version, Some(s))
  }

  function NewUpdateEntry(s: Session, now: int): Entry {
    Entry(OpUpdate, now, s.id, s.version, Some(s))
  }

  function NewDeleteEntry(id: string, now: int): Entry {
    Entry(OpDelete, now, id, 0, None)
  }

  /** What a reader gets back for an entry: DELETE carries no session, and the JSON drops three fields. */
  function Wire(e: Entry): Entry {
    e.(session := if e.op == OpDelete || e.session == None then None else Some(Strip(e.session.value)))
  }

  /** `entry.Session.Version - 1` on a uint64. */
  function PrevVersion(v: nat): nat {
    (v + TWO_TO_64 - 1) % TWO_TO_64
  }

  /** applyEntry: errors are reported or ignored, the store keeps whatever the operation left behind. */
  ghost function Apply(st: State, max: int, e: Entry): State {
    match e.op
    case OpCreate => if e.session == None then st else Create(st, max, e.session.value).0
    case OpUpdate =>
      if e.session == None then st
      else Update(st, e.session.value, PrevVersion(e.session.value.version)).0
    case OpDelete => Delete(st, e.sessionId).0
    case OpUnspecified => st
  }

  /** When applyEntry counts an entry as applied: a session that is already there, or already gone, or already at
      another version, is no error. */
  ghost predicate CountsAsApplied(st: State, max: int, e: Entry) {
    match e.op
    case OpCreate => e.session != None && Create(st, max, e.session.value).1 in {Ok, Failed(ErrConflict)}
    case OpUpdate =>
      e.session != None && Update(st, e.session.value, PrevVersion(e.session.value.version)).1 in
        {Ok, Failed(ErrNotFound), Failed(ErrVersionConflict)}
    case OpDelete => true
    case OpUnspecified => false
  }

  /** replayWAL leaves out a CREATE whose own expiry lies before the clock, whatever happened to it later. */
  predicate Skipped(e: Entry, now: int) {
    e.op == OpCreate && e.session != None && e.session.value.expiresAt < now
  }

  ghost function Replay(st: State, max: int, now: int, log: seq<Entry>): State {
    if log == [] then st else
    var before := Replay(st, max, now, log[..|log| - 1]);
    if Skipped(log[|log| - 1], now) then before else Apply(before, max, log[|log| - 1])
  }

  /** How many entries a replay counts as applied. */
  ghost function AppliedIn(st: State, max: int, now: int, log: seq<Entry>): nat {
    if log == [] then 0 else
    var before, e := log[..|log| - 1], log[|log| - 1];
    AppliedIn(st, max, now, before) + if !Skipped(e, now) && CountsAsApplied(Replay(st, max, now, before), max, e)
        then 1 else 0
  }

  lemma AppliedSnoc(st: State, max: int, now: int, log: seq<Entry>, e: Entry)
    ensures AppliedIn(st, max, now, log + [e]) == AppliedIn(st, max, now, log) +
            if !Skipped(e, now) && CountsAsApplied(Replay(st, max, now, log), max, e) then 1 else 0
  {
    assert (log + [e])[..|log + [e]| - 1] == log;
  }

  lemma {:induction false} ReplayAppend(st: State, max: int, now: int, a: seq<Entry>, b: seq<Entry>)
    ensures Replay(st, max, now, a + b) == Replay(Replay(st, max, now, a), max, now, b)
    decreases |b|
  {
    if b == [] {
      assert a + b == a;
    } else {
      var n := |b| - 1;
      ReplayAppend(st, max, now, a, b[..n]);
      assert (a + b)[..|a + b| - 1] == a + b[..n];
    }
  }

  lemma ReplayOne(st: State, max: int, now: int, e: Entry)
    ensures Replay(st, max, now, [e]) == if Skipped(e, now) then st else Apply(st, max, e)
  {
    assert [e][..0] == [];
    assert Replay(st, max, now, []) == st;
  }

  /** Replaying with nothing skipped: the fold of applyEntry over the whole log. */
  ghost function ApplyAll(st: State, max: int, log: seq<Entry>): State {
    if log == [] then st else Apply(ApplyAll(st, max, log[..|log| - 1]), max, log[|log| - 1])
  }
}
