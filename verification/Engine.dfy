/** The storage engine: src/internal/storage/engine.go. Every operation appends to the log and then changes the
    store; recovery loads a snapshot and replays the log. */
module StorageEngine {
  import opened Domain
  import opened Entries
  import opened Bytes
  import Codec
  import M = StoreModel
  import StoreRuns
  import MemoryStore
  import R = LogReader
  import W = LogWriter
  import WalFiles
  import Snapshot
  import LiveRuns
  import Sorting

  datatype Result = Done | WalError | StoreError(error: M.Error)

  class Engine {
    const store: MemoryStore.Store
    const wal: WalFiles.Writer
    var lastWALOffset: nat

    ghost predicate Valid()
      reads this, wal, wal.dir
    {
      wal.Valid() && (wal.fileOpen || wal.closed)
    }

    constructor (store: MemoryStore.Store, wal: WalFiles.Writer)
      requires wal.Valid() && (wal.fileOpen || wal.closed)
      ensures Valid() && this.store == store && this.wal == wal && lastWALOffset == 0
    {
      this.store, this.wal, lastWALOffset := store, wal, 0;
    }

    /** Appends an entry; false when the log refused it. */
    method Append(e: Entry, nonce: nat) returns (ok: bool)
      requires Valid()
      modifies wal, wal.dir
      ensures Valid() && (wal.Model(), ok) == W.Append(wal.lib, wal.cfg, old(wal.Model()), e, nonce)
    {
      ok := wal.Append(e, nonce);
      AppendStaysOpen(wal.lib, wal.cfg, old(wal.Model()), e, nonce);
    }

    method Create(s: Session, now: int, nonce: nat) returns (r: Result)
      requires Valid()
      modifies this, store, store.userIndex, wal, wal.dir
      ensures Valid() && store.userIndex == old(store.userIndex)
      ensures var (w, ok) := W.Append(wal.lib, wal.cfg, old(wal.Model()), NewCreateEntry(s, now), nonce);
              var (st, outcome) := M.Create(old(store.Model()), store.maxSessionsPerUser, s);
              Performed(r, ok, outcome, old(store.Model()), st, w)
    {
      hide W.Append, M.Create;
      var ok := Append(NewCreateEntry(s, now), nonce);
      if !ok { return WalError; }
      var outcome := store.Create(s);
      if outcome.Failed? { return StoreError(outcome.error); }
      lastWALOffset := wal.CurrentOffset();
      return Done;
    }

    method Update(s: Session, expected: nat, now: int, nonce: nat) returns (r: Result)
      requires Valid()
      modifies this, store, wal, wal.dir
      ensures Valid() && store.userIndex == old(store.userIndex)
      ensures var (w, ok) := W.Append(wal.lib, wal.cfg, old(wal.Model()), NewUpdateEntry(s, now), nonce);
              var (st, outcome) := M.Update(old(store.Model()), s, expected);
              Performed(r, ok, outcome, old(store.Model()), st, w)
    {
      hide W.Append, M.Update;
      var ok := Append(NewUpdateEntry(s, now), nonce);
      if !ok { return WalError; }
      var outcome, version := store.Update(s, expected);
      if outcome.Failed? { return StoreError(outcome.error); }
      lastWALOffset := wal.CurrentOffset();
      return Done;
    }

    method UpdateSession(s: Session, now: int, nonce: nat) returns (r: Result)
      requires Valid()
      modifies this, store, wal, wal.dir
      ensures Valid() && store.userIndex == old(store.userIndex)
      ensures var (w, ok) := W.Append(wal.lib, wal.cfg, old(wal.Model()), NewUpdateEntry(s, now), nonce);
              var (st, outcome) := M.UpdateSession(old(store.Model()), s);
              Performed(r, ok, outcome, old(store.Model()), st, w)
    {
      hide W.Append, M.UpdateSession;
      var ok := Append(NewUpdateEntry(s, now), nonce);
      if !ok { return WalError; }
      var outcome := store.UpdateSession(s);
      if outcome.Failed? { return StoreError(outcome.error); }
      lastWALOffset := wal.CurrentOffset();
      return Done;
    }

    method Delete(id: string, now: int, nonce: nat) returns (r: Result)
      requires Valid()
      modifies this, store, store.userIndex, wal, wal.dir
      ensures Valid() && store.userIndex == old(store.userIndex)
      ensures var (w, ok) := W.Append(wal.lib, wal.cfg, old(wal.Model()), NewDeleteEntry(id, now), nonce);
              var (st, outcome) := M.Delete(old(store.Model()), id);
              Performed(r, ok, outcome, old(store.Model()), st, w)
    {
      hide W.Append, M.Delete;
      var ok := Append(NewDeleteEntry(id, now), nonce);
      if !ok { return WalError; }
      var outcome := store.Delete(id);
      if outcome.Failed? { return StoreError(outcome.error); }
      lastWALOffset := wal.CurrentOffset();
      return Done;
    }

    /** The state after one operation: a refused append changes nothing, a refused store change stays in the log,
        and only a success moves the snapshot offset. */
    twostate predicate Performed(r: Result, ok: bool, outcome: M.Outcome, before: M.State, after: M.State, w: W.Writer)
      reads this, store, store.userIndex, wal, wal.dir
    {
      && wal.Model() == w
      && (if !ok then r == WalError && store.Model() == before && lastWALOffset == old(lastWALOffset)
          else
            && store.Model() == after
            && (match outcome
                case Ok => r == Done && lastWALOffset == W.CurrentOffset(w)
                case Failed(error) => r == StoreError(error) && lastWALOffset == old(lastWALOffset)))
    }

    method DeleteExpired(now: int) returns (count: nat)
      modifies store, store.userIndex
      ensures store.Model() == M.CleanupExpired(old(store.Model()), now) && store.userIndex == old(store.userIndex)
      ensures count == |M.ExpiredIds(old(store.sessions), now)|
    {
      count := store.CleanupExpired(now);
    }

    /** DeleteByUserID: one DELETE per unexpired session of the user goes to the log, in the order in which the
        sessions were listed; the store then drops all of them, expired ones included. */
    method DeleteByUserID(userId: string, now: int) returns (deleted: nat, ghost order: seq<string>)
      requires Valid()
      modifies store, store.userIndex, wal, wal.dir
      ensures Valid() && store.userIndex == old(store.userIndex)
      ensures store.Model() == M.DeleteByUser(old(store.Model()), userId)
      ensures M.OwnIds(old(store.sessions)) ==>
        MemoryStore.SetOf(order) == M.LiveIds(old(store.Model()), userId, now) && MemoryStore.Distinct(order)
      ensures wal.Model() == AppendAll(wal.lib, wal.cfg, old(wal.Model()), LiveRuns.DeleteEntries(order, now))
      ensures M.Indexed(old(store.Model())) ==> deleted == |M.IdsOf(old(store.sessions), userId)|
    {
      hide M.DeleteByUser, M.LiveIds, W.Append, MemoryStore.Distinct, MemoryStore.SetOf;
      var sessions := store.ListByUserID(userId, now);
      order := MemoryStore.IdsIn(sessions);
      ghost var es := LiveRuns.DeleteEntries(order, now);
      for i := 0 to |sessions|
        invariant Valid() && unchanged(store) && unchanged(store.userIndex)
        invariant wal.Model() == AppendAll(wal.lib, wal.cfg, old(wal.Model()), es[..i])
      {
        var ok := Append(NewDeleteEntry(sessions[i].id, now), 0);
        assert es[..i + 1][..i] == es[..i] && es[..i + 1][i] == NewDeleteEntry(sessions[i].id, now);
      }
      assert es[..|es|] == es;
      deleted := store.DeleteByUserID(userId);
      if M.Indexed(old(store.Model())) {
        UserIdsAreStored(old(store.Model()), userId);
      }
    }

    /** applyEntry: true when the entry counts as applied. */
    method ApplyEntry(e: Entry) returns (applied: bool)
      modifies store, store.userIndex
      ensures store.Model() == Apply(old(store.Model()), store.maxSessionsPerUser, e)
      ensures applied == CountsAsApplied(old(store.Model()), store.maxSessionsPerUser, e)
      ensures store.userIndex == old(store.userIndex)
    {
      match e.op
      case OpCreate =>
        if e.session == None { return false; }
        var r := store.Create(e.session.value);
        return r.Ok? || r.error == M.ErrConflict;
      case OpUpdate =>
        if e.session == None { return false; }
        var r, version := store.Update(e.session.value, PrevVersion(e.session.value.version));
        return r.Ok? || r.error == M.ErrNotFound || r.error == M.ErrVersionConflict;
      case OpDelete =>
        var r := store.Delete(e.sessionId);
        return r.Ok? || r.error == M.ErrNotFound;
      case OpUnspecified => return false;
    }

    /** One entry of the replay: an expired CREATE is left out, anything else is applied. */
    method ReplayEntry(e: Entry, now: int) returns (applied: bool)
      requires Valid()
      modifies this, store, store.userIndex
      ensures Valid() && store.userIndex == old(store.userIndex)
      ensures store.Model() == Replay(old(store.Model()), store.maxSessionsPerUser, now, [e])
      ensures applied == (!Skipped(e, now) && CountsAsApplied(old(store.Model()), store.maxSessionsPerUser, e))
      ensures lastWALOffset == if applied then W.CurrentOffset(wal.Model()) else old(lastWALOffset)
    {
      hide Apply, CountsAsApplied;
      ReplayOne(store.Model(), store.maxSessionsPerUser, now, e);
      if Skipped(e, now) { return false; }
      applied := ApplyEntry(e);
      if applied { lastWALOffset := wal.CurrentOffset(); }
    }

    /** replayWAL: read errors are passed over, expired CREATEs are left out, everything else is applied. */
    method ReplayWAL(fromOffset: nat, now: int) returns (applied: nat, ghost ids: seq<nat>)
      requires Valid()
      modifies this, store, store.userIndex
      ensures Valid() && store.userIndex == old(store.userIndex)
      ensures Sorting.Sorts(ids, wal.dir.files.Keys) && (forall i | 0 <= i < |ids| :: ids[i] in wal.dir.files)
      ensures store.Model() == Replay(old(store.Model()), store.maxSessionsPerUser, now,
                R.Stream(wal.lib, R.SeekTo(ids, WalFiles.Listed(wal.dir.files, ids), fromOffset)))
      ensures applied == AppliedIn(old(store.Model()), store.maxSessionsPerUser, now,
                R.Stream(wal.lib, R.SeekTo(ids, WalFiles.Listed(wal.dir.files, ids), fromOffset)))
      ensures lastWALOffset == if applied > 0 then W.CurrentOffset(wal.Model()) else old(lastWALOffset)
    {
      hide AppliedIn, CountsAsApplied, W.CurrentOffset, Skipped, Replay, R.Stream, R.Read, R.SeekTo, WalFiles.Listed,
          Sorting.Sorts;
      applied := 0;
      var reader := new WalFiles.Reader(wal.lib, wal.dir);
      ids := reader.segments;
      reader.Seek(fromOffset);
      ghost var all := R.Stream(wal.lib, reader.Model());
      ghost var seen: seq<Entry> := [];
      ghost var max := store.maxSessionsPerUser;
      ReplayNothing(store.Model(), max, now);
      while true
        invariant Valid() && reader.Valid() && store.userIndex == old(store.userIndex) && unchanged(wal) &&
                  unchanged(wal.dir)
        invariant reader.dir == wal.dir && reader.lib == wal.lib && fresh(reader)
        invariant seen + R.Stream(wal.lib, reader.Model()) == all
        invariant store.Model() == Replay(old(store.Model()), max, now, seen)
        invariant applied == AppliedIn(old(store.Model()), max, now, seen)
        invariant lastWALOffset == if applied > 0 then W.CurrentOffset(wal.Model()) else old(lastWALOffset)
        decreases |reader.Model().rest|, R.Left(reader.Model())
      {
        StreamStep(wal.lib, reader.Model(), seen);
        var r := reader.Read();
        match r
        case Eof => return;
        case Failure =>
        case Got(e) =>
          ReplayAppend(old(store.Model()), max, now, seen, [e]);
          AppliedSnoc(old(store.Model()), max, now, seen, e);
          seen := seen + [e];
          var ok := ReplayEntry(e, now);
          if ok { applied := applied + 1; }
      }
    }

    /** The first step of Recover: every session of the snapshot goes through Create; refusals are logged. */
    method LoadSessions(sessions: seq<Session>)
      requires store.Model() == M.EMPTY
      modifies store, store.userIndex
      ensures store.Model() == M.CreateAll(store.maxSessionsPerUser, sessions)
      ensures store.userIndex == old(store.userIndex)
    {
      hide M.Create;
      for i := 0 to |sessions|
        invariant store.userIndex == old(store.userIndex)
        invariant store.Model() == M.CreateAll(store.maxSessionsPerUser, sessions[..i])
      {
        assert sessions[..i + 1][..i] == sessions[..i];
        var r := store.Create(sessions[i]);
      }
      assert sessions[..|sessions|] == sessions;
    }

    /** Recover, on a fresh engine: the newest readable snapshot, then the log from the snapshot's offset on;
        without any snapshot, the whole log. */
    method Recover(snapLib: Snapshot.Library, snapshots: seq<seq<byte>>, now: int)
        returns (ok: bool, ghost choice: Snapshot.Choice, ghost ids: seq<nat>)
      requires Valid() && store.Model() == M.EMPTY
      modifies this, store, store.userIndex
      ensures Valid() && Snapshot.IsChoice(snapLib, snapshots, choice) && ok == (choice != Snapshot.GaveUp)
      ensures !ok ==> store.Model() == M.EMPTY && lastWALOffset == old(lastWALOffset)
      ensures ok ==> Sorting.Sorts(ids, wal.dir.files.Keys) && (forall i | 0 <= i < |ids| :: ids[i] in wal.dir.files)
      ensures ok ==>
        var (sessions, offset) := if choice.Chosen? then (choice.sessions, choice.header.walLastOffset) else ([], 0);
        var loaded := M.CreateAll(store.maxSessionsPerUser, sessions);
        var entries := R.Stream(wal.lib, R.SeekTo(ids, WalFiles.Listed(wal.dir.files, ids), offset));
        && store.Model() == Replay(loaded, store.maxSessionsPerUser, now, entries)
        && lastWALOffset ==
           if AppliedIn(loaded, store.maxSessionsPerUser, now, entries) > 0 then W.CurrentOffset(wal.Model())
           else if choice.Chosen? then choice.header.walLastOffset
           else old(lastWALOffset)
    {
      hide Snapshot.IsChoice, R.Stream, R.SeekTo, WalFiles.Listed, Sorting.Sorts, Replay, AppliedIn, W.CurrentOffset;
      ids := [];
      var r := Snapshot.Load(snapLib, snapshots);
      choice := r;
      if r == Snapshot.GaveUp { return false, choice, ids; }
      var walOffset := 0;
      var sessions: seq<Session> := [];
      if r.Chosen? {
        sessions := r.sessions;
        walOffset := r.header.walLastOffset;
        lastWALOffset := walOffset;
      }
      LoadSessions(sessions);
      var applied;
      applied, ids := ReplayWAL(walOffset, now);
      return true, choice, ids;
    }

    /** The file that TriggerSnapshot writes: all sessions, and the offset of the last operation that succeeded. */
    method SnapshotFile(snapLib: Snapshot.Library, nodeId: string, now: int, nonce: nat)
        returns (file: seq<byte>, sessions: seq<Session>)
      ensures M.OwnIds(store.sessions) ==> StoreRuns.Lists(sessions, store.sessions)
      ensures file == Snapshot.Create(snapLib, now, nodeId, sessions, lastWALOffset, nonce)
    {
      sessions := store.All();
      file := Snapshot.Create(snapLib, now, nodeId, sessions, lastWALOffset, nonce);
    }
  }

  /** Appending several entries one after the other; a refused one is reported and the next one tried. */
  function AppendAll(lib: Codec.Library, cfg: W.Config, w: W.Writer, es: seq<Entry>): W.Writer {
    if es == [] then w else W.Append(lib, cfg, AppendAll(lib, cfg, w, es[..|es| - 1]), es[|es| - 1], 0).0
  }

  lemma UserIdsAreStored(st: M.State, u: string)
    requires M.Indexed(st)
    ensures MemoryStore.Stored(st.sessions, if u in st.users then st.users[u] else {}) == |M.IdsOf(st.sessions, u)|
  {
    assert st.sessions.Keys * (if u in st.users then st.users[u] else {}) == M.IdsOf(st.sessions, u);
  }

  lemma ReplayNothing(st: M.State, max: int, now: int)
    ensures Replay(st, max, now, []) == st && AppliedIn(st, max, now, []) == 0
  {}

  /** One read, seen from the loop that has already got `seen`. */
  lemma StreamStep(lib: Codec.Library, r: R.Reader, seen: seq<Entry>)
    ensures var (result, r') := R.Read(lib, r);
            match result
            case Eof => seen + R.Stream(lib, r) == seen
            case Failure => R.Stream(lib, r) == R.Stream(lib, r')
            case Got(e) => seen + R.Stream(lib, r) == seen + [e] + R.Stream(lib, r')
  {}

  lemma AppendStaysOpen(lib: Codec.Library, cfg: W.Config, w: W.Writer, e: Entry, nonce: nat)
    requires w.open || w.closed
    ensures var w' := W.Append(lib, cfg, w, e, nonce).0; w'.open || w'.closed
  {}
}
