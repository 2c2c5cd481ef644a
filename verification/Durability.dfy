/** End to end: from the operations of a live engine, through the bytes of its log, to the store that a later
    engine recovers from them. */
module Durability {
  import opened Domain
  import opened Entries
  import opened Bytes
  import Codec
  import M = StoreModel
  import LiveRuns
  import opened Recovery
  import opened RecoveryTheorem
  import R = LogReader
  import W = LogWriter
  import LogTheorems
  import LogRuns
  import LogOffsets
  import WalFiles
  import Sorting
  import Snapshot
  import StoreRuns

  /** What a replay leaves of a store, as far as the log can carry it. */
  function KeptSessions(st: M.State, owner: string -> Owner): map<string, Session> {
    map id | id in st.sessions && owner(id).kept :: Strip(st.sessions[id])
  }

  /** The log received what the engine logged; flushes and restarts may fall anywhere in between. */
  ghost predicate Logs(lib: Codec.Library, wops: seq<LogRuns.LogOp>, max: int, ops: seq<LiveRuns.Timed>) {
    LogRuns.AllFit(lib, wops) && LogRuns.Appended(wops) == LiveRuns.Run(max, ops).log
  }

  /** What a reader that scans a directory returns from offset 0. */
  function Scanned(lib: Codec.Library, files: map<nat, seq<byte>>, ids: seq<nat>): seq<Entry>
    requires forall i | 0 <= i < |ids| :: ids[i] in files
  {
    R.Stream(lib, R.SeekTo(ids, WalFiles.Listed(files, ids), 0))
  }

  lemma ScannedIs(lib: Codec.Library, files: map<nat, seq<byte>>, ids: seq<nat>, latest: nat)
    requires Sorting.Sorts(ids, files.Keys) && forall id <- files :: id <= latest
    ensures forall i | 0 <= i < |ids| :: ids[i] in files
    ensures Scanned(lib, files, ids) == R.Stream(lib, LogTheorems.FromStart(LogTheorems.Contents(files, latest)))
  {
    hide R.Stream, LogTheorems.Contents;
    WalFiles.ScanIsInOrder(files, ids, latest);
    var contents := WalFiles.Listed(files, ids);
    WalFiles.FirstFromIs(ids, 0, 0);
    assert contents[0..] == contents;
  }

  /** Clean restart: after any sound run and a Close, an engine that starts on the same directory, where its writer
      first opens a new segment, and recovers without a snapshot rebuilds exactly the sessions whose CREATE had not
      expired, with exact indexes. */
  lemma CleanRestartRecovers(lib: Codec.Library, cfg: W.Config, wops: seq<LogRuns.LogOp>, ids: seq<nat>,
                             max: nat, now: int, owner: string -> Owner, ops: seq<LiveRuns.Timed>)
    requires lib.Lawful() && Logs(lib, wops, max, ops) && SoundRun(max, now, owner, ops)
    requires Sorting.Sorts(ids, LogRuns.Restart(lib, cfg, LogRuns.Run(lib, cfg, wops)).files.Keys)
    ensures var files := LogRuns.Restart(lib, cfg, LogRuns.Run(lib, cfg, wops)).files;
            && (forall i | 0 <= i < |ids| :: ids[i] in files)
            && var r := Recovered(max, now, [], Scanned(lib, files, ids));
               M.Indexed(r) && LiveRuns.StripAll(r).sessions == KeptSessions(LiveRuns.Run(max, ops).store, owner)
  {
    hide R.Stream, LogTheorems.Contents, LogRuns.Restart, LogRuns.Run, LiveRuns.Run, Recovered, M.Indexed, SoundRun,
         lib.Lawful, W.Good, W.Log, Scanned, LogRuns.Pending;
    var w := LogRuns.Run(lib, cfg, wops);
    LogRuns.Conservation(lib, cfg, wops);
    LogRuns.RestartIsRead(lib, cfg, w);
    LogRuns.RestartKeepsLog(lib, cfg, w);
    var w' := LogRuns.Restart(lib, cfg, w);
    LogRuns.GoodIsThere(lib, w');
    ScannedIs(lib, w'.files, ids, w'.segmentId);
    RecoveryWithoutSnapshot(max, now, owner, ops);
  }

  /** The place in a run that a prefix of its log leads to: n whole operations, and j entries of the next one, which
      logs more than that. Only a deletion by user logs several. */
  ghost predicate Reaches(max: int, ops: seq<LiveRuns.Timed>, n: nat, j: nat, log: seq<Entry>) {
    n <= |ops| && (n == |ops| ==> j == 0) && (n < |ops| ==> j < |LiveRuns.Logged(ops[n])|) &&
    log == LiveRuns.Run(max, ops[..n]).log + if n < |ops| then LiveRuns.Logged(ops[n])[..j] else []
  }

  /** Every prefix of the log leads to such a place. */
  lemma {:induction false} PrefixIsARun(max: int, ops: seq<LiveRuns.Timed>, p: nat) returns (n: nat, j: nat)
    requires p <= |LiveRuns.Run(max, ops).log|
    ensures Reaches(max, ops, n, j, LiveRuns.Run(max, ops).log[..p])
  {
    hide LiveRuns.StoreStep, LiveRuns.Logged;
    var log := LiveRuns.Run(max, ops).log;
    if p == |log| {
      n, j := |ops|, 0;
      assert ops[..n] == ops && log[..p] == log;
    } else {
      var before, x := ops[..|ops| - 1], ops[|ops| - 1];
      var part := LiveRuns.Run(max, before).log;
      if p < |part| {
        n, j := PrefixIsARun(max, before, p);
        PrefixStopsInside(max, before, n, j, part, p);
        assert before[..n] == ops[..n] && before[n] == ops[n];
        assert log[..p] == part[..p];
      } else {
        n, j := |ops| - 1, p - |part|;
        assert log[..p] == part + LiveRuns.Logged(x)[..j];
      }
    }
  }

  /** A proper prefix ends before the last operation is through. */
  lemma PrefixStopsInside(max: int, ops: seq<LiveRuns.Timed>, n: nat, j: nat, log: seq<Entry>, p: nat)
    requires log == LiveRuns.Run(max, ops).log && p < |log| && Reaches(max, ops, n, j, log[..p])
    ensures n < |ops|
  {
    assert ops[..|ops|] == ops;
  }

  lemma PlaceIsThere(max: int, ops: seq<LiveRuns.Timed>, n: nat, j: nat, log: seq<Entry>)
    requires Reaches(max, ops, n, j, log)
    ensures n <= |ops| && (n < |ops| ==> j < |LiveRuns.Logged(ops[n])|)
    ensures |log| == |LiveRuns.Run(max, ops[..n]).log| + j
  {}

  /** The sessions that the first j entries of the next operation have already deleted. */
  function BegunWith(ops: seq<LiveRuns.Timed>, n: nat, j: nat): set<string> {
    if n < |ops| && ops[n].op.DeleteByUser? && j <= |ops[n].op.order| then set id | id in ops[n].op.order[..j] else {}
  }

  lemma ReplayBegun(r: M.State, max: int, now: int, ops: seq<LiveRuns.Timed>, n: nat, j: nat)
    requires n < |ops| && j < |LiveRuns.Logged(ops[n])|
    ensures Replay(r, max, now, LiveRuns.Logged(ops[n])[..j]).sessions == r.sessions - BegunWith(ops, n, j)
  {
    var x := ops[n];
    if x.op.DeleteByUser? {
      assert LiveRuns.Logged(x)[..j] == LiveRuns.DeleteEntries(x.op.order[..j], x.at);
      ReplayDeletes(r, max, now, x.op.order[..j], x.at);
    } else {
      assert LiveRuns.Logged(x)[..j] == [];
      assert r.sessions - {} == r.sessions;
    }
  }

  /** What recovery makes of a log that ends at such a place. */
  lemma RecoveredAtPlace(max: nat, now: int, owner: string -> Owner, ops: seq<LiveRuns.Timed>, n: nat, j: nat,
                         log: seq<Entry>)
    requires SoundRun(max, now, owner, ops) && Reaches(max, ops, n, j, log) && log <= LiveRuns.Run(max, ops).log
    ensures var r := Recovered(max, now, [], log);
            && M.Indexed(r)
            && LiveRuns.StripAll(r).sessions == KeptSessions(LiveRuns.Run(max, ops[..n]).store,
                owner) - BegunWith(ops, n, j)
  {
    hide LiveRuns.Run, LiveRuns.Logged, Replay, M.Indexed, SoundRun, Owned;
    SoundPrefix(max, now, owner, ops, n);
    KeptAfter(max, now, owner, ops[..n]);
    var done := LiveRuns.Run(max, ops[..n]).log;
    var r := Recovered(max, now, [], done);
    PrefixIsIndexed(max, now, owner, ops, log);
    if n < |ops| {
      var begun := LiveRuns.Logged(ops[n])[..j];
      ReplayAppend(M.CreateAll(max, []), max, now, done, begun);
      ReplayBegun(r, max, now, ops, n, j);
    } else {
      assert log == done;
      assert LiveRuns.StripAll(r).sessions - {} == LiveRuns.StripAll(r).sessions;
    }
  }

  lemma PrefixIsIndexed(max: nat, now: int, owner: string -> Owner, ops: seq<LiveRuns.Timed>, log: seq<Entry>)
    requires SoundRun(max, now, owner, ops) && log <= LiveRuns.Run(max, ops).log
    ensures M.Indexed(Recovered(max, now, [], log))
  {
    hide LiveRuns.Run, SoundRun, M.Indexed, Owned, Healthy;
    RunKeepsInvariant(max, now, owner, ops);
    EmptyIsOwned(owner);
    assert M.CreateAll(max, []) == M.EMPTY;
    assert Formed(log, now, owner);
    ReplayKeepsIndexed(M.EMPTY, max, now, owner, log);
  }

  lemma EmptyIsOwned(owner: string -> Owner)
    ensures M.Indexed(M.EMPTY) && Owned(M.EMPTY, owner)
  {}

  /** Crash: whatever part of the open segment survives, the recovered store has exact indexes and is the live store as
      it was after some earlier operation, cut down to what a replay keeps; if the log ends inside a deletion by user,
      the sessions whose DELETEs survive are gone from it too. If every flushed byte survives, the entries logged since
      then are those still in the buffer, and a batch was not yet full. A writer can be opened again, and so an engine
      started, if and only if the magic of the open segment survived; it continues that segment and leaves the
      directory as the crash did. */
  lemma CrashRecovers(lib: Codec.Library, cfg: W.Config, wops: seq<LogRuns.LogOp>, cut: nat, ids: seq<nat>,
                      max: nat, now: int, owner: string -> Owner, ops: seq<LiveRuns.Timed>) returns (n: nat, j: nat)
    requires lib.Lawful() && Logs(lib, wops, max, ops) && SoundRun(max, now, owner, ops)
    requires cut <= |LogRuns.Run(lib, cfg, wops).written|
    requires !R.VerifyTrailer(lib, LogRuns.Run(lib, cfg, wops).written[..cut]).Sealed?
    requires Sorting.Sorts(ids, LogTheorems.CrashFiles(LogRuns.Run(lib, cfg, wops), cut).Keys)
    ensures n <= |ops| && (n < |ops| ==> j < |LiveRuns.Logged(ops[n])|)
    ensures var w := LogRuns.Run(lib, cfg, wops);
            var files := LogTheorems.CrashFiles(w, cut);
            && (forall i | 0 <= i < |ids| :: ids[i] in files)
            && w.segmentId in files && (W.Reopen(lib, files, w.segmentId).Some? <==> cut >= R.MAGIC_SIZE)
            && (cut >= R.MAGIC_SIZE ==> W.Reopen(lib, files, w.segmentId).value.files == files)
            && var r := Recovered(max, now, [], Scanned(lib, files, ids));
            && M.Indexed(r)
            && LiveRuns.StripAll(r).sessions == KeptSessions(LiveRuns.Run(max, ops[..n]).store,
                owner) - BegunWith(ops, n, j)
            && (cut == |w.written| ==>
                  && |LiveRuns.Run(max, ops).log| - |LiveRuns.Run(max, ops[..n]).log| - j == |w.buffer|
                  && (w.buffer == [] || (|w.buffer| < cfg.batchCount && TotalSize(w.buffer) < cfg.batchBytes)))
  {
    hide R.Stream, LogTheorems.Contents, LogTheorems.CrashFiles, LogRuns.Run, LiveRuns.Run, Recovered, M.Indexed,
        SoundRun,
         lib.Lawful, R.VerifyTrailer, TotalSize, KeptSessions, LiveRuns.StripAll, LiveRuns.Logged, BegunWith, Scanned,
         W.Reopen, W.Good, LogRuns.Pending, Reaches;
    var w := LogRuns.Run(lib, cfg, wops);
    LogRuns.CrashLosesABoundedTail(lib, cfg, wops, cut);
    LogRuns.Conservation(lib, cfg, wops);
    LogRuns.CrashReopensIff(lib, w, cut);
    ScannedIs(lib, LogTheorems.CrashFiles(w, cut), ids, w.segmentId);
    var survivors := Scanned(lib, LogTheorems.CrashFiles(w, cut), ids);
    var log := LiveRuns.Run(max, ops).log;
    assert survivors == log[..|survivors|];
    n, j := PrefixIsARun(max, ops, |survivors|);
    PlaceIsThere(max, ops, n, j, survivors);
    RecoveredAtPlace(max, now, owner, ops, n, j, survivors);
  }

  lemma KeptAfter(max: nat, now: int, owner: string -> Owner, ops: seq<LiveRuns.Timed>)
    requires SoundRun(max, now, owner, ops)
    ensures var r := Recovered(max, now, [], LiveRuns.Run(max, ops).log);
            M.Indexed(r) && LiveRuns.StripAll(r).sessions == KeptSessions(LiveRuns.Run(max, ops).store, owner)
  {
    hide LiveRuns.Run, Recovered, M.Indexed, SoundRun;
    RecoveryWithoutSnapshot(max, now, owner, ops);
  }

  // ---------------------------------------------------------------- recovery behind a snapshot

  /** Every offset that the writer reports lies inside a segment, behind its magic. */
  lemma OffsetIsInside(lib: Codec.Library, w: W.Writer)
    requires W.Good(lib, w) && w.open && LogRuns.InRange(w)
    ensures W.CurrentOffset(w) % TWO_TO_32 >= R.MAGIC_SIZE
  {
    LogRuns.OffsetDecodes(w);
  }

  /** So behind a snapshot, unless the bytes after its offset happen to contain the magic at a multiple of eight,
      recovery replays nothing: the rebuilt store is the snapshot alone, and every operation since is lost. */
  lemma NothingBehindTheSnapshot(lib: Codec.Library, max: int, now: int, list: seq<Session>,
                                 ids: seq<nat>, contents: seq<seq<byte>>, offset: nat)
    requires |contents| == |ids|
    requires var i := R.FirstFrom(ids, offset / TWO_TO_32);
             && i < |ids| && |contents[i]| >= R.MAGIC_SIZE && contents[i][..R.MAGIC_SIZE] == R.MAGIC
             && R.NoMagic(R.Section(R.Data(lib, contents[i]), offset % TWO_TO_32))
    ensures R.Stream(lib, R.SeekTo(ids, contents, offset)) == []
    ensures Recovered(max, now, list, R.Stream(lib, R.SeekTo(ids, contents, offset))) == M.CreateAll(max, list)
  {
    hide R.Stream, R.Data, M.CreateAll;
    var i := R.FirstFrom(ids, offset / TWO_TO_32);
    assert contents[i..] == [contents[i]] + contents[i + 1..];
    R.SeekIntoSegment(lib, contents[i], contents[i + 1..], offset % TWO_TO_32);
  }

  /** The offset that a snapshot carries stands for a log position k as the recovery theorem takes it: not beyond what
      the snapshot covers, and what lies behind it in the log at any later time are the logged entries from k on. Here
      the writer has done m operations when the engine has done n. */
  lemma SnapshotOffsetIsAPosition(lib: Codec.Library, cfg: W.Config, wops: seq<LogRuns.LogOp>, m: nat,
                                  max: int, ops: seq<LiveRuns.Timed>, n: nat) returns (k: nat)
    requires lib.Lawful() && Logs(lib, wops, max, ops) && m <= |wops| && n <= |ops|
    requires LogRuns.Appended(wops[..m]) == LiveRuns.Run(max, ops[..n]).log
    requires LogRuns.InRange(LogRuns.Run(lib, cfg, wops[..m]))
    ensures k <= |LiveRuns.Run(max, ops[..n]).log| && k <= |LiveRuns.Run(max, ops).log|
    ensures var w, offset := LogRuns.Run(lib, cfg, wops), W.CurrentOffset(LogRuns.Run(lib, cfg, wops[..m]));
            && LogOffsets.Inside(w, offset / TWO_TO_32, offset % TWO_TO_32)
            && LogOffsets.Behind(lib, w, offset / TWO_TO_32, offset % TWO_TO_32) == LiveRuns.Run(max, ops).log[k..]
  {
    hide LogRuns.Run, LiveRuns.Run, lib.Lawful, LogRuns.AllFit, LogOffsets.Behind, LogOffsets.Inside, W.CurrentOffset;
    k := LogOffsets.OffsetStandsFor(lib, cfg, wops, m);
  }

  /** Over whole runs, then: after a flush or a restart, and unless the magic recurs behind the snapshot's offset,
      recovery behind the snapshot replays nothing, although the log holds the entries from k on there. It is complete
      if and only if there are none, that is if nothing was flushed since. */
  lemma BehindSnapshotIsCompleteIff(lib: Codec.Library, cfg: W.Config, wops: seq<LogRuns.LogOp>, m: nat, ids: seq<nat>)
      returns (k: nat)
    requires lib.Lawful() && LogRuns.AllFit(lib, wops) && m <= |wops| &&
             LogRuns.InRange(LogRuns.Run(lib, cfg, wops[..m]))
    requires LogRuns.Run(lib, cfg, wops).buffer == [] && Sorting.Sorts(ids, LogRuns.Run(lib, cfg, wops).files.Keys)
    requires var w, offset := LogRuns.Run(lib, cfg, wops), W.CurrentOffset(LogRuns.Run(lib, cfg, wops[..m]));
             offset / TWO_TO_32 in w.files ==>
               R.NoMagic(R.Section(R.Data(lib, w.files[offset / TWO_TO_32]), offset % TWO_TO_32))
    ensures k + |LogRuns.Run(lib, cfg, wops[..m]).buffer| == |LogRuns.Appended(wops[..m])| &&
            k <= |LogRuns.Appended(wops)|
    ensures var w, offset := LogRuns.Run(lib, cfg, wops), W.CurrentOffset(LogRuns.Run(lib, cfg, wops[..m]));
            && LogOffsets.Inside(w, offset / TWO_TO_32, offset % TWO_TO_32)
            && LogOffsets.Behind(lib, w, offset / TWO_TO_32, offset % TWO_TO_32) == LogRuns.Appended(wops)[k..]
            && (forall i | 0 <= i < |ids| :: ids[i] in w.files)
            && var replayed := R.Stream(lib, R.SeekTo(ids, WalFiles.Listed(w.files, ids), offset));
               replayed == [] && (replayed == LogRuns.Appended(wops)[k..] <==> k == |LogRuns.Appended(wops)|)
  {
    hide LogRuns.Run, lib.Lawful, LogRuns.AllFit, LogOffsets.Behind, W.CurrentOffset, R.Stream, R.NoMagic, R.Data,
        R.Section,
         R.SeekTo, W.Good, LogRuns.Pending, LogOffsets.Inside;
    k := LogOffsets.OffsetStandsFor(lib, cfg, wops, m);
    var w, offset := LogRuns.Run(lib, cfg, wops), W.CurrentOffset(LogRuns.Run(lib, cfg, wops[..m]));
    LogRuns.Conservation(lib, cfg, wops);
    LogOffsets.InsideIsThere(w, offset / TWO_TO_32, offset % TWO_TO_32);
    SegmentHasMagic(lib, w, offset / TWO_TO_32);
    var i := SegmentIsListed(ids, w.files, offset / TWO_TO_32);
    NothingBehindTheSnapshot(lib, 0, 0, [], ids, WalFiles.Listed(w.files, ids), offset);
  }

  lemma SegmentHasMagic(lib: Codec.Library, w: W.Writer, segment: nat)
    requires W.Good(lib, w) && w.open && segment in w.files
    ensures |w.files[segment]| >= R.MAGIC_SIZE && w.files[segment][..R.MAGIC_SIZE] == R.MAGIC
  {
    hide W.Complete;
  }

  lemma SegmentIsListed(ids: seq<nat>, files: map<nat, seq<byte>>, segment: nat) returns (i: nat)
    requires Sorting.Sorts(ids, files.Keys) && segment in files
    ensures (forall j | 0 <= j < |ids| :: ids[j] in files) && i < |ids| && ids[i] == segment &&
            R.FirstFrom(ids, segment) == i
  {
    i :| 0 <= i < |ids| && ids[i] == segment;
    WalFiles.FirstFromIs(ids, segment, i);
  }

  /** A restart right after a snapshot: the file that was written last is the one that is loaded, and if the log brings
      nothing behind it, the recovered store is the one at the snapshot, every field of every session included. */
  lemma RestartHoldsTheSnapshot(snapLib: Snapshot.Library, older: seq<seq<byte>>, at: int, nodeId: string,
                                list: seq<Session>, offset: nat, nonce: nat, choice: Snapshot.Choice,
                                st: M.State, max: nat, now: int)
    requires snapLib.Lawful() && Healthy(st, max) && StoreRuns.Lists(list, st.sessions)
    requires |snapLib.marshalHeader(Snapshot.HeaderFor(snapLib, at, nodeId, list, offset))| < TWO_TO_32
    requires |Snapshot.DataFor(snapLib, list, nonce)| < TWO_TO_32
    requires Snapshot.IsChoice(snapLib, older + [Snapshot.Create(snapLib, at, nodeId, list, offset, nonce)], choice)
    ensures choice.Chosen? && choice.index == |older| && choice.header.walLastOffset == offset
    ensures Replay(M.CreateAll(max, choice.sessions), max, now, []) == st
  {
    hide snapLib.Lawful, Snapshot.IsChoice, Snapshot.Create, Snapshot.DataFor, M.CreateAll;
    Snapshot.NewestIsChosen(snapLib, older, at, nodeId, list, offset, nonce, choice);
    StoreRuns.LoadIsExact(list, st, max);
  }
}
