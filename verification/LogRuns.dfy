/** Whole runs of the WAL writer: appends, flushes and clean restarts in any order. */
module LogRuns {
  import opened Domain
  import opened Entries
  import opened Bytes
  import opened Codec
  import opened LogReader
  import opened LogWriter
  import opened LogTheorems

  datatype LogOp = AppendOp(entry: Entry, nonce: nat) | FlushOp | RestartOp

  /** A writer on an empty directory. */
  function Start(): Writer {
    OpenSegment(Writer(map[], 1, false, [], 0, [], false))
  }

  /** Close, then NewWriter on the same directory. */
  function Restart(lib: Library, cfg: Config, w: Writer): Writer {
    var w' := Close(lib, cfg, w);
    if w'.segmentId in w'.files && Reopen(lib, w'.files, w'.segmentId).Some?
    then Reopen(lib, w'.files, w'.segmentId).value else w'
  }

  function Step(lib: Library, cfg: Config, w: Writer, op: LogOp): Writer {
    match op
    case AppendOp(e, nonce) => Append(lib, cfg, w, e, nonce).0
    case FlushOp => Flush(lib, cfg, w)
    case RestartOp => Restart(lib, cfg, w)
  }

  /** A run that starts with a given writer. */
  function RunFrom(lib: Library, cfg: Config, w: Writer, ops: seq<LogOp>): Writer {
    if ops == [] then w else Step(lib, cfg, RunFrom(lib, cfg, w, ops[..|ops| - 1]), ops[|ops| - 1])
  }

  function Run(lib: Library, cfg: Config, ops: seq<LogOp>): Writer {
    RunFrom(lib, cfg, Start(), ops)
  }

  /** The entries that a caller appended, as a reader decodes them. */
  function Appended(ops: seq<LogOp>): seq<Entry> {
    if ops == [] then [] else
    var before, last := Appended(ops[..|ops| - 1]), ops[|ops| - 1];
    if last.AppendOp? && Encodable(last.entry) then before + [Wire(last.entry)] else before
  }

  predicate Encodable(e: Entry) {
    e.op != OpUnspecified && (e.op != OpDelete ==> e.session != None)
  }

  ghost predicate AllFit(lib: Library, ops: seq<LogOp>) {
    forall i | 0 <= i < |ops| && ops[i].AppendOp? :: Fits(lib, ops[i].entry, ops[i].nonce)
  }

  /** Every buffered frame stands for one entry, and the buffer is below both batch thresholds. */
  predicate Pending(lib: Library, cfg: Config, w: Writer) {
    && |Frames(lib, Concat(w.buffer))| == |w.buffer|
    && (w.buffer == [] || !BatchIsFull(cfg, w.buffer))
  }

  lemma StartIsGood(lib: Library)
    ensures Good(lib, Start()) && Start().open && Start().buffer == [] && Log(lib, Start()) == []
  {
    hide Frames, Complete, FirstFrame;
    NothingYet(lib);
    assert SealedLog(lib, Start().files, 0) == [];
  }

  lemma ReopenSealed(lib: Library, w: Writer)
    requires Good(lib, w) && !w.open
    ensures Reopen(lib, w.files, w.segmentId) ==
            Some(OpenSegment(Writer(w.files, w.segmentId + 1, false, [], 0, [], false)))
  {
    hide Frames, Complete, FirstFrame;
    var file := w.files[w.segmentId];
    var n := |file| - CHECKSUM_SIZE;
    assert file[..n][..MAGIC_SIZE] == file[..MAGIC_SIZE];
  }

  /** A clean restart continues the same log in a new segment. */
  lemma RestartKeepsLog(lib: Library, cfg: Config, w: Writer)
    requires lib.Lawful() && Good(lib, w) && w.open
    ensures var w' := Restart(lib, cfg, w);
            Good(lib, w') && w'.open && w'.buffer == [] && Log(lib, w') == Log(lib, w)
  {
    hide Frames, Complete, SealedLog, GoodSealed, GoodData, Concat, Close, lib.Lawful, VerifyTrailer;
    var c := Close(lib, cfg, w);
    CloseKeepsLog(lib, cfg, w);
    ReopenSealed(lib, c);
    var w' := Restart(lib, cfg, w);
    NothingYet(lib);
    SealedLogFrame(lib, c.files, w'.files, c.segmentId);
    Regroup(SealedLog(lib, c.files, c.segmentId), [], []);
  }

  lemma StepKeepsPending(lib: Library, cfg: Config, w: Writer, e: Entry, nonce: nat)
    requires lib.Lawful() && Good(lib, w) && w.open && Fits(lib, e, nonce) && Pending(lib, cfg, w)
    ensures var w' := Append(lib, cfg, w, e, nonce).0; Pending(lib, cfg, w') && w'.open
  {
    hide Frames, Complete, SealedLog, GoodSealed, GoodData, Concat, EncodeFrame, lib.Lawful, NeedsRotation, Rotate,
        TotalSize;
    NothingYet(lib);
    if EncodeFrame(lib, e, nonce).Ok? {
      var f := EncodeFrame(lib, e, nonce).value;
      EncodedIsComplete(lib, e, nonce);
      ConcatSnoc(w.buffer, f);
      FramesAppend(lib, Concat(w.buffer), f);
      BufferKeepsLog(lib, w, e, nonce);
      FlushKeepsLog(lib, cfg, w.(buffer := w.buffer + [f]));
    }
  }

  /** Conservation from any good writer on: what it held, then what is appended. */
  lemma {:induction false} ConservationFrom(lib: Library, cfg: Config, w: Writer, ops: seq<LogOp>)
    requires lib.Lawful() && AllFit(lib, ops) && Good(lib, w) && w.open && Pending(lib, cfg, w)
    ensures var w' := RunFrom(lib, cfg, w, ops);
            Good(lib, w') && w'.open && Log(lib, w') == Log(lib, w) + Appended(ops) && Pending(lib, cfg, w')
  {
    hide Frames, Complete, SealedLog, GoodSealed, GoodData, Log, Append, Flush, Restart, Good, Pending, lib.Lawful,
        Fits;
    GoodHasHeader(lib, w);
    if ops == [] {
      Regroup(Log(lib, w), [], []);
    } else {
      var before := RunFrom(lib, cfg, w, ops[..|ops| - 1]);
      ConservationFrom(lib, cfg, w, ops[..|ops| - 1]);
      match ops[|ops| - 1] {
        case AppendOp(e, nonce) =>
          OpenIsNotClosed(lib, before);
          AppendExtendsLog(lib, cfg, before, e, nonce);
          StepKeepsPending(lib, cfg, before, e, nonce);
          Regroup(Log(lib, w), Appended(ops[..|ops| - 1]), []);
          Regroup(Log(lib, w), Appended(ops[..|ops| - 1]), if Encodable(e) then [Wire(e)] else []);
        case FlushOp =>
          FlushKeepsLog(lib, cfg, before);
          NothingPending(lib, cfg, Flush(lib, cfg, before));
        case RestartOp =>
          RestartKeepsLog(lib, cfg, before);
          NothingPending(lib, cfg, Restart(lib, cfg, before));
      }
    }
  }

  /** Conservation: in every run, sealed segments in id order, open segment and buffer together hold exactly the
      appended entries, in order. */
  lemma Conservation(lib: Library, cfg: Config, ops: seq<LogOp>)
    requires lib.Lawful() && AllFit(lib, ops)
    ensures var w := Run(lib, cfg, ops);
            Good(lib, w) && w.open && Log(lib, w) == Appended(ops) && Pending(lib, cfg, w)
  {
    hide Log, Good, Pending, lib.Lawful, AllFit, Start, RunFrom;
    StartIsGood(lib);
    NothingPending(lib, cfg, Start());
    ConservationFrom(lib, cfg, Start(), ops);
    Regroup(Appended(ops), [], []);
  }

  lemma OpenIsNotClosed(lib: Library, w: Writer)
    requires Good(lib, w) && w.open
    ensures !w.closed
  {}

  lemma NothingPending(lib: Library, cfg: Config, w: Writer)
    requires w.buffer == []
    ensures Pending(lib, cfg, w)
  {
    NothingYet(lib);
  }

  /** After any run and a Close, a reader from offset 0 returns exactly the appended entries. */
  lemma AppendedIsRead(lib: Library, cfg: Config, ops: seq<LogOp>)
    requires lib.Lawful() && AllFit(lib, ops)
    ensures var w := Close(lib, cfg, Run(lib, cfg, ops));
            Stream(lib, FromStart(Contents(w.files, w.segmentId))) == Appended(ops)
  {
    hide Frames, SealedLog, GoodSealed, GoodData, Close, Pending, lib.Lawful, Stream, Contents;
    Conservation(lib, cfg, ops);
    CloseKeepsLog(lib, cfg, Run(lib, cfg, ops));
    ClosedLogIsRead(lib, Close(lib, cfg, Run(lib, cfg, ops)));
  }

  /** A writer that was closed and opened again has added a segment; a reader from offset 0 still returns the log. */
  lemma RestartIsRead(lib: Library, cfg: Config, w: Writer)
    requires lib.Lawful() && Good(lib, w) && w.open
    ensures var w' := Restart(lib, cfg, w); Stream(lib, FromStart(Contents(w'.files, w'.segmentId))) == Log(lib, w)
  {
    hide Frames, SealedLog, Close, lib.Lawful, Stream, Contents, Concat, WholeBefore, Complete, GoodSealed, GoodFiles,
        Log, Flush;
    var w' := Restart(lib, cfg, w);
    RestartKeepsLog(lib, cfg, w);
    RestartIsFresh(lib, cfg, w);
    assert w'.written[..MAGIC_SIZE] == MAGIC == w'.written;
    assert CrashFiles(w', MAGIC_SIZE) == w'.files;
    CrashPrefix(lib, w', MAGIC_SIZE);
    AllWhole(lib, w');
    NothingBuffered(lib);
  }

  lemma NothingBuffered(lib: Library)
    ensures |Frames(lib, Concat([]))| == 0
  {
    NothingYet(lib);
  }

  lemma RestartIsFresh(lib: Library, cfg: Config, w: Writer)
    requires lib.Lawful() && Good(lib, w) && w.open
    ensures var w' := Restart(lib, cfg, w); w'.written == MAGIC && w'.buffer == []
  {
    hide Good, Log, Close, Reopen, lib.Lawful;
    CloseKeepsLog(lib, cfg, w);
    ReopenSealed(lib, Close(lib, cfg, w));
    GoodIsThere(lib, Close(lib, cfg, w));
  }

  lemma GoodIsThere(lib: Library, w: Writer)
    requires Good(lib, w)
    ensures w.segmentId in w.files && forall id <- w.files :: id <= w.segmentId
  {}

  /** After a crash a writer can be opened again if and only if the magic of the open segment survived; it then goes on
      in that segment. */
  lemma CrashReopensIff(lib: Library, w: Writer, cut: nat)
    requires Good(lib, w) && w.open && cut <= |w.written|
    requires !VerifyTrailer(lib, w.written[..cut]).Sealed?
    ensures var files := CrashFiles(w, cut);
            && w.segmentId in files && (forall id <- files :: id <= w.segmentId)
            && Reopen(lib, files, w.segmentId) ==
               if cut < MAGIC_SIZE then None
               else Some(Writer(files, w.segmentId, true, w.written[..cut], 0, [], false))
  {
    hide Frames, Complete, GoodFiles, Concat, VerifyTrailer;
    if cut >= MAGIC_SIZE {
      assert w.written[..cut][..MAGIC_SIZE] == w.written[..MAGIC_SIZE];
    }
  }

  /** The writer that goes on after a crash. */
  function Reopened(w: Writer, cut: nat): Writer
    requires cut <= |w.written|
  {
    Writer(CrashFiles(w, cut), w.segmentId, true, w.written[..cut], 0, [], false)
  }

  /** Cut between two frames, a log loses its tail and is otherwise as good as before. */
  lemma CrashAtBoundaryIsGood(lib: Library, cfg: Config, w: Writer, cut: nat)
    requires Good(lib, w) && w.open && MAGIC_SIZE <= cut <= |w.written| && Complete(lib, w.written[MAGIC_SIZE..cut])
    requires !VerifyTrailer(lib, w.written[..cut]).Sealed?
    ensures var w' := Reopened(w, cut);
            && Reopen(lib, CrashFiles(w, cut), w.segmentId) == Some(w')
            && Good(lib, w') && Pending(lib, cfg, w') && Survivors(lib, w, cut) <= |Log(lib, w)|
            && Log(lib, w') == Log(lib, w)[..Survivors(lib, w, cut)]
  {
    hide Frames, Complete, SealedLog, GoodSealed, Concat, VerifyTrailer, WholeBefore, Stream, Contents;
    var w' := Reopened(w, cut);
    GoodHasHeader(lib, w);
    CrashReopensIff(lib, w, cut);
    CrashKeepsSealed(lib, w, cut);
    assert w.written[..cut][MAGIC_SIZE..] == w.written[MAGIC_SIZE..cut];
    assert w.written[..cut][..MAGIC_SIZE] == w.written[..MAGIC_SIZE];
    NothingPending(lib, cfg, w');
    NothingBuffered(lib);
    EmptyIsComplete(lib);
    CrashPrefix(lib, w, cut);
    UncutIsRead(lib, w');
  }

  lemma EmptyIsComplete(lib: Library)
    ensures Complete(lib, Concat([]))
  {}

  /** A reader of an open writer's directory returns all but the buffer. */
  lemma UncutIsRead(lib: Library, w: Writer)
    requires Good(lib, w) && w.open && w.buffer == [] && !VerifyTrailer(lib, w.written).Sealed?
    ensures Stream(lib, FromStart(Contents(w.files, w.segmentId))) == Log(lib, w)
  {
    hide Frames, SealedLog, Stream, Contents, Concat, WholeBefore, Complete, GoodSealed, GoodFiles, Log, VerifyTrailer;
    GoodHasHeader(lib, w);
    assert w.written[..|w.written|] == w.written;
    assert CrashFiles(w, |w.written|) == w.files;
    CrashPrefix(lib, w, |w.written|);
    AllWhole(lib, w);
    NothingBuffered(lib);
  }

  /** A run with a crash: if the open segment is cut between two frames, what survived and everything that is appended
      afterwards is read back, in order. At any other cut, LogTheorems.TornTailHidesLaterFrames says what is read. */
  lemma CrashThenAppend(lib: Library, cfg: Config, w: Writer, cut: nat, ops: seq<LogOp>)
    requires lib.Lawful() && AllFit(lib, ops)
    requires Good(lib, w) && w.open && MAGIC_SIZE <= cut <= |w.written| && Complete(lib, w.written[MAGIC_SIZE..cut])
    requires !VerifyTrailer(lib, w.written[..cut]).Sealed?
    ensures Survivors(lib, w, cut) <= |Log(lib, w)|
    ensures var w' := Close(lib, cfg, RunFrom(lib, cfg, Reopened(w, cut), ops));
            Stream(lib, FromStart(Contents(w'.files, w'.segmentId))) == Log(lib, w)[..Survivors(lib, w, cut)] +
                Appended(ops)
  {
    hide Frames, SealedLog, GoodSealed, GoodData, Close, Pending, lib.Lawful, Stream, Contents, VerifyTrailer,
        Reopen, RunFrom,
         Complete, Survivors, Good, Log;
    CrashAtBoundaryIsGood(lib, cfg, w, cut);
    ConservationFrom(lib, cfg, Reopened(w, cut), ops);
    var w' := RunFrom(lib, cfg, Reopened(w, cut), ops);
    CloseKeepsLog(lib, cfg, w');
    ClosedLogIsRead(lib, Close(lib, cfg, w'));
  }

  /** Bounded loss: a crash after any run leaves a prefix of what was appended. If no flushed byte is lost, fewer
      than batchCount entries are missing, and they fit in fewer than batchBytes bytes. */
  lemma CrashLosesABoundedTail(lib: Library, cfg: Config, ops: seq<LogOp>, cut: nat)
    requires lib.Lawful() && AllFit(lib, ops)
    requires cut <= |Run(lib, cfg, ops).written|
    requires !VerifyTrailer(lib, Run(lib, cfg, ops).written[..cut]).Sealed?
    ensures var w := Run(lib, cfg, ops);
            var survivors := Stream(lib, FromStart(Contents(CrashFiles(w, cut), w.segmentId)));
            && survivors <= Appended(ops)
            && w.segmentId >= 1 && |survivors| == Survivors(lib, w, cut)
            && (cut == |w.written| ==>
                  && |Appended(ops)| - |survivors| == |w.buffer|
                  && (w.buffer == [] || (|w.buffer| < cfg.batchCount && TotalSize(w.buffer) < cfg.batchBytes)))
  {
    hide Frames, SealedLog, Good, Log, Complete, lib.Lawful, Stream, Contents, CrashFiles,
         VerifyTrailer, WholeBefore, Concat, Run;
    Conservation(lib, cfg, ops);
    var w := Run(lib, cfg, ops);
    GoodHasHeader(lib, w);
    CrashPrefix(lib, w, cut);
    if cut == |w.written| { AllWhole(lib, w); }
  }

  lemma AllWhole(lib: Library, w: Writer)
    requires Good(lib, w) && w.open && |w.written| >= MAGIC_SIZE
    ensures |SealedLog(lib, w.files, w.segmentId - 1)| +
            WholeBefore(lib, w.written[MAGIC_SIZE..], |w.written| - MAGIC_SIZE) ==
            |Log(lib, w)| - |Frames(lib, Concat(w.buffer))|
  {
    hide Frames, FirstFrame, WholeBefore, SealedLog, Concat;
    WholeBeforeEnd(lib, w.written[MAGIC_SIZE..]);
  }

  lemma {:induction false} WholeBeforeEnd(lib: Library, s: seq<byte>)
    requires Complete(lib, s)
    ensures WholeBefore(lib, s, |s|) == |Frames(lib, s)|
    decreases |s|
  {
    hide FirstFrame;
    if s == [] { NothingYet(lib); NothingBefore(lib); } else { WholeBeforeEnd(lib, FirstFrame(lib, s).rest); }
  }

  // ---------------------------------------------------------------- offsets and sizes

  predicate InRange(w: Writer) {
    w.segmentId < TWO_TO_32 && |w.written| < TWO_TO_32
  }

  /** While ids and sizes fit in 32 bits, a composite offset is decoded exactly by Seek and by the compactor. */
  lemma OffsetDecodes(w: Writer)
    requires InRange(w)
    ensures CurrentOffset(w) / TWO_TO_32 == w.segmentId && CurrentOffset(w) % TWO_TO_32 == |w.written|
    ensures CurrentOffset(w) == w.segmentId * TWO_TO_32 + |w.written|
  {
    assert w.segmentId * TWO_TO_32 < TWO_TO_64;
    assert CurrentOffset(w) == w.segmentId * TWO_TO_32 + |w.written|;
  }

  /** Flushing never moves the offset back, and moves it forward whenever something was buffered -- also when it
      rotates to a new, shorter segment. */
  lemma FlushAdvancesOffset(lib: Library, cfg: Config, w: Writer)
    requires Good(lib, w) && w.open && InRange(w) && InRange(Flush(lib, cfg, w))
    ensures CurrentOffset(w) <= CurrentOffset(Flush(lib, cfg, w))
    ensures TotalSize(w.buffer) > 0 ==> CurrentOffset(w) < CurrentOffset(Flush(lib, cfg, w))
  {
    hide Good, Concat;
    OffsetDecodes(w);
    OffsetDecodes(Flush(lib, cfg, w));
    ConcatSize(w.buffer);
  }

  /** Nor does any other operation move it back: an append that only buffers leaves it, a restart goes on in a new
      segment. */
  lemma StepNeverMovesBack(lib: Library, cfg: Config, w: Writer, op: LogOp)
    requires Good(lib, w) && w.open && InRange(w) && InRange(Step(lib, cfg, w, op)) && lib.Lawful()
    requires op.AppendOp? ==> Fits(lib, op.entry, op.nonce)
    ensures CurrentOffset(w) <= CurrentOffset(Step(lib, cfg, w, op))
    ensures op.RestartOp? ==> CurrentOffset(w) < CurrentOffset(Step(lib, cfg, w, op))
  {
    hide Good, Log, EncodeFrame, Flush, Reopen, CurrentOffset, lib.Lawful, Fits;
    var w' := Step(lib, cfg, w, op);
    OffsetDecodes(w);
    OffsetDecodes(w');
    OpenIsNotClosed(lib, w);
    match op {
      case AppendOp(e, nonce) =>
        if EncodeFrame(lib, e, nonce).Ok? {
          FlushGoesOn(lib, cfg, w.(buffer := w.buffer + [EncodeFrame(lib, e, nonce).value]));
        }
      case FlushOp => FlushGoesOn(lib, cfg, w);
      case RestartOp =>
        FlushGoesOn(lib, cfg, w);
        CloseKeepsLog(lib, cfg, w);
        ReopenSealed(lib, Close(lib, cfg, w));
        FlushKeepsLog(lib, cfg, w);
    }
  }

  lemma FlushGoesOn(lib: Library, cfg: Config, w: Writer)
    ensures var w' := Flush(lib, cfg, w);
            w'.segmentId > w.segmentId || (w'.segmentId == w.segmentId && |w'.written| >= |w.written|)
  {}

  /** So over every run the reported offset never decreases. */
  lemma {:induction false} OffsetNeverDecreases(lib: Library, cfg: Config, ops: seq<LogOp>, n: nat)
    requires lib.Lawful() && AllFit(lib, ops) && n <= |ops|
    requires forall m | n <= m <= |ops| :: InRange(Run(lib, cfg, ops[..m]))
    ensures CurrentOffset(Run(lib, cfg, ops[..n])) <= CurrentOffset(Run(lib, cfg, ops))
    decreases |ops|
  {
    hide Good, Log, Step, CurrentOffset, InRange, Pending, lib.Lawful, Fits;
    if n == |ops| {
      assert ops[..n] == ops;
    } else {
      var before := ops[..|ops| - 1];
      assert ops[..|ops|] == ops;
      forall m | n <= m <= |before|
        ensures before[..m] == ops[..m]
      {}
      OffsetNeverDecreases(lib, cfg, before, n);
      Conservation(lib, cfg, before);
      assert InRange(Run(lib, cfg, ops[..|ops| - 1])) && InRange(Run(lib, cfg, ops[..|ops|]));
      StepNeverMovesBack(lib, cfg, Run(lib, cfg, before), ops[|ops| - 1]);
    }
  }

  function Max(a: int, b: int): int {
    if a < b then b else a
  }

  /** The most bytes a segment can hold when no frame is longer than maxFrame: the configured size, or the magic
      and one batch when a single batch is larger than that. */
  function SegmentLimit(cfg: Config, maxFrame: nat): int {
    Max(cfg.maxFileSize, MAGIC_SIZE + Max(cfg.batchBytes, 0) + maxFrame)
  }

  predicate ShortFrames(buffer: seq<seq<byte>>, cfg: Config, maxFrame: nat) {
    TotalSize(buffer) <= Max(cfg.batchBytes, 0) + maxFrame
  }

  /** The open segment is within the limit, and so is every file, its digest aside. */
  predicate Small(w: Writer, limit: int) {
    |w.written| <= limit && forall id <- w.files :: |w.files[id]| <= limit + CHECKSUM_SIZE
  }

  lemma FlushKeepsSmall(lib: Library, cfg: Config, w: Writer, maxFrame: nat)
    requires lib.Lawful() && Small(w, SegmentLimit(cfg, maxFrame)) && ShortFrames(w.buffer, cfg, maxFrame)
    ensures Small(Flush(lib, cfg, w), SegmentLimit(cfg, maxFrame))
  {
    ConcatSize(w.buffer);
  }

  lemma RestartKeepsSmall(lib: Library, cfg: Config, w: Writer, maxFrame: nat)
    requires lib.Lawful() && Good(lib, w) && w.open
    requires Small(w, SegmentLimit(cfg, maxFrame)) && ShortFrames(w.buffer, cfg, maxFrame)
    ensures Small(Restart(lib, cfg, w), SegmentLimit(cfg, maxFrame))
  {
    hide Good, Flush, Reopen, TotalSize;
    OpenIsNotClosed(lib, w);
    FlushKeepsLog(lib, cfg, w);
    FlushKeepsSmall(lib, cfg, w, maxFrame);
    CloseKeepsLog(lib, cfg, w);
    ReopenSealed(lib, Close(lib, cfg, w));
  }

  lemma AppendKeepsSmall(lib: Library, cfg: Config, w: Writer, e: Entry, nonce: nat, maxFrame: nat)
    requires lib.Lawful() && Small(w, SegmentLimit(cfg, maxFrame)) && (w.buffer == [] || !BatchIsFull(cfg, w.buffer))
    requires EncodeFrame(lib, e, nonce).Ok? ==> |EncodeFrame(lib, e, nonce).value| <= maxFrame
    ensures Small(Append(lib, cfg, w, e, nonce).0, SegmentLimit(cfg, maxFrame))
  {
    hide EncodeFrame, Flush, lib.Lawful, TotalSize, ShortFrames, BatchIsFull, SegmentLimit;
    if EncodeFrame(lib, e, nonce).Ok? {
      var f := EncodeFrame(lib, e, nonce).value;
      ShortAfter(cfg, w.buffer, f, maxFrame);
      FlushKeepsSmall(lib, cfg, w.(buffer := w.buffer + [f]), maxFrame);
    }
  }

  lemma ShortAfter(cfg: Config, buffer: seq<seq<byte>>, f: seq<byte>, maxFrame: nat)
    requires (buffer == [] || !BatchIsFull(cfg, buffer)) && |f| <= maxFrame
    ensures ShortFrames(buffer + [f], cfg, maxFrame)
  {
    ConcatSnoc(buffer, f);
  }

  /** Every segment of every run stays within the limit. */
  lemma {:induction false} SegmentsStaySmall(lib: Library, cfg: Config, ops: seq<LogOp>, maxFrame: nat)
    requires lib.Lawful() && AllFit(lib, ops)
    requires forall i | 0 <= i < |ops| && ops[i].AppendOp? && EncodeFrame(lib, ops[i].entry, ops[i].nonce).Ok? ::
               |EncodeFrame(lib, ops[i].entry, ops[i].nonce).value| <= maxFrame
    ensures Small(Run(lib, cfg, ops), SegmentLimit(cfg, maxFrame))
  {
    hide Good, Log, Frames, EncodeFrame, lib.Lawful, Flush, Append, Restart, Concat;
    if ops != [] {
      var before := ops[..|ops| - 1];
      var w := Run(lib, cfg, before);
      SegmentsStaySmall(lib, cfg, before, maxFrame);
      Conservation(lib, cfg, before);
      match ops[|ops| - 1]
      case AppendOp(e, nonce) => AppendKeepsSmall(lib, cfg, w, e, nonce, maxFrame);
      case FlushOp => FlushKeepsSmall(lib, cfg, w, maxFrame);
      case RestartOp => RestartKeepsSmall(lib, cfg, w, maxFrame);
    }
  }
}
