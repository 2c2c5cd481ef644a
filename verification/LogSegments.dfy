/** How the log is cut into segments: when an append reaches the disk, when a flush opens a new segment, and how many
    entries a segment can hold (src/internal/storage/wal/writer.go:181-252). */
module LogSegments {
  import opened Domain
  import opened Entries
  import opened Bytes
  import opened Codec
  import opened LogReader
  import opened LogWriter
  import opened LogTheorems
  import opened LogRuns

  /** An accepted append is written out exactly when it fills the batch, by count or by bytes; until then it only
      waits in the buffer and no file changes. */
  lemma AppendFlushesIff(lib: Library, cfg: Config, w: Writer, e: Entry, nonce: nat)
    requires w.open && !w.closed && EncodeFrame(lib, e, nonce).Ok?
    ensures var frame, w' := EncodeFrame(lib, e, nonce).value, Append(lib, cfg, w, e, nonce).0;
            if |w.buffer| + 1 >= cfg.batchCount || TotalSize(w.buffer) + |frame| >= cfg.batchBytes
            then w'.buffer == [] && w' == Flush(lib, cfg, w.(buffer := w.buffer + [frame]))
            else w' == w.(buffer := w.buffer + [frame])
  {
    hide EncodeFrame, TotalSize;
    ConcatSnoc(w.buffer, EncodeFrame(lib, e, nonce).value);
  }

  /** A flush with something to write opens a new segment exactly when the open one would exceed its size or its number
      of entries; either way all of the buffer goes behind what is in the segment then. */
  lemma FlushRotatesIff(lib: Library, cfg: Config, w: Writer)
    requires w.open && w.buffer != []
    ensures var w' := Flush(lib, cfg, w);
            if |w.written| + TotalSize(w.buffer) > cfg.maxFileSize || w.entries + |w.buffer| > cfg.maxEntryCount
            then
              && w'.segmentId == w.segmentId + 1 && w'.written == MAGIC + Concat(w.buffer) && w'.entries == |w.buffer|
              && w'.files == w.files[w.segmentId := w.written + lib.sha256(w.written)][w.segmentId + 1 := w'.written]
            else
              && w'.segmentId == w.segmentId && w'.written == w.written + Concat(w.buffer)
              && w'.entries == w.entries + |w.buffer| && w'.files == w.files[w.segmentId := w'.written]
  {
    hide Concat, TotalSize;
    var w' := Flush(lib, cfg, w);
    var sealed: map<nat, seq<byte>> := w.files[w.segmentId := w.written + lib.sha256(w.written)];
    var next: nat := w.segmentId + 1;
    assert sealed[next := MAGIC][next := w'.written] == sealed[next := w'.written];
  }

  /** A new segment begins with "TOKMWAL" and the byte 1, and holds nothing else. */
  lemma SegmentBegins(w: Writer)
    ensures OpenSegment(w).written == [84, 79, 75, 77, 87, 65, 76, 1]
    ensures OpenSegment(w).files == w.files[w.segmentId := [84, 79, 75, 77, 87, 65, 76, 1]]
    ensures OpenSegment(w).entries == 0 && OpenSegment(w).segmentId == w.segmentId && OpenSegment(w).buffer == w.buffer
  {}

  // ---------------------------------------------------------------- entries in a segment

  /** What a segment can hold: the configured number, or one batch when that is larger. */
  function EntryLimit(cfg: Config): int {
    Max(cfg.maxEntryCount, Max(cfg.batchCount, 1))
  }

  /** The segment `first`, in which counting began when it held `base` entries, holds at most the limit beyond those;
      every later one at most the limit. The writer's own count is that of the open segment. */
  predicate Counted(lib: Library, cfg: Config, w: Writer, first: nat, base: nat)
    requires |w.written| >= MAGIC_SIZE
  {
    && w.segmentId >= first && w.entries <= EntryLimit(cfg)
    && |Frames(lib, w.written[MAGIC_SIZE..])| == w.entries + (if w.segmentId == first then base else 0)
    && (forall id <- w.files :: first <= id < w.segmentId ==>
          |SealedFrames(lib, w.files[id])| <= EntryLimit(cfg) + if id == first then base else 0)
  }

  lemma WriteKeepsCounted(lib: Library, cfg: Config, w: Writer, first: nat, base: nat)
    requires Good(lib, w) && w.open && |w.written| >= MAGIC_SIZE && Counted(lib, cfg, w, first, base)
    requires |Frames(lib, Concat(w.buffer))| == |w.buffer| && w.entries + |w.buffer| <= EntryLimit(cfg)
    ensures |WriteBuffer(w).written| >= MAGIC_SIZE && Counted(lib, cfg, WriteBuffer(w), first, base)
  {
    hide Frames, Complete, SealedFrames, Concat, GoodFiles;
    DataAppend(lib, w.written, Concat(w.buffer));
  }

  lemma RotateKeepsCounted(lib: Library, cfg: Config, w: Writer, first: nat, base: nat)
    requires lib.Lawful() && Good(lib, w) && w.open && |w.written| >= MAGIC_SIZE && Counted(lib, cfg, w, first, base)
    ensures |Rotate(lib, w).written| >= MAGIC_SIZE && Counted(lib, cfg, Rotate(lib, w), first, base)
    ensures Rotate(lib, w).entries == 0
  {
    hide Frames, Complete, SealedFrames, GoodFiles, lib.Lawful, Concat;
    SealedIsGood(lib, w.written);
    NothingYet(lib);
    LimitIsPositive(cfg);
  }

  lemma LimitIsPositive(cfg: Config)
    ensures EntryLimit(cfg) >= 1 && EntryLimit(cfg) >= cfg.batchCount && EntryLimit(cfg) >= cfg.maxEntryCount
  {}

  lemma FlushKeepsCounted(lib: Library, cfg: Config, w: Writer, first: nat, base: nat)
    requires lib.Lawful() && Good(lib, w) && w.open && |w.written| >= MAGIC_SIZE && Counted(lib, cfg, w, first, base)
    requires |Frames(lib, Concat(w.buffer))| == |w.buffer| && (|w.buffer| <= cfg.batchCount || |w.buffer| <= 1)
    ensures |Flush(lib, cfg, w).written| >= MAGIC_SIZE && Counted(lib, cfg, Flush(lib, cfg, w), first, base)
  {
    hide Frames, Good, Counted, Concat, lib.Lawful, TotalSize, EntryLimit, Rotate, WriteBuffer;
    LimitIsPositive(cfg);
    if w.buffer != [] {
      if NeedsRotation(cfg, w) {
        RotateKeepsCounted(lib, cfg, w, first, base);
        RotateKeepsLog(lib, w);
        RotatedStaysOpen(lib, w);
        WriteKeepsCounted(lib, cfg, Rotate(lib, w), first, base);
      } else {
        WriteKeepsCounted(lib, cfg, w, first, base);
      }
    }
  }

  lemma RotatedStaysOpen(lib: Library, w: Writer)
    ensures Rotate(lib, w).open && Rotate(lib, w).buffer == w.buffer
  {}

  lemma BufferIsOneBatch(lib: Library, cfg: Config, w: Writer, frame: seq<byte>)
    requires Pending(lib, cfg, w) && Good(lib, w) && Complete(lib, frame) && |Frames(lib, frame)| == 1
    ensures var buffer := w.buffer + [frame];
            |Frames(lib, Concat(buffer))| == |buffer| && (|buffer| <= cfg.batchCount || |buffer| <= 1)
  {
    hide Frames, Complete, TotalSize;
    ConcatSnoc(w.buffer, frame);
    FramesAppend(lib, Concat(w.buffer), frame);
  }

  lemma AppendKeepsCounted(lib: Library, cfg: Config, w: Writer, e: Entry, nonce: nat, first: nat, base: nat)
    requires lib.Lawful() && Good(lib, w) && w.open && |w.written| >= MAGIC_SIZE && Counted(lib, cfg, w, first, base)
    requires Pending(lib, cfg, w) && Fits(lib, e, nonce)
    ensures var w' := Append(lib, cfg, w, e, nonce).0; |w'.written| >= MAGIC_SIZE && Counted(lib, cfg, w', first, base)
  {
    hide Frames, Good, Concat, lib.Lawful, TotalSize, EncodeFrame, Flush, SealedFrames, Pending;
    OpenIsNotClosed(lib, w);
    if EncodeFrame(lib, e, nonce).Ok? {
      var frame := EncodeFrame(lib, e, nonce).value;
      EncodedIsComplete(lib, e, nonce);
      BufferKeepsLog(lib, w, e, nonce);
      BufferIsOneBatch(lib, cfg, w, frame);
      FlushKeepsCounted(lib, cfg, w.(buffer := w.buffer + [frame]), first, base);
    }
  }

  lemma RestartKeepsCounted(lib: Library, cfg: Config, w: Writer, first: nat, base: nat)
    requires lib.Lawful() && Good(lib, w) && w.open && |w.written| >= MAGIC_SIZE && Counted(lib, cfg, w, first, base)
    requires Pending(lib, cfg, w)
    ensures var w' := Restart(lib, cfg, w); |w'.written| >= MAGIC_SIZE && Counted(lib, cfg, w', first, base)
  {
    hide Frames, Good, Concat, lib.Lawful, TotalSize, Flush, SealedFrames, Reopen, Log;
    OpenIsNotClosed(lib, w);
    FlushKeepsLog(lib, cfg, w);
    FlushKeepsCounted(lib, cfg, w, first, base);
    CloseKeepsLog(lib, cfg, w);
    var flushed, c := Flush(lib, cfg, w), Close(lib, cfg, w);
    GoodHasData(lib, flushed);
    SealedIsGood(lib, flushed.written);
    ReopenSealed(lib, c);
    GoodIsThere(lib, c);
    NothingYet(lib);
    LimitIsPositive(cfg);
  }

  lemma GoodHasData(lib: Library, w: Writer)
    requires Good(lib, w) && w.open
    ensures GoodData(lib, w.written)
  {}

  /** Entry limit of segments, counted from any good writer on: the segment in which counting began holds at most the
      limit beyond what it held, and every later one at most the limit. */
  lemma {:induction false} SegmentsHoldFewFrom(lib: Library, cfg: Config, w: Writer, ops: seq<LogOp>)
    requires lib.Lawful() && AllFit(lib, ops) && Good(lib, w) && w.open && |w.written| >= MAGIC_SIZE && w.entries == 0
    requires Pending(lib, cfg, w)
    ensures var w' := RunFrom(lib, cfg, w, ops);
            |w'.written| >= MAGIC_SIZE &&
            Counted(lib, cfg, w', w.segmentId, |Frames(lib, w.written[MAGIC_SIZE..])|)
  {
    hide Frames, Good, Counted, Concat, lib.Lawful, Append, Flush, Restart, Fits, Log, Pending;
    var first, base := w.segmentId, |Frames(lib, w.written[MAGIC_SIZE..])|;
    if ops == [] {
      CountingBegins(lib, cfg, w);
    } else {
      var before := RunFrom(lib, cfg, w, ops[..|ops| - 1]);
      SegmentsHoldFewFrom(lib, cfg, w, ops[..|ops| - 1]);
      ConservationFrom(lib, cfg, w, ops[..|ops| - 1]);
      match ops[|ops| - 1] {
        case AppendOp(e, nonce) => AppendKeepsCounted(lib, cfg, before, e, nonce, first, base);
        case FlushOp =>
          PendingIsOneBatch(lib, cfg, before);
          FlushKeepsCounted(lib, cfg, before, first, base);
        case RestartOp => RestartKeepsCounted(lib, cfg, before, first, base);
      }
    }
  }

  lemma CountingBegins(lib: Library, cfg: Config, w: Writer)
    requires |w.written| >= MAGIC_SIZE && w.entries == 0
    ensures Counted(lib, cfg, w, w.segmentId, |Frames(lib, w.written[MAGIC_SIZE..])|)
  {
    hide Frames, SealedFrames;
  }

  lemma PendingIsOneBatch(lib: Library, cfg: Config, w: Writer)
    requires Pending(lib, cfg, w)
    ensures |Frames(lib, Concat(w.buffer))| == |w.buffer| && (|w.buffer| <= cfg.batchCount || |w.buffer| <= 1)
  {
    hide Frames, Concat, TotalSize;
  }

  /** In every run from an empty directory no segment, sealed or open, holds more entries than the larger of
      MaxEntryCount and one batch. */
  lemma SegmentsHoldFew(lib: Library, cfg: Config, ops: seq<LogOp>)
    requires lib.Lawful() && AllFit(lib, ops)
    ensures var w := Run(lib, cfg, ops);
            && |w.written| >= MAGIC_SIZE && |Frames(lib, w.written[MAGIC_SIZE..])| <= EntryLimit(cfg)
            && (forall id <- w.files :: 1 <= id < w.segmentId ==> |SealedFrames(lib, w.files[id])| <= EntryLimit(cfg))
  {
    hide Good, Log, lib.Lawful, RunFrom, SealedFrames;
    StartIsGood(lib);
    NothingPending(lib, cfg, Start());
    NothingYet(lib);
    SegmentsHoldFewFrom(lib, cfg, Start(), ops);
  }
}
