/** What an offset that the writer reports stands for: a position in the sequence of appended entries. */
module LogOffsets {
  import opened Domain
  import opened Entries
  import opened Bytes
  import opened Codec
  import opened LogReader
  import opened LogWriter
  import opened LogTheorems
  import opened LogRuns

  // ---------------------------------------------------------------- a writer only ever adds

  /** Whatever a writer had written is still where it was: earlier segments are the same, and its own segment goes on
      with more bytes, followed by a digest once it is sealed. */
  predicate Extends(w: Writer, w': Writer) {
    && w'.segmentId >= w.segmentId && w.segmentId in w'.files
    && (forall id | 0 <= id < w.segmentId ::
          (id in w.files <==> id in w'.files) && (id in w.files ==> w'.files[id] == w.files[id]))
    && w.written <= w'.files[w.segmentId]
    && (if w'.segmentId == w.segmentId && w'.open then w'.files[w.segmentId] == w'.written
        else |w'.files[w.segmentId]| >= |w.written| + CHECKSUM_SIZE)
  }

  lemma ExtendsItself(lib: Library, w: Writer)
    requires Good(lib, w) && w.open
    ensures Extends(w, w)
  {
    hide Complete, GoodFiles, GoodData, Concat;
  }

  lemma WriteExtends(w: Writer, w': Writer)
    requires Extends(w, w') && w'.open
    ensures Extends(w, WriteBuffer(w'))
  {
    hide Concat;
  }

  lemma SealExtends(lib: Library, w: Writer, w': Writer)
    requires lib.Lawful() && Extends(w, w') && w'.open
    ensures Extends(w, Seal(lib, w'))
  {
    DigestHas32(lib, w'.written);
  }

  lemma DigestHas32(lib: Library, s: seq<byte>)
    requires lib.Lawful()
    ensures |lib.sha256(s)| == CHECKSUM_SIZE
  {}

  lemma OpenNextExtends(w: Writer, w': Writer, next: Writer)
    requires Extends(w, w') && !w'.open && next.files == w'.files && next.segmentId == w'.segmentId + 1
    ensures Extends(w, OpenSegment(next))
  {}

  lemma FlushExtends(lib: Library, cfg: Config, w: Writer, w': Writer)
    requires lib.Lawful() && Extends(w, w')
    ensures Extends(w, Flush(lib, cfg, w'))
  {
    hide Extends, lib.Lawful, NeedsRotation, WriteBuffer;
    if w'.buffer != [] && w'.open {
      if NeedsRotation(cfg, w') {
        SealExtends(lib, w, w');
        OpenNextExtends(w, Seal(lib, w'), Seal(lib, w').(segmentId := w'.segmentId + 1));
        WriteExtends(w, Rotate(lib, w'));
      } else {
        WriteExtends(w, w');
      }
    }
  }

  lemma BufferExtends(w: Writer, w': Writer, buffer: seq<seq<byte>>)
    requires Extends(w, w')
    ensures Extends(w, w'.(buffer := buffer))
  {}

  lemma RestartExtends(lib: Library, cfg: Config, w: Writer, w': Writer)
    requires lib.Lawful() && Good(lib, w') && w'.open && Extends(w, w')
    ensures Extends(w, Restart(lib, cfg, w'))
  {
    hide Extends, Good, Log, lib.Lawful, Flush, Seal, Reopen, OpenSegment;
    OpenIsNotClosed(lib, w');
    FlushKeepsLog(lib, cfg, w');
    FlushExtends(lib, cfg, w, w');
    var flushed := Flush(lib, cfg, w');
    ClosedExtends(w, flushed);
    SealExtends(lib, w, flushed.(closed := true));
    CloseKeepsLog(lib, cfg, w');
    var c := Close(lib, cfg, w');
    ReopenSealed(lib, c);
    GoodIsThere(lib, c);
    OpenNextExtends(w, c, Writer(c.files, c.segmentId + 1, false, [], 0, [], false));
  }

  lemma ClosedExtends(w: Writer, w': Writer)
    requires Extends(w, w')
    ensures Extends(w, w'.(closed := true))
  {}

  lemma StepExtends(lib: Library, cfg: Config, w: Writer, w': Writer, op: LogOp)
    requires lib.Lawful() && Good(lib, w') && w'.open && Extends(w, w')
    ensures Extends(w, Step(lib, cfg, w', op))
  {
    hide Extends, Good, lib.Lawful, Flush, EncodeFrame, Restart, BatchIsFull;
    match op {
      case AppendOp(e, nonce) =>
        if EncodeFrame(lib, e, nonce).Ok? {
          var buffer := w'.buffer + [EncodeFrame(lib, e, nonce).value];
          BufferExtends(w, w', buffer);
          FlushExtends(lib, cfg, w, w'.(buffer := buffer));
        }
      case FlushOp => FlushExtends(lib, cfg, w, w');
      case RestartOp => RestartExtends(lib, cfg, w, w');
    }
  }

  lemma {:induction false} RunExtends(lib: Library, cfg: Config, ops: seq<LogOp>, n: nat)
    requires lib.Lawful() && AllFit(lib, ops) && n <= |ops|
    ensures Extends(Run(lib, cfg, ops[..n]), Run(lib, cfg, ops))
    decreases |ops|
  {
    hide Extends, Good, Log, Pending, lib.Lawful, Step, Fits;
    if n == |ops| {
      assert ops[..n] == ops;
      Conservation(lib, cfg, ops);
      ExtendsItself(lib, Run(lib, cfg, ops));
    } else {
      var before := ops[..|ops| - 1];
      assert before[..n] == ops[..n];
      RunExtends(lib, cfg, before, n);
      Conservation(lib, cfg, before);
      StepExtends(lib, cfg, Run(lib, cfg, ops[..n]), Run(lib, cfg, before), ops[|ops| - 1]);
    }
  }

  // ---------------------------------------------------------------- the entries behind an offset

  /** The entries of the sealed segments from one id to another. */
  function Between(lib: Library, files: map<nat, seq<byte>>, from: nat, upTo: int): seq<Entry>
    decreases upTo - from
  {
    if upTo < from then [] else
    Between(lib, files, from, upTo - 1) + if upTo in files then SealedFrames(lib, files[upTo]) else []
  }

  /** The place lies in one of the segments, before the digest if that is sealed. */
  predicate Inside(w: Writer, segment: nat, at: nat) {
    && segment in w.files && |w.written| >= MAGIC_SIZE
    && (if segment == w.segmentId then at <= |w.written| else at + CHECKSUM_SIZE <= |w.files[segment]|)
  }

  lemma InsideIsThere(w: Writer, segment: nat, at: nat)
    requires Inside(w, segment, at)
    ensures segment in w.files
  {}

  /** Everything that an open writer holds behind a place in one of its segments, its buffer included. */
  function Behind(lib: Library, w: Writer, segment: nat, at: nat): seq<Entry>
    requires Inside(w, segment, at)
  {
    (if segment == w.segmentId then Frames(lib, w.written[at..])
     else
       Frames(lib, w.files[segment][at..|w.files[segment]| - CHECKSUM_SIZE]) +
       Between(lib, w.files, segment + 1, w.segmentId - 1) + Frames(lib, w.written[MAGIC_SIZE..])) +
    Frames(lib, Concat(w.buffer))
  }

  lemma {:induction false} SealedLogSplits(lib: Library, files: map<nat, seq<byte>>, segment: nat, upTo: nat)
    requires 1 <= segment <= upTo && segment in files
    ensures SealedLog(lib, files, upTo) ==
            SealedLog(lib, files, segment - 1) + SealedFrames(lib, files[segment]) +
                Between(lib, files, segment + 1, upTo)
    decreases upTo
  {
    hide SealedFrames;
    var a, b := SealedLog(lib, files, segment - 1), SealedFrames(lib, files[segment]);
    if upTo == segment {
      Regroup(a + b, [], []);
    } else {
      SealedLogSplits(lib, files, segment, upTo - 1);
      var c := if upTo in files then SealedFrames(lib, files[upTo]) else [];
      Regroup(a + b, Between(lib, files, segment + 1, upTo - 1), c);
    }
  }

  /** The frames of a segment that goes on: those that were there, then the new ones. */
  lemma FramesGoOn(lib: Library, written: seq<byte>, data: seq<byte>)
    requires GoodData(lib, written) && written <= data
    ensures Frames(lib, data[MAGIC_SIZE..]) == Frames(lib, written[MAGIC_SIZE..]) + Frames(lib, data[|written|..])
  {
    hide Frames, Complete;
    assert data[MAGIC_SIZE..] == written[MAGIC_SIZE..] + data[|written|..];
    FramesAppend(lib, written[MAGIC_SIZE..], data[|written|..]);
  }

  /** How many entries a writer has put into its segments. */
  function Flushed(lib: Library, w: Writer): nat
    requires Good(lib, w) && w.open
  {
    |SealedLog(lib, w.files, w.segmentId - 1)| + |Frames(lib, w.written[MAGIC_SIZE..])|
  }

  lemma SplitsAt(a: seq<Entry>, b: seq<Entry>, c: seq<Entry>, log: seq<Entry>)
    requires log == a + b + c
    ensures log[|a| + |b|..] == c && log[..|a| + |b|] == a + b
  {}

  /** The place where a good writer ended splits the log of any later writer at the number of entries flushed by
      then. */
  lemma BehindIsTheRest(lib: Library, w: Writer, w': Writer)
    requires Good(lib, w) && w.open && Good(lib, w') && w'.open && Extends(w, w')
    ensures Inside(w', w.segmentId, |w.written|) && Flushed(lib, w) <= |Log(lib, w')|
    ensures Behind(lib, w', w.segmentId, |w.written|) == Log(lib, w')[Flushed(lib, w)..]
  {
    hide Frames, SealedLog, Complete, GoodFiles, GoodSealed, Between, Concat;
    SealedLogFrame(lib, w.files, w'.files, w.segmentId - 1);
    GoodHasHeader(lib, w');
    var a, b := SealedLog(lib, w.files, w.segmentId - 1), Frames(lib, w.written[MAGIC_SIZE..]);
    var last := Frames(lib, Concat(w'.buffer));
    if w.segmentId == w'.segmentId {
      FramesGoOn(lib, w.written, w'.written);
      var c := Frames(lib, w'.written[|w.written|..]);
      Regroup(a, b, c);
      Regroup(a + b, c, last);
      SplitsAt(a, b, c + last, Log(lib, w'));
    } else {
      var file := w'.files[w.segmentId];
      var data := file[..|file| - CHECKSUM_SIZE];
      SealedLogSplits(lib, w'.files, w.segmentId, w'.segmentId - 1);
      assert data[MAGIC_SIZE..] == file[MAGIC_SIZE..|file| - CHECKSUM_SIZE];
      assert data[|w.written|..] == file[|w.written|..|file| - CHECKSUM_SIZE];
      assert w.written <= data;
      FramesGoOn(lib, w.written, data);
      var c, d := Frames(lib, data[|w.written|..]), Between(lib, w'.files, w.segmentId + 1, w'.segmentId - 1);
      var open := Frames(lib, w'.written[MAGIC_SIZE..]);
      Regroup(a, b, c);
      Regroup(a + b, c, d);
      Regroup(a + b, c + d, open);
      Regroup(a + b, c + d + open, last);
      SplitsAt(a, b, c + d + open + last, Log(lib, w'));
    }
  }

  /** An offset reported after n operations stands for a position k among the appended entries, not beyond what was
      appended by then: k entries were in the segments, the others in the buffer. In every later state of the log, what
      lies behind the offset decodes to exactly the entries from k on. */
  lemma OffsetStandsFor(lib: Library, cfg: Config, ops: seq<LogOp>, n: nat) returns (k: nat)
    requires lib.Lawful() && AllFit(lib, ops) && n <= |ops| && InRange(Run(lib, cfg, ops[..n]))
    ensures k + |Run(lib, cfg, ops[..n]).buffer| == |Appended(ops[..n])| && k <= |Appended(ops)|
    ensures var w, offset := Run(lib, cfg, ops), CurrentOffset(Run(lib, cfg, ops[..n]));
            && Inside(w, offset / TWO_TO_32, offset % TWO_TO_32)
            && Behind(lib, w, offset / TWO_TO_32, offset % TWO_TO_32) == Appended(ops)[k..]
  {
    hide Run, Good, Log, lib.Lawful, Extends, Fits, Behind, Flushed, CurrentOffset;
    FitsBefore(lib, ops, n);
    Conservation(lib, cfg, ops);
    Conservation(lib, cfg, ops[..n]);
    RunExtends(lib, cfg, ops, n);
    var w, later := Run(lib, cfg, ops[..n]), Run(lib, cfg, ops);
    OffsetDecodes(w);
    BehindIsTheRest(lib, w, later);
    FlushedIs(lib, cfg, w);
    k := Flushed(lib, w);
  }

  lemma FitsBefore(lib: Library, ops: seq<LogOp>, n: nat)
    requires AllFit(lib, ops) && n <= |ops|
    ensures AllFit(lib, ops[..n])
  {}

  lemma FlushedIs(lib: Library, cfg: Config, w: Writer)
    requires Good(lib, w) && w.open && Pending(lib, cfg, w)
    ensures Flushed(lib, w) + |w.buffer| == |Log(lib, w)|
  {
    hide Frames, SealedLog, Complete, Concat;
  }
}
