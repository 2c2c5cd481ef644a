/** The WAL writer (src/internal/storage/wal/writer.go) as a machine: segment files, an open segment and a
    buffer of encoded frames, under Append, Flush with rotation, Close and reopening. */
module LogWriter {
  import opened Domain
  import opened Entries
  import opened Bytes
  import opened Codec
  import opened LogReader

  datatype Config = Config(batchCount: int, batchBytes: int, maxFileSize: int, maxEntryCount: int)

  /** `written` is what the open segment holds so far: the bytes counted by fileSize and fed to the hash. */
  datatype Writer = Writer(
    files: map<nat, seq<byte>>,
    segmentId: nat,
    open: bool,
    written: seq<byte>,
    entries: nat,
    buffer: seq<seq<byte>>,
    closed: bool)

  // ---------------------------------------------------------------- operations

  /** openNewSegment: a fresh file with just the magic. */
  function OpenSegment(w: Writer): Writer {
    w.(files := w.files[w.segmentId := MAGIC], open := true, written := MAGIC, entries := 0)
  }

  /** finalizeSegmentWithoutFlushingLocked: the digest of everything written goes behind it. */
  function Seal(lib: Library, w: Writer): Writer {
    w.(files := w.files[w.segmentId := w.written + lib.sha256(w.written)], open := false)
  }

  predicate NeedsRotation(cfg: Config, w: Writer) {
    |w.written| + TotalSize(w.buffer) > cfg.maxFileSize || w.entries + |w.buffer| > cfg.maxEntryCount
  }

  function Rotate(lib: Library, w: Writer): Writer {
    OpenSegment(Seal(lib, w).(segmentId := w.segmentId + 1))
  }

  function WriteBuffer(w: Writer): Writer {
    var bytes := w.written + Concat(w.buffer);
    w.(files := w.files[w.segmentId := bytes], written := bytes, entries := w.entries + |w.buffer|, buffer := [])
  }

  /** flushLocked; with nothing buffered, or with no open file, nothing changes. */
  function Flush(lib: Library, cfg: Config, w: Writer): Writer {
    if w.buffer == [] || !w.open then w
    else WriteBuffer(if NeedsRotation(cfg, w) then Rotate(lib, w) else w)
  }

  predicate BatchIsFull(cfg: Config, buffer: seq<seq<byte>>) {
    |buffer| >= cfg.batchCount || TotalSize(buffer) >= cfg.batchBytes
  }

  /** Append: refused when closed or when the entry does not encode; otherwise buffered, and flushed only when
      a batch threshold is reached. */
  function Append(lib: Library, cfg: Config, w: Writer, e: Entry, nonce: nat): (Writer, bool) {
    if w.closed then (w, false) else
    match EncodeFrame(lib, e, nonce)
    case Err(_) => (w, false)
    case Ok(frame) =>
      var w' := w.(buffer := w.buffer + [frame]);
      (if BatchIsFull(cfg, w'.buffer) then Flush(lib, cfg, w') else w', true)
  }

  function Close(lib: Library, cfg: Config, w: Writer): Writer {
    if w.closed || !w.open then w.(closed := true)
    else Seal(lib, Flush(lib, cfg, w).(closed := true))
  }

  /** CurrentOffset: (segmentID << 32) | uint32(fileSize), on a uint64. */
  function CurrentOffset(w: Writer): nat {
    w.segmentId * TWO_TO_32 % TWO_TO_64 + |w.written| % TWO_TO_32
  }

  ghost predicate IsLatest(files: map<nat, seq<byte>>, id: nat) {
    (forall i <- files :: i <= id) && (id in files || (id == 0 && files == map[]))
  }

  /** NewWriter on an existing directory: a sealed latest segment is followed by a new one, an unsealed one is
      continued where its bytes end. */
  function Reopen(lib: Library, files: map<nat, seq<byte>>, latest: nat): Option<Writer>
    requires latest != 0 ==> latest in files
  {
    if latest == 0 || VerifyTrailer(lib, files[latest]).Sealed? then
      Some(OpenSegment(Writer(files, latest + 1, false, [], 0, [], false)))
    else if |files[latest]| < MAGIC_SIZE || files[latest][..MAGIC_SIZE] != MAGIC then None
    else Some(Writer(files, latest, true, files[latest], 0, [], false))
  }

  // ---------------------------------------------------------------- whole frames

  /** The bytes are whole frames, one after the other. */
  predicate Complete(lib: Library, s: seq<byte>)
    decreases |s|
  {
    s == [] || (FirstFrame(lib, s).Whole? && Complete(lib, FirstFrame(lib, s).rest))
  }

  lemma FirstFrameExtends(lib: Library, a: seq<byte>, b: seq<byte>)
    requires FirstFrame(lib, a).Whole?
    ensures FirstFrame(lib, a + b) == Whole(FirstFrame(lib, a).entry, FirstFrame(lib, a).rest + b)
  {
    var n := 4 + Uint32(a[..4]);
    assert (a + b)[..4] == a[..4] && (a + b)[4..n] == a[4..n] && (a + b)[n..] == a[n..] + b;
  }

  lemma {:induction false} FramesAppend(lib: Library, a: seq<byte>, b: seq<byte>)
    requires Complete(lib, a)
    ensures Frames(lib, a + b) == Frames(lib, a) + Frames(lib, b)
    ensures Complete(lib, b) ==> Complete(lib, a + b)
    decreases |a|
  {
    hide FirstFrame;
    if a == [] {
      assert a + b == b;
    } else {
      FirstFrameExtends(lib, a, b);
      FramesAppend(lib, FirstFrame(lib, a).rest, b);
    }
  }

  /** An encoded frame is one whole frame, and stands for the entry as the log keeps it. */
  lemma EncodedIsComplete(lib: Library, e: Entry, nonce: nat)
    requires lib.Lawful() && Fits(lib, e, nonce) && EncodeFrame(lib, e, nonce).Ok?
    ensures var f := EncodeFrame(lib, e, nonce).value; Complete(lib, f) && Frames(lib, f) == [Wire(e)]
  {
    FrameRoundTrip(lib, e, nonce);
    var f := EncodeFrame(lib, e, nonce).value;
    assert f[4..|f|] == f[4..] && f[|f|..] == [];
    assert FirstFrame(lib, f) == Whole(Wire(e), []);
    assert Complete(lib, []) && Frames(lib, []) == [];
  }

  // ---------------------------------------------------------------- the invariant

  predicate GoodData(lib: Library, data: seq<byte>) {
    |data| >= MAGIC_SIZE && data[..MAGIC_SIZE] == MAGIC && Complete(lib, data[MAGIC_SIZE..])
  }

  predicate GoodSealed(lib: Library, file: seq<byte>) {
    && |file| >= MAGIC_SIZE + CHECKSUM_SIZE
    && file[|file| - CHECKSUM_SIZE..] == lib.sha256(file[..|file| - CHECKSUM_SIZE])
    && GoodData(lib, file[..|file| - CHECKSUM_SIZE])
  }

  predicate GoodFiles(lib: Library, files: map<nat, seq<byte>>, below: nat) {
    forall id <- files :: 1 <= id && (id < below ==> GoodSealed(lib, files[id]))
  }

  predicate Good(lib: Library, w: Writer) {
    && w.segmentId >= 1 && w.segmentId in w.files
    && (forall id <- w.files :: id <= w.segmentId)
    && GoodFiles(lib, w.files, w.segmentId)
    && (if w.open then !w.closed && w.files[w.segmentId] == w.written && GoodData(lib, w.written)
        else w.closed && w.buffer == [] && GoodSealed(lib, w.files[w.segmentId]))
    && Complete(lib, Concat(w.buffer))
  }

  /** The entries in a segment that has been sealed. */
  function SealedFrames(lib: Library, file: seq<byte>): seq<Entry> {
    if |file| < MAGIC_SIZE + CHECKSUM_SIZE then [] else Frames(lib, file[MAGIC_SIZE..|file| - CHECKSUM_SIZE])
  }

  /** The entries of the sealed segments up to an id, in id order. */
  function SealedLog(lib: Library, files: map<nat, seq<byte>>, upTo: nat): seq<Entry> {
    (if upTo == 0 then [] else SealedLog(lib, files, upTo - 1)) +
    (if upTo in files then SealedFrames(lib, files[upTo]) else [])
  }

  /** Everything the writer holds: sealed segments in id order, the open segment, the buffer. */
  function Log(lib: Library, w: Writer): seq<Entry>
    requires w.segmentId >= 1 && (w.open ==> |w.written| >= MAGIC_SIZE)
  {
    if w.open then
      SealedLog(lib, w.files, w.segmentId - 1) + Frames(lib, w.written[MAGIC_SIZE..]) + Frames(lib, Concat(w.buffer))
    else SealedLog(lib, w.files, w.segmentId)
  }

  lemma {:induction false} SealedLogFrame(lib: Library, a: map<nat, seq<byte>>, b: map<nat, seq<byte>>, upTo: nat)
    requires forall id | 0 <= id <= upTo :: (id in a <==> id in b) && (id in a ==> a[id] == b[id])
    ensures SealedLog(lib, a, upTo) == SealedLog(lib, b, upTo)
  {
    hide SealedFrames;
    if upTo > 0 { SealedLogFrame(lib, a, b, upTo - 1); }
  }

  lemma {:induction false} ConcatSnoc(parts: seq<seq<byte>>, last: seq<byte>)
    ensures Concat(parts + [last]) == Concat(parts) + last
    ensures TotalSize(parts + [last]) == TotalSize(parts) + |last|
  {
    assert (parts + [last])[..|parts + [last]| - 1] == parts;
  }

  lemma DataAppend(lib: Library, data: seq<byte>, batch: seq<byte>)
    requires GoodData(lib, data) && Complete(lib, batch)
    ensures GoodData(lib, data + batch)
    ensures Frames(lib, (data + batch)[MAGIC_SIZE..]) == Frames(lib, data[MAGIC_SIZE..]) + Frames(lib, batch)
  {
    hide FirstFrame, Frames, Complete;
    assert (data + batch)[..MAGIC_SIZE] == data[..MAGIC_SIZE];
    assert (data + batch)[MAGIC_SIZE..] == data[MAGIC_SIZE..] + batch;
    FramesAppend(lib, data[MAGIC_SIZE..], batch);
  }

  lemma Regroup(a: seq<Entry>, b: seq<Entry>, c: seq<Entry>)
    ensures a + (b + c) == a + b + c && a + [] == a && [] + a == a
  {}

  lemma NothingYet(lib: Library)
    ensures Frames(lib, []) == [] && Complete(lib, []) && Concat([]) == []
    ensures GoodData(lib, MAGIC) && MAGIC[MAGIC_SIZE..] == []
  {
    assert MAGIC[..MAGIC_SIZE] == MAGIC;
  }

  lemma WriteKeepsGood(lib: Library, w: Writer)
    requires Good(lib, w) && w.open
    ensures Good(lib, WriteBuffer(w))
  {
    hide Frames, Complete, GoodData, GoodSealed, Concat;
    DataAppend(lib, w.written, Concat(w.buffer));
    NothingYet(lib);
  }

  /** Writing the buffer moves its entries from the end of the log to the end of the open segment. */
  lemma WriteKeepsLog(lib: Library, w: Writer)
    requires Good(lib, w) && w.open
    ensures Good(lib, WriteBuffer(w)) && Log(lib, WriteBuffer(w)) == Log(lib, w)
  {
    hide Frames, Complete, SealedLog, GoodData, GoodSealed, GoodFiles, Concat;
    WriteKeepsGood(lib, w);
    GoodHasHeader(lib, w);
    DataAppend(lib, w.written, Concat(w.buffer));
    SealedLogFrame(lib, w.files, WriteBuffer(w).files, w.segmentId - 1);
    NothingYet(lib);
    var a, b, c := SealedLog(lib, w.files, w.segmentId - 1), Frames(lib, w.written[MAGIC_SIZE..]),
        Frames(lib, Concat(w.buffer));
    Regroup(a, b, c);
    Regroup(a + (b + c), [], []);
  }

  lemma GoodHasHeader(lib: Library, w: Writer)
    requires Good(lib, w)
    ensures w.segmentId >= 1 && (w.open ==> |w.written| >= MAGIC_SIZE)
  {}

  /** A sealed segment holds the entries it held while it was open. */
  lemma SealedIsGood(lib: Library, data: seq<byte>)
    requires lib.Lawful() && GoodData(lib, data)
    ensures var file := data + lib.sha256(data);
            GoodSealed(lib, file) && SealedFrames(lib, file) == Frames(lib, data[MAGIC_SIZE..])
  {
    var file := data + lib.sha256(data);
    assert |file| == |data| + CHECKSUM_SIZE;
    assert file[..|data|] == data && file[|data|..] == lib.sha256(data);
    assert file[MAGIC_SIZE..|data|] == data[MAGIC_SIZE..];
  }

  lemma SealedLogStep(lib: Library, files: map<nat, seq<byte>>, id: nat)
    requires id >= 1 && id in files
    ensures SealedLog(lib, files, id) == SealedLog(lib, files, id - 1) + SealedFrames(lib, files[id])
  {}

  lemma SealKeepsLog(lib: Library, w: Writer)
    requires lib.Lawful() && Good(lib, w) && w.open && w.buffer == []
    ensures var w' := Seal(lib, w).(closed := true); Good(lib, w') && Log(lib, w') == Log(lib, w)
  {
    hide Frames, Complete, SealedLog, GoodData, GoodSealed, SealedFrames, Concat, lib.Lawful;
    GoodHasHeader(lib, w);
    var w' := Seal(lib, w);
    SealedIsGood(lib, w.written);
    SealedLogFrame(lib, w.files, w'.files, w.segmentId - 1);
    SealedLogStep(lib, w'.files, w.segmentId);
    NothingYet(lib);
    Regroup(SealedLog(lib, w'.files, w.segmentId), [], []);
  }

  lemma RotateKeepsLog(lib: Library, w: Writer)
    requires lib.Lawful() && Good(lib, w) && w.open
    ensures Good(lib, Rotate(lib, w)) && Log(lib, Rotate(lib, w)) == Log(lib, w)
  {
    hide Frames, Complete, SealedLog, GoodData, GoodSealed, SealedFrames, Concat, lib.Lawful;
    GoodHasHeader(lib, w);
    var w' := Rotate(lib, w);
    SealedIsGood(lib, w.written);
    SealedLogFrame(lib, w.files, w'.files, w.segmentId - 1);
    SealedLogStep(lib, w'.files, w.segmentId);
    NothingYet(lib);
    Regroup(SealedLog(lib, w'.files, w.segmentId), [], []);
  }

  /** Flushing, with or without rotation, loses nothing and reorders nothing. */
  lemma FlushKeepsLog(lib: Library, cfg: Config, w: Writer)
    requires lib.Lawful() && Good(lib, w)
    ensures Good(lib, Flush(lib, cfg, w)) && Log(lib, Flush(lib, cfg, w)) == Log(lib, w)
    ensures Flush(lib, cfg, w).buffer == []
    ensures Flush(lib, cfg, w).open == w.open && Flush(lib, cfg, w).closed == w.closed
  {
    if w.buffer != [] && w.open {
      var ready := if NeedsRotation(cfg, w) then Rotate(lib, w) else w;
      if NeedsRotation(cfg, w) { RotateKeepsLog(lib, w); }
      WriteKeepsLog(lib, ready);
    }
  }

  lemma BufferKeepsLog(lib: Library, w: Writer, e: Entry, nonce: nat)
    requires lib.Lawful() && Good(lib, w) && w.open && Fits(lib, e, nonce) && EncodeFrame(lib, e, nonce).Ok?
    ensures var w' := w.(buffer := w.buffer + [EncodeFrame(lib, e, nonce).value]);
            Good(lib, w') && Log(lib, w') == Log(lib, w) + [Wire(e)]
  {
    hide Frames, Complete, SealedLog, EncodeFrame, GoodData, GoodSealed, lib.Lawful, Concat;
    GoodHasHeader(lib, w);
    var f := EncodeFrame(lib, e, nonce).value;
    EncodedIsComplete(lib, e, nonce);
    ConcatSnoc(w.buffer, f);
    FramesAppend(lib, Concat(w.buffer), f);
    var a, c := SealedLog(lib, w.files, w.segmentId - 1) + Frames(lib, w.written[MAGIC_SIZE..]),
        Frames(lib, Concat(w.buffer));
    Regroup(a, c, [Wire(e)]);
  }

  lemma EncodesIff(lib: Library, e: Entry, nonce: nat)
    requires Fits(lib, e, nonce)
    ensures EncodeFrame(lib, e, nonce).Ok? <==> e.op != OpUnspecified && (e.op != OpDelete ==> e.session != None)
  {}

  /** An accepted entry is the last of the log; a refused one leaves everything as it was. */
  lemma AppendExtendsLog(lib: Library, cfg: Config, w: Writer, e: Entry, nonce: nat)
    requires lib.Lawful() && Good(lib, w) && Fits(lib, e, nonce)
    ensures var (w', ok) := Append(lib, cfg, w, e, nonce);
            && Good(lib, w') && Log(lib, w') == Log(lib, w) + (if ok then [Wire(e)] else [])
            && w'.closed == w.closed
    ensures Append(lib, cfg, w, e, nonce).1 <==>
            !w.closed && e.op != OpUnspecified && (e.op != OpDelete ==> e.session != None)
  {
    hide EncodeFrame, Log, Frames, Complete, SealedLog, GoodData, GoodSealed, lib.Lawful;
    EncodesIff(lib, e, nonce);
    if !w.closed && EncodeFrame(lib, e, nonce).Ok? {
      var w' := w.(buffer := w.buffer + [EncodeFrame(lib, e, nonce).value]);
      BufferKeepsLog(lib, w, e, nonce);
      FlushKeepsLog(lib, cfg, w');
    }
  }

  lemma CloseKeepsLog(lib: Library, cfg: Config, w: Writer)
    requires lib.Lawful() && Good(lib, w)
    ensures var w' := Close(lib, cfg, w); Good(lib, w') && Log(lib, w') == Log(lib, w) && !w'.open && w'.closed
  {
    if w.open && !w.closed {
      FlushKeepsLog(lib, cfg, w);
      SealKeepsLog(lib, Flush(lib, cfg, w));
    }
  }
}
