/** What the log guarantees end to end: nothing is lost or reordered between Append and a later Reader, a crash
    costs a bounded tail, and composite offsets only grow. */
module LogTheorems {
  import opened Domain
  import opened Entries
  import opened Bytes
  import opened Codec
  import opened LogReader
  import opened LogWriter

  // ---------------------------------------------------------------- reading a directory back

  /** The contents of the segments up to an id, in id order: what the reader's scan finds. */
  function Contents(files: map<nat, seq<byte>>, upTo: nat): seq<seq<byte>> {
    (if upTo == 0 then [] else Contents(files, upTo - 1)) + (if upTo in files then [files[upTo]] else [])
  }

  /** The entries of a list of segments with good headers. */
  function AllFrames(lib: Library, contents: seq<seq<byte>>): seq<Entry> {
    if contents == [] then []
    else if |contents[0]| < MAGIC_SIZE then []
    else Frames(lib, Data(lib, contents[0])[MAGIC_SIZE..]) + AllFrames(lib, contents[1..])
  }

  predicate GoodHeaders(contents: seq<seq<byte>>) {
    forall i | 0 <= i < |contents| :: |contents[i]| >= MAGIC_SIZE && contents[i][..MAGIC_SIZE] == MAGIC
  }

  function FromStart(contents: seq<seq<byte>>): Reader {
    Reader(contents, None, false, 0)
  }

  /** Each segment begins with the magic or is too short for it. */
  predicate FairHeaders(contents: seq<seq<byte>>) {
    forall i | 0 <= i < |contents| :: |contents[i]| < MAGIC_SIZE || contents[i][..MAGIC_SIZE] == MAGIC
  }

  lemma {:induction false} StreamOfFiles(lib: Library, contents: seq<seq<byte>>)
    requires FairHeaders(contents)
    ensures Stream(lib, FromStart(contents)) == AllFrames(lib, contents)
    decreases |contents|
  {
    hide Frames, Read, Data;
    if contents == [] {
      EmptyStream(lib);
    } else {
      StreamOfFile(lib, contents[0], contents[1..]);
      assert [contents[0]] + contents[1..] == contents;
      StreamOfFiles(lib, contents[1..]);
    }
  }

  lemma EmptyStream(lib: Library)
    ensures Stream(lib, FromStart([])) == []
  {
    assert Read(lib, FromStart([])).0 == Eof;
  }

  lemma {:induction false} AllFramesSnoc(lib: Library, contents: seq<seq<byte>>, file: seq<byte>)
    requires GoodHeaders(contents) && |file| >= MAGIC_SIZE && file[..MAGIC_SIZE] == MAGIC
    ensures AllFrames(lib, contents + [file]) == AllFrames(lib, contents) + Frames(lib, Data(lib, file)[MAGIC_SIZE..])
    decreases |contents|
  {
    hide Frames, Data;
    assert [file][0] == file && [file][1..] == [];
    if contents == [] {
      assert contents + [file] == [file];
      assert AllFrames(lib, []) == [];
    } else {
      AllFramesSnoc(lib, contents[1..], file);
      assert (contents + [file])[0] == contents[0] && (contents + [file])[1..] == contents[1..] + [file];
    }
  }

  /** A segment too short for its magic adds nothing. */
  lemma {:induction false} AllFramesShort(lib: Library, contents: seq<seq<byte>>, file: seq<byte>)
    requires GoodHeaders(contents) && |file| < MAGIC_SIZE
    ensures AllFrames(lib, contents + [file]) == AllFrames(lib, contents)
    decreases |contents|
  {
    hide Frames, Data;
    if contents == [] {
      assert contents + [file] == [file];
    } else {
      AllFramesShort(lib, contents[1..], file);
      assert (contents + [file])[0] == contents[0] && (contents + [file])[1..] == contents[1..] + [file];
    }
  }

  /** The reader recognises a sealed segment by its digest and reads exactly its data. */
  lemma SealedDataIsRead(lib: Library, file: seq<byte>)
    requires GoodSealed(lib, file)
    ensures |file| >= MAGIC_SIZE && file[..MAGIC_SIZE] == MAGIC
    ensures Frames(lib, Data(lib, file)[MAGIC_SIZE..]) == SealedFrames(lib, file)
  {
    hide Frames, Complete;
    var n := |file| - CHECKSUM_SIZE;
    assert file[..n][..MAGIC_SIZE] == file[..MAGIC_SIZE];
    assert Data(lib, file) == file[..n] && file[..n][MAGIC_SIZE..] == file[MAGIC_SIZE..n];
  }

  lemma {:induction false} SealedContents(lib: Library, files: map<nat, seq<byte>>, upTo: nat)
    requires GoodFiles(lib, files, upTo + 1)
    ensures GoodHeaders(Contents(files, upTo)) && AllFrames(lib, Contents(files, upTo)) == SealedLog(lib, files, upTo)
  {
    hide Frames, SealedFrames, GoodSealed, Data;
    if upTo > 0 { SealedContents(lib, files, upTo - 1); }
    var before := if upTo == 0 then [] else Contents(files, upTo - 1);
    if upTo in files {
      SealedDataIsRead(lib, files[upTo]);
      AllFramesSnoc(lib, before, files[upTo]);
    } else {
      assert Contents(files, upTo) == before;
    }
  }

  /** After Close, a reader from offset 0 returns exactly what the writer's log holds. */
  lemma ClosedLogIsRead(lib: Library, w: Writer)
    requires Good(lib, w) && !w.open
    ensures Stream(lib, FromStart(Contents(w.files, w.segmentId))) == Log(lib, w)
  {
    hide Frames, Stream, AllFrames, GoodSealed, SealedLog;
    SealedContents(lib, w.files, w.segmentId);
    StreamOfFiles(lib, Contents(w.files, w.segmentId));
  }

  // ---------------------------------------------------------------- crashes

  /** How many whole frames end at or before a position. */
  function WholeBefore(lib: Library, s: seq<byte>, cut: nat): nat
    requires cut <= |s|
    decreases |s|
  {
    match FirstFrame(lib, s)
    case Whole(_, rest) =>
      var size := |s| - |rest|;
      if size <= cut then 1 + WholeBefore(lib, rest, cut - size) else 0
    case _ => 0
  }

  /** A first frame that the cut leaves whole is read as before; one that it reaches into is not read. */
  lemma FirstFrameCut(lib: Library, s: seq<byte>, cut: nat)
    requires cut <= |s| && FirstFrame(lib, s).Whole?
    ensures var size := |s| - |FirstFrame(lib, s).rest|;
            && (size <= cut ==>
                  FirstFrame(lib, s[..cut]) == Whole(FirstFrame(lib, s).entry, FirstFrame(lib, s).rest[..cut - size]))
            && (size > cut ==> FirstFrame(lib, s[..cut]) == Stop)
  {
    var n := 4 + Uint32(s[..4]);
    if n <= cut {
      assert s[..cut][..4] == s[..4] && s[..cut][4..n] == s[4..n] && s[..cut][n..] == s[n..][..cut - n];
    } else if cut >= 4 {
      assert s[..cut][..4] == s[..4];
    }
  }

  lemma {:induction false} FramesCut(lib: Library, s: seq<byte>, cut: nat)
    requires Complete(lib, s) && cut <= |s|
    ensures WholeBefore(lib, s, cut) <= |Frames(lib, s)|
    ensures Frames(lib, s[..cut]) == Frames(lib, s)[..WholeBefore(lib, s, cut)]
    decreases |s|
  {
    hide FirstFrame;
    if s == [] {
      assert s[..cut] == [];
      NothingYet(lib);
      NothingBefore(lib);
    } else {
      FirstFrameCut(lib, s, cut);
      var rest := FirstFrame(lib, s).rest;
      if |s| - |rest| <= cut { FramesCut(lib, rest, cut - (|s| - |rest|)); }
    }
  }

  lemma NothingBefore(lib: Library)
    ensures WholeBefore(lib, [], 0) == 0
  {}

  /** The files a crash leaves behind: the open segment is cut somewhere, the buffer is gone. */
  function CrashFiles(w: Writer, cut: nat): map<nat, seq<byte>>
    requires cut <= |w.written|
  {
    w.files[w.segmentId := w.written[..cut]]
  }

  /** The open segment, cut: its magic is there, and its frames are those wholly before the cut. */
  lemma TornSegment(lib: Library, written: seq<byte>, cut: nat)
    requires GoodData(lib, written) && MAGIC_SIZE <= cut <= |written|
    requires !VerifyTrailer(lib, written[..cut]).Sealed?
    ensures written[..cut][..MAGIC_SIZE] == MAGIC
    ensures WholeBefore(lib, written[MAGIC_SIZE..], cut - MAGIC_SIZE) <= |Frames(lib, written[MAGIC_SIZE..])|
    ensures Frames(lib, Data(lib, written[..cut])[MAGIC_SIZE..]) ==
            Frames(lib, written[MAGIC_SIZE..])[..WholeBefore(lib, written[MAGIC_SIZE..], cut - MAGIC_SIZE)]
  {
    hide Frames, Complete, WholeBefore, VerifyTrailer;
    var torn := written[..cut];
    assert torn[..MAGIC_SIZE] == written[..MAGIC_SIZE];
    assert Data(lib, torn) == torn;
    assert torn[MAGIC_SIZE..] == written[MAGIC_SIZE..][..cut - MAGIC_SIZE];
    FramesCut(lib, written[MAGIC_SIZE..], cut - MAGIC_SIZE);
  }

  /** A directory whose segments are sealed but for the last one. */
  lemma ContentsWithLast(lib: Library, files: map<nat, seq<byte>>, last: nat)
    requires last >= 1 && last in files && GoodFiles(lib, files, last)
    requires |files[last]| < MAGIC_SIZE || files[last][..MAGIC_SIZE] == MAGIC
    ensures Stream(lib, FromStart(Contents(files, last))) == SealedLog(lib, files, last - 1) +
            if |files[last]| < MAGIC_SIZE then [] else Frames(lib, Data(lib, files[last])[MAGIC_SIZE..])
  {
    hide Frames, Stream, AllFrames, GoodSealed, SealedLog, Data;
    var before := Contents(files, last - 1);
    SealedContents(lib, files, last - 1);
    if |files[last]| < MAGIC_SIZE {
      AllFramesShort(lib, before, files[last]);
    } else {
      AllFramesSnoc(lib, before, files[last]);
    }
    assert Contents(files, last) == before + [files[last]];
    StreamOfFiles(lib, before + [files[last]]);
  }

  lemma CrashKeepsSealed(lib: Library, w: Writer, cut: nat)
    requires Good(lib, w) && w.open && cut <= |w.written|
    ensures GoodFiles(lib, CrashFiles(w, cut), w.segmentId)
    ensures SealedLog(lib, CrashFiles(w, cut), w.segmentId - 1) == SealedLog(lib, w.files, w.segmentId - 1)
  {
    hide Frames, GoodSealed, SealedLog, Complete, Concat, GoodData;
    SealedLogFrame(lib, w.files, CrashFiles(w, cut), w.segmentId - 1);
  }

  /** How many entries a crash leaves: those of the sealed segments and the frames of the open one that lie wholly
      before the cut; a cut inside the magic leaves none of the latter. */
  function Survivors(lib: Library, w: Writer, cut: nat): nat
    requires w.segmentId >= 1 && cut <= |w.written|
  {
    |SealedLog(lib, w.files, w.segmentId - 1)| +
    if cut < MAGIC_SIZE then 0 else WholeBefore(lib, w.written[MAGIC_SIZE..], cut - MAGIC_SIZE)
  }

  /** Crash prefix: unless the cut bytes happen to end in their own digest, a reader returns exactly the entries that
      the crash leaves. */
  lemma CrashPrefix(lib: Library, w: Writer, cut: nat)
    requires Good(lib, w) && w.open && cut <= |w.written|
    requires !VerifyTrailer(lib, w.written[..cut]).Sealed?
    ensures Survivors(lib, w, cut) <= |Log(lib, w)| - |Frames(lib, Concat(w.buffer))|
    ensures Stream(lib, FromStart(Contents(CrashFiles(w, cut), w.segmentId))) == Log(lib, w)[..Survivors(lib, w, cut)]
  {
    hide Frames, Stream, GoodFiles, GoodData, SealedLog, Complete, WholeBefore, Concat, Contents, VerifyTrailer, Data,
         FromStart;
    GoodHasHeader(lib, w);
    if cut >= MAGIC_SIZE {
      TornSegment(lib, w.written, cut);
    }
    CrashKeepsSealed(lib, w, cut);
    ContentsWithLast(lib, CrashFiles(w, cut), w.segmentId);
    PrefixOf(SealedLog(lib, w.files, w.segmentId - 1), Frames(lib, w.written[MAGIC_SIZE..]),
             Frames(lib, Concat(w.buffer)), Survivors(lib, w, cut) - |SealedLog(lib, w.files, w.segmentId - 1)|);
  }

  lemma PrefixOf(a: seq<Entry>, b: seq<Entry>, c: seq<Entry>, n: nat)
    requires n <= |b|
    ensures (a + b + c)[..|a| + n] == a + b[..n]
  {}

  /** The bytes after a length field stop a reader: their checksum is wrong, or it is right and the type is not. */
  predicate StopsReading(lib: Library, body: seq<byte>)
    requires |body| >= 5
  {
    || lib.crc(body[4..]) != Uint32(body[..4])
    || (lib.unmarshal(body[5..]) != None && body[4] !in {1, 2, 3})
  }

  /** How many bytes the length field at the beginning claims for a frame, itself included. */
  function Claimed(s: seq<byte>): nat
    requires |s| >= 4
  {
    4 + Uint32(s[..4])
  }

  /** Whether a reader takes nothing more from a section: no length, too small a length, too few bytes for it, or bytes
      that do not check out. */
  predicate Unreadable(lib: Library, s: seq<byte>) {
    |s| < 4 || Claimed(s) < 9 || |s| < Claimed(s) || StopsReading(lib, s[4..Claimed(s)])
  }

  lemma EncodedLength(lib: Library, e: Entry, nonce: nat)
    requires EncodeFrame(lib, e, nonce).Ok? && Fits(lib, e, nonce)
    ensures var frame := EncodeFrame(lib, e, nonce).value; |frame| >= 9 && Uint32(frame[..4]) == |frame| - 4
  {
    hide Uint32, PutUint32, PayloadOf;
    var payload := lib.marshal(PayloadOf(lib, e, nonce));
    FrameLayout(lib.crc([TypeByte(e.op)] + payload), TypeByte(e.op), payload);
  }

  lemma DecodeStopsIff(lib: Library, body: seq<byte>)
    requires |body| >= 5
    ensures StopsReading(lib, body) <==>
            DecodeFrame(lib, body).Err? && DecodeFrame(lib, body).error != ErrOther
  {
    hide DecodeFrame;
    DecodeFailsWith(lib, body);
  }

  /** The frames of arbitrary bytes, one step. */
  lemma FramesOfMixture(lib: Library, s: seq<byte>)
    ensures FirstFrame(lib, s).Stop? <==> Unreadable(lib, s)
    ensures Frames(lib, s) ==
            if Unreadable(lib, s) then [] else
            var body := s[4..Claimed(s)];
            (if DecodeFrame(lib, body).Ok? then [DecodeFrame(lib, body).value] else []) + Frames(lib, s[Claimed(s)..])
  {
    hide DecodeFrame, StopsReading;
    if |s| >= 4 && 9 <= Claimed(s) <= |s| {
      DecodeStopsIff(lib, s[4..Claimed(s)]);
    }
  }

  /** A frame that was cut anywhere, followed by whatever a restarted writer put there: what is read behind the whole
      frames is what the mixture makes. Behind the length field the mixture claims the length of the torn frame, so
      nothing is read until that many bytes are there, and then only if they check out. */
  lemma TornTailHidesLaterFrames(lib: Library, whole: seq<byte>, e: Entry, nonce: nat, cut: nat, later: seq<byte>)
    requires Complete(lib, whole) && EncodeFrame(lib, e, nonce).Ok? && Fits(lib, e, nonce)
    requires cut < |EncodeFrame(lib, e, nonce).value|
    ensures var frame := EncodeFrame(lib, e, nonce).value;
            var s := frame[..cut] + later;
            && (cut >= 4 ==> Claimed(s) == |frame|)
            && Frames(lib, whole + frame[..cut] + later) == Frames(lib, whole) +
               if Unreadable(lib, s) then [] else
               var body := s[4..Claimed(s)];
               (if DecodeFrame(lib, body).Ok? then [DecodeFrame(lib, body).value] else []) +
                   Frames(lib, s[Claimed(s)..])
  {
    hide DecodeFrame, EncodeFrame, lib.Lawful, Complete, Fits, FirstFrame, Unreadable, Frames;
    var frame := EncodeFrame(lib, e, nonce).value;
    var s := frame[..cut] + later;
    assert whole + frame[..cut] + later == whole + s;
    FramesAppend(lib, whole, s);
    FramesOfMixture(lib, s);
    EncodedLength(lib, e, nonce);
    if cut >= 4 {
      assert s[..4] == frame[..4];
    }
  }
}
