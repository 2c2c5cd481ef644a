/** The WAL reader (src/internal/storage/wal/reader.go) as a machine over segment contents, and the loop of
    replayWAL that drives it. Nothing is assumed about the bytes. */
module LogReader {
  import opened Domain
  import opened Entries
  import opened Bytes
  import opened Codec

  const MAGIC_SIZE := 8
  const CHECKSUM_SIZE := 32

  /** "TOKMWAL\x01". */
  const MAGIC: seq<byte> := [84, 79, 75, 77, 87, 65, 76, 1]

  datatype Trailer = BadMagic | NotSealed | Sealed(dataLen: nat)

  /** verifyChecksumTrailer: a segment is sealed when its last 32 bytes are the digest of the rest. */
  function VerifyTrailer(lib: Library, file: seq<byte>): (r: Trailer)
    ensures r.Sealed? ==> MAGIC_SIZE <= r.dataLen == |file| - CHECKSUM_SIZE
    ensures r.Sealed? ==> file[..MAGIC_SIZE] == MAGIC && lib.sha256(file[..r.dataLen]) == file[r.dataLen..]
  {
    if |file| < MAGIC_SIZE then NotSealed
    else if file[..MAGIC_SIZE] != MAGIC then BadMagic
    else if |file| < MAGIC_SIZE + CHECKSUM_SIZE then NotSealed
    else
      var n := |file| - CHECKSUM_SIZE;
      if lib.sha256(file[..n]) == file[n..] then Sealed(n) else NotSealed
  }

  /** `rest` are the contents of the segments not opened yet, in id order; `section` is what is left of the
      open one. */
  datatype Reader = Reader(rest: seq<seq<byte>>, section: Option<seq<byte>>, headerOk: bool, startAt: nat)

  function Left(r: Reader): nat {
    if r.section == None then 0 else |r.section.value|
  }

  /** Progress: fewer segments, or as many and fewer bytes. */
  predicate Behind(a: Reader, b: Reader) {
    |a.rest| < |b.rest| || (|a.rest| == |b.rest| && Left(a) < Left(b))
  }

  datatype ReadResult = Got(entry: Entry) | Eof | Failure

  datatype Opening = AtEnd | Refused(reader: Reader) | Opened(reader: Reader)

  /** openNextSegment. The start offset is consumed by the first segment that opens; a refused one keeps it. */
  function OpenNext(lib: Library, r: Reader): Opening {
    if r.rest == [] then AtEnd else
    var file, rest := r.rest[0], r.rest[1..];
    match VerifyTrailer(lib, file)
    case BadMagic => Refused(Reader(rest, None, false, r.startAt))
    case Sealed(n) => Opened(Reader(rest, Some(Section(file[..n], r.startAt)), false, 0))
    case NotSealed => Opened(Reader(rest, Some(Section(file, r.startAt)), false, 0))
  }

  /** io.NewSectionReader(f, startAt, limit - startAt). */
  function Section(data: seq<byte>, startAt: nat): seq<byte> {
    if startAt <= |data| then data[startAt..] else []
  }

  datatype Frame = Stop | Undecodable(rest: seq<byte>) | Whole(entry: Entry, rest: seq<byte>)

  /** readOneEntry: end of data, a short length, a bad checksum and a bad type all end the segment; a payload
      that does not decode is stepped over. */
  function FirstFrame(lib: Library, s: seq<byte>): (f: Frame)
    ensures !f.Stop? ==> |f.rest| < |s|
  {
    if |s| < 4 then Stop else
    var length := Uint32(s[..4]);
    if length < 5 || |s| < 4 + length then Stop else
    match DecodeFrame(lib, s[4..4 + length])
    case Ok(e) => Whole(e, s[4 + length..])
    case Err(ErrOther) => Undecodable(s[4 + length..])
    case Err(_) => Stop
  }

  /** Read: the retry loop, one recursive call per `continue`. */
  function Read(lib: Library, r: Reader): (res: (ReadResult, Reader))
    ensures res.0 != Eof ==> Behind(res.1, r)
    decreases |r.rest|, r.section != None, 1
  {
    if r.section == None then
      match OpenNext(lib, r)
      case AtEnd => (Eof, r.(headerOk := false))
      case Refused(r') => (Failure, r')
      case Opened(r') => ReadSection(lib, r')
    else ReadSection(lib, r)
  }

  function ReadSection(lib: Library, r: Reader): (res: (ReadResult, Reader))
    requires r.section != None
    ensures res.0 != Eof ==> Behind(res.1, r)
    decreases |r.rest|, r.section != None, 0
  {
    var s := r.section.value;
    if !r.headerOk && r.startAt == 0 then
      if |s| == 0 then (Eof, r)
      else if |s| < MAGIC_SIZE then (Failure, r.(section := Some([])))
      else if s[..MAGIC_SIZE] != MAGIC then (Failure, r.(section := Some(s[MAGIC_SIZE..])))
      else ReadEntry(lib, r.(section := Some(s[MAGIC_SIZE..]), headerOk := true))
    else ReadEntry(lib, r.(headerOk := true))
  }

  function ReadEntry(lib: Library, r: Reader): (res: (ReadResult, Reader))
    requires r.section != None && r.headerOk
    ensures res.0 != Eof ==> Behind(res.1, r)
    decreases |r.rest|, false, 2
  {
    match FirstFrame(lib, r.section.value)
    case Stop => Read(lib, r.(section := None, headerOk := false))
    case Undecodable(rest) => (Failure, r.(section := Some(rest)))
    case Whole(e, rest) => (Got(e), r.(section := Some(rest)))
  }

  /** The loop of replayWAL: errors are logged and reading goes on, until a read reports the end of the log.
      It terminates on every content, because every read that does not end it makes progress. */
  function Stream(lib: Library, r: Reader): seq<Entry>
    decreases |r.rest|, Left(r)
  {
    var (result, r') := Read(lib, r);
    match result
    case Eof => []
    case Failure => Stream(lib, r')
    case Got(e) => [e] + Stream(lib, r')
  }

  // ---------------------------------------------------------------- what the stream is

  /** The entries of a section after its header: everything up to the first broken frame. */
  function Frames(lib: Library, s: seq<byte>): seq<Entry>
    decreases |s|
  {
    match FirstFrame(lib, s)
    case Stop => []
    case Undecodable(rest) => Frames(lib, rest)
    case Whole(e, rest) => [e] + Frames(lib, rest)
  }

  /** Reading with the header behind. */
  lemma ReadBehindHeader(lib: Library, r: Reader)
    requires r.section != None && r.headerOk
    ensures Read(lib, r) == ReadEntry(lib, r)
  {
    assert Read(lib, r) == ReadSection(lib, r);
    assert r.(headerOk := true) == r;
  }

  /** The steps of Read, one by one. */
  lemma ReadOpens(lib: Library, r: Reader)
    requires r.section == None
    ensures OpenNext(lib, r).AtEnd? ==> Read(lib, r) == (Eof, r.(headerOk := false))
    ensures OpenNext(lib, r).Refused? ==> Read(lib, r) == (Failure, OpenNext(lib, r).reader)
    ensures OpenNext(lib, r).Opened? ==>
      OpenNext(lib, r).reader.section != None && Read(lib, r) == ReadSection(lib, OpenNext(lib, r).reader)
  {}

  lemma ReadContinues(lib: Library, r: Reader)
    requires r.section != None
    ensures Read(lib, r) == ReadSection(lib, r)
  {}

  lemma SectionBehindHeader(lib: Library, r: Reader)
    requires r.section != None && (r.headerOk || r.startAt != 0)
    ensures ReadSection(lib, r) == ReadEntry(lib, r.(headerOk := true))
  {}

  lemma EntryStep(lib: Library, r: Reader)
    requires r.section != None && r.headerOk
    ensures var f := FirstFrame(lib, r.section.value);
      && (f.Stop? ==> ReadEntry(lib, r) == Read(lib, r.(section := None, headerOk := false)))
      && (f.Undecodable? ==> ReadEntry(lib, r) == (Failure, r.(section := Some(f.rest))))
      && (f.Whole? ==> ReadEntry(lib, r) == (Got(f.entry), r.(section := Some(f.rest))))
  {}

  lemma SameStream(lib: Library, a: Reader, b: Reader)
    requires Read(lib, a) == Read(lib, b)
    ensures Stream(lib, a) == Stream(lib, b)
  {}

  lemma {:induction false} StreamOfSection(lib: Library, rest: seq<seq<byte>>, s: seq<byte>)
    ensures Stream(lib, Reader(rest, Some(s), true, 0)) == Frames(lib, s) + Stream(lib, Reader(rest, None, false, 0))
    decreases |s|
  {
    var r := Reader(rest, Some(s), true, 0);
    ReadBehindHeader(lib, r);
    match FirstFrame(lib, s)
    case Stop => SameStream(lib, r, Reader(rest, None, false, 0));
    case Undecodable(tail) =>
      StreamOfSection(lib, rest, tail);
      assert Read(lib, r) == (Failure, Reader(rest, Some(tail), true, 0));
    case Whole(e, tail) =>
      StreamOfSection(lib, rest, tail);
      assert Read(lib, r) == (Got(e), Reader(rest, Some(tail), true, 0));
  }

  /** The data of a segment: all of it, without the trailer of a sealed one. */
  function Data(lib: Library, file: seq<byte>): (data: seq<byte>)
    ensures |file| >= MAGIC_SIZE ==> |data| >= MAGIC_SIZE && data[..MAGIC_SIZE] == file[..MAGIC_SIZE]
  {
    match VerifyTrailer(lib, file)
    case Sealed(n) => file[..n]
    case _ => file
  }

  /** What reading does with a section whose header is still to be read. */
  lemma StreamOfHeader(lib: Library, rest: seq<seq<byte>>, s: seq<byte>)
    ensures Stream(lib, Reader(rest, Some(s), false, 0)) ==
      if |s| < MAGIC_SIZE then []
      else if s[..MAGIC_SIZE] != MAGIC then Stream(lib, Reader(rest, Some(s[MAGIC_SIZE..]), false, 0))
      else Frames(lib, s[MAGIC_SIZE..]) + Stream(lib, Reader(rest, None, false, 0))
  {
    var r := Reader(rest, Some(s), false, 0);
    assert Read(lib, r) == ReadSection(lib, r);
    if |s| == 0 {
      assert Read(lib, r) == (Eof, r);
    } else if |s| < MAGIC_SIZE {
      var r' := Reader(rest, Some([]), false, 0);
      assert Read(lib, r) == (Failure, r');
      assert Read(lib, r') == ReadSection(lib, r');
      assert Stream(lib, r') == [];
    } else if s[..MAGIC_SIZE] != MAGIC {
      assert Read(lib, r) == (Failure, Reader(rest, Some(s[MAGIC_SIZE..]), false, 0));
    } else {
      var r' := Reader(rest, Some(s[MAGIC_SIZE..]), true, 0);
      ReadBehindHeader(lib, r');
      SameStream(lib, r, r');
      StreamOfSection(lib, rest, s[MAGIC_SIZE..]);
    }
  }

  /** The whole log, one segment at a time, on arbitrary contents: a segment with a good header contributes its
      frames, one with a bad header is passed over, and one too short to have a header ends the replay. */
  lemma StreamOfFile(lib: Library, file: seq<byte>, rest: seq<seq<byte>>)
    ensures Stream(lib, Reader([file] + rest, None, false, 0)) ==
      if |file| < MAGIC_SIZE then []
      else if file[..MAGIC_SIZE] != MAGIC then Stream(lib, Reader(rest, None, false, 0))
      else Frames(lib, Data(lib, file)[MAGIC_SIZE..]) + Stream(lib, Reader(rest, None, false, 0))
  {
    var r := Reader([file] + rest, None, false, 0);
    assert r.rest[0] == file && r.rest[1..] == rest;
    if |file| >= MAGIC_SIZE && file[..MAGIC_SIZE] != MAGIC {
      assert Read(lib, r) == (Failure, Reader(rest, None, false, 0));
    } else {
      var data := Data(lib, file);
      assert data[0..] == data;
      SameStream(lib, r, Reader(rest, Some(data), false, 0));
      StreamOfHeader(lib, rest, data);
      if |file| >= MAGIC_SIZE { assert data[..MAGIC_SIZE] == file[..MAGIC_SIZE]; }
    }
  }

  // ---------------------------------------------------------------- seeking

  /** Index of the first segment with an id not below the given one. */
  function FirstFrom(ids: seq<nat>, segment: nat): (i: nat)
    ensures i <= |ids|
    ensures i < |ids| ==> ids[i] >= segment
    ensures forall j | 0 <= j < i :: ids[j] < segment
  {
    if ids == [] || ids[0] >= segment then 0
    else
      var i := FirstFrom(ids[1..], segment);
      assert forall j | 1 <= j < i + 1 :: ids[j] == ids[1..][j - 1];
      1 + i
  }

  /** Seek on a composite offset: the high half selects the segment, the low half is the start offset. */
  function SeekTo(ids: seq<nat>, contents: seq<seq<byte>>, offset: nat): Reader
    requires |contents| == |ids|
  {
    Reader(contents[FirstFrom(ids, offset / TWO_TO_32)..], None, false, offset % TWO_TO_32)
  }

  /** No eight-byte piece of the section, counted from its start, is the magic. */
  predicate NoMagic(s: seq<byte>)
    decreases |s|
  {
    |s| < MAGIC_SIZE || (s[..MAGIC_SIZE] != MAGIC && NoMagic(s[MAGIC_SIZE..]))
  }

  /** Where the header test succeeds at last, eight bytes at a time. */
  function AfterMagic(s: seq<byte>): seq<byte>
    requires !NoMagic(s)
    decreases |s|
  {
    if s[..MAGIC_SIZE] == MAGIC then s[MAGIC_SIZE..] else AfterMagic(s[MAGIC_SIZE..])
  }

  lemma {:induction false} StreamOfChunks(lib: Library, rest: seq<seq<byte>>, s: seq<byte>)
    ensures Stream(lib, Reader(rest, Some(s), false, 0)) ==
      if NoMagic(s) then [] else Frames(lib, AfterMagic(s)) + Stream(lib, Reader(rest, None, false, 0))
    decreases |s|
  {
    StreamOfHeader(lib, rest, s);
    if |s| >= MAGIC_SIZE && s[..MAGIC_SIZE] != MAGIC { StreamOfChunks(lib, rest, s[MAGIC_SIZE..]); }
  }

  /** A start offset inside a segment: the reader still asks for the magic there. Unless the eight-byte pieces
      that follow happen to contain it, nothing is replayed -- neither the rest of that segment nor any later
      one. */
  lemma SeekIntoSegment(lib: Library, file: seq<byte>, rest: seq<seq<byte>>, startAt: nat)
    requires |file| >= MAGIC_SIZE && file[..MAGIC_SIZE] == MAGIC
    ensures Stream(lib, Reader([file] + rest, None, false, startAt)) ==
      var s := Section(Data(lib, file), startAt);
      if NoMagic(s) then [] else Frames(lib, AfterMagic(s)) + Stream(lib, Reader(rest, None, false, 0))
  {
    var r := Reader([file] + rest, None, false, startAt);
    assert r.rest[0] == file && r.rest[1..] == rest;
    var s := Section(Data(lib, file), startAt);
    SameStream(lib, r, Reader(rest, Some(s), false, 0));
    StreamOfChunks(lib, rest, s);
  }
}
