/** The objects of the write-ahead log: the segment directory, the Writer of src/internal/storage/wal/writer.go
    and the Reader of src/internal/storage/wal/reader.go. Each method is proved against the machines of
    LogWriter and LogReader. */
module WalFiles {
  import opened Domain
  import opened Entries
  import opened Bytes
  import opened Codec
  import R = LogReader
  import W = LogWriter
  import LogTheorems
  import Sorting

  /** A directory of segment files, by segment id. */
  class Directory {
    var files: map<nat, seq<byte>>

    constructor ()
      ensures files == map[]
    {
      files := map[];
    }
  }

  class Writer {
    const lib: Library
    const cfg: W.Config
    const dir: Directory
    var segmentID: nat
    var fileOpen: bool
    var fileSize: nat
    var segmentEntries: nat
    var hash: seq<byte>
    var buffer: seq<seq<byte>>
    var bufferBytes: nat
    var closed: bool

    ghost predicate Valid()
      reads this, dir
    {
      && fileSize == |hash| && bufferBytes == TotalSize(buffer)
      && (fileOpen ==> segmentID in dir.files && dir.files[segmentID] == hash)
    }

    ghost function Model(): W.Writer
      reads this, dir
    {
      W.Writer(dir.files, segmentID, fileOpen, hash, segmentEntries, buffer, closed)
    }

    /** The fields of a writer on a directory whose latest segment can be continued or followed. */
    constructor (lib: Library, cfg: W.Config, dir: Directory, latest: nat)
      requires W.IsLatest(dir.files, latest)
      requires W.Reopen(lib, dir.files, latest).Some?
      modifies dir
      ensures Valid() && this.lib == lib && this.cfg == cfg && this.dir == dir
      ensures W.Reopen(lib, old(dir.files), latest) == Some(Model())
    {
      this.lib, this.cfg, this.dir := lib, cfg, dir;
      segmentEntries, buffer, bufferBytes, closed := 0, [], 0, false;
      var startNew := latest == 0 || R.VerifyTrailer(lib, dir.files[latest]).Sealed?;
      segmentID := if startNew then latest + 1 else latest;
      fileOpen := true;
      hash := if startNew then R.MAGIC else dir.files[latest];
      fileSize := if startNew then R.MAGIC_SIZE else |dir.files[latest]|;
      new;
      if startNew { dir.files := dir.files[segmentID := R.MAGIC]; }
    }

    method CurrentOffset() returns (offset: nat)
      requires Valid()
      ensures offset == W.CurrentOffset(Model())
    {
      return segmentID * TWO_TO_32 % TWO_TO_64 + fileSize % TWO_TO_32;
    }

    /** writeLocked: the bytes go to the file and into the running hash. */
    method WriteBytes(p: seq<byte>)
      requires Valid() && fileOpen
      modifies this`fileSize, this`hash, dir
      ensures Valid()
      ensures Model() == old(Model()).(files := old(dir.files)[segmentID := old(hash) + p], written := old(hash) + p)
    {
      dir.files := dir.files[segmentID := dir.files[segmentID] + p];
      hash := hash + p;
      fileSize := fileSize + |p|;
    }

    method OpenNewSegment()
      requires Valid()
      modifies this`fileOpen, this`fileSize, this`segmentEntries, this`hash, dir
      ensures Valid() && Model() == W.OpenSegment(old(Model()))
    {
      dir.files := dir.files[segmentID := []];
      fileOpen, fileSize, segmentEntries, hash := true, 0, 0, [];
      WriteBytes(R.MAGIC);
      assert [] + R.MAGIC == R.MAGIC;
    }

    method Finalize()
      requires Valid() && fileOpen
      modifies this`fileOpen, dir
      ensures Valid() && Model() == W.Seal(lib, old(Model()))
    {
      dir.files := dir.files[segmentID := dir.files[segmentID] + lib.sha256(hash)];
      fileOpen := false;
    }

    /** The batch: all buffered frames in one run of bytes. */
    method Joined() returns (buf: seq<byte>)
      ensures buf == Concat(buffer) && |buf| == TotalSize(buffer)
    {
      buf := [];
      for i := 0 to |buffer|
        invariant buf == Concat(buffer[..i])
      {
        assert buffer[..i + 1][..i] == buffer[..i];
        buf := buf + buffer[i];
      }
      assert buffer[..|buffer|] == buffer;
      ConcatSize(buffer);
    }

    method RotateSegment()
      requires Valid() && fileOpen
      modifies this, dir
      ensures Valid() && fileOpen && Model() == W.Rotate(lib, old(Model()))
      ensures buffer == old(buffer)
    {
      Finalize();
      segmentID := segmentID + 1;
      OpenNewSegment();
    }

    method Flush() returns (ok: bool)
      requires Valid()
      modifies this, dir
      ensures Valid() && Model() == W.Flush(lib, cfg, old(Model()))
      ensures ok <==> old(buffer) == [] || old(fileOpen)
    {
      hide Concat, W.Rotate;
      if |buffer| == 0 { return true; }
      var buf := Joined();
      if !fileOpen { return false; }
      if fileSize + |buf| > cfg.maxFileSize || segmentEntries + |buffer| > cfg.maxEntryCount {
        RotateSegment();
      }
      WriteBytes(buf);
      segmentEntries := segmentEntries + |buffer|;
      buffer := [];
      bufferBytes := 0;
      return true;
    }

    method Append(e: Entry, nonce: nat) returns (ok: bool)
      requires Valid() && (fileOpen || closed)
      modifies this, dir
      ensures Valid() && (Model(), ok) == W.Append(lib, cfg, old(Model()), e, nonce)
    {
      hide W.Flush, EncodeFrame, TotalSize;
      if closed { return false; }
      var encoded := EncodeFrame(lib, e, nonce);
      if encoded.Err? { return false; }
      W.ConcatSnoc(buffer, encoded.value);
      buffer := buffer + [encoded.value];
      bufferBytes := bufferBytes + |encoded.value|;
      if |buffer| >= cfg.batchCount || bufferBytes >= cfg.batchBytes { ok := Flush(); } else { ok := true; }
    }

    method Close()
      requires Valid()
      modifies this, dir
      ensures Valid() && Model() == W.Close(lib, cfg, old(Model()))
    {
      if closed { return; }
      closed := true;
      if !fileOpen { return; }
      var ok := Flush();
      Finalize();
    }
  }

  /** findLatestSegment: the largest id, or 0 for an empty directory. */
  method FindLatest(dir: Directory) returns (latest: nat)
    ensures W.IsLatest(dir.files, latest)
  {
    latest := 0;
    var rest := dir.files.Keys;
    while rest != {}
      invariant rest <= dir.files.Keys
      invariant forall id <- dir.files :: id in rest || id <= latest
      invariant latest in dir.files || latest == 0
    {
      var id :| id in rest;
      if id > latest { latest := id; }
      rest := rest - {id};
    }
  }

  /** NewWriter, on any directory: refused exactly when the latest segment is neither sealed nor begins with the
      magic, and then nothing changes. */
  method NewWriter(lib: Library, cfg: W.Config, dir: Directory) returns (r: Option<Writer>, latest: nat)
    modifies dir
    ensures W.IsLatest(old(dir.files), latest)
    ensures r.Some? <==> W.Reopen(lib, old(dir.files), latest).Some?
    ensures r.None? ==> dir.files == old(dir.files)
    ensures r.Some? ==> fresh(r.value) && r.value.Valid()
    ensures r.Some? ==> r.value.lib == lib && r.value.cfg == cfg && r.value.dir == dir
    ensures r.Some? ==> W.Reopen(lib, old(dir.files), latest) == Some(r.value.Model())
  {
    latest := FindLatest(dir);
    if latest != 0 && !R.VerifyTrailer(lib, dir.files[latest]).Sealed? {
      var file := dir.files[latest];
      if |file| < R.MAGIC_SIZE || file[..R.MAGIC_SIZE] != R.MAGIC { return None, latest; }
    }
    var w := new Writer(lib, cfg, dir, latest);
    return Some(w), latest;
  }

  /** The contents of the listed segments. */
  function Listed(files: map<nat, seq<byte>>, ids: seq<nat>): seq<seq<byte>>
    requires forall i | 0 <= i < |ids| :: ids[i] in files
  {
    seq(|ids|, i requires 0 <= i < |ids| => files[ids[i]])
  }

  class Reader {
    const lib: Library
    const dir: Directory
    var segments: seq<nat>
    var segIndex: nat
    var section: Option<seq<byte>>
    var headerOK: bool
    var startAt: nat

    ghost predicate Valid()
      reads this, dir
    {
      segIndex <= |segments| && forall i | 0 <= i < |segments| :: segments[i] in dir.files
    }

    ghost function Model(): R.Reader
      requires Valid()
      reads this, dir
    {
      R.Reader(Listed(dir.files, segments[segIndex..]), section, headerOK, startAt)
    }

    /** NewReader: the segments of the directory, sorted by id. */
    constructor (lib: Library, dir: Directory)
      ensures Valid() && this.lib == lib && this.dir == dir
      ensures Sorting.Sorts(segments, dir.files.Keys) && segIndex == 0 && section == None && !headerOK && startAt == 0
    {
      this.lib, this.dir := lib, dir;
      segIndex, section, headerOK, startAt := 0, None, false, 0;
      var ids := Sorting.SortedList(dir.files.Keys);
      segments := ids;
    }

    method Seek(offset: nat)
      requires Valid()
      modifies this
      ensures Valid() && segments == old(segments)
      ensures Model() == R.SeekTo(segments, Listed(dir.files, segments), offset)
    {
      var segID, segOff := offset / TWO_TO_32, offset % TWO_TO_32;
      var i := 0;
      while i < |segments| && segments[i] < segID
        invariant i <= |segments| && forall j | 0 <= j < i :: segments[j] < segID
      {
        i := i + 1;
      }
      FirstFromIs(segments, segID, i);
      section := None;
      segIndex := i;
      startAt := segOff;
      headerOK := false;
      assert Listed(dir.files, segments[i..]) == Listed(dir.files, segments)[i..];
    }

    method OpenNextSegment() returns (r: NextSegment)
      requires Valid() && section == None
      modifies this`segIndex, this`section, this`headerOK, this`startAt
      ensures Valid()
      ensures match R.OpenNext(lib, old(Model()))
              case AtEnd => r == NoMore && Model() == old(Model()).(headerOk := false)
              case Refused(r') => r == Unreadable && Model() == r' && segIndex == old(segIndex) + 1
              case Opened(r') => r == Ready && Model() == r' && segIndex == old(segIndex) + 1
    {
      headerOK := false;
      if segIndex >= |segments| { return NoMore; }
      var file := dir.files[segments[segIndex]];
      segIndex := segIndex + 1;
      assert old(Model()).rest[0] == file;
      assert Listed(dir.files, segments[segIndex..]) == old(Model()).rest[1..];
      match R.VerifyTrailer(lib, file) {
        case BadMagic => return Unreadable;
        case Sealed(n) => section := Some(R.Section(file[..n], startAt));
        case NotSealed => section := Some(R.Section(file, startAt));
      }
      startAt := 0;
      return Ready;
    }

    /** readAndValidateHeader: consumes what it read also when it fails. */
    method ReadHeader() returns (r: R.ReadResult, ok: bool)
      requires Valid() && section != None && !headerOK && startAt == 0
      modifies this`section, this`headerOK
      ensures Valid() && section != None
      ensures ok ==> headerOK && R.ReadSection(lib, old(Model())) == R.ReadEntry(lib, Model())
      ensures !ok ==> (r, Model()) == R.ReadSection(lib, old(Model()))
    {
      var s := section.value;
      if |s| == 0 { return R.Eof, false; }
      if |s| < R.MAGIC_SIZE { section := Some([]); return R.Failure, false; }
      section := Some(s[R.MAGIC_SIZE..]);
      if s[..R.MAGIC_SIZE] != R.MAGIC { return R.Failure, false; }
      headerOK := true;
      return R.Eof, true;
    }

    method Read() returns (r: R.ReadResult)
      requires Valid()
      modifies this`segIndex, this`section, this`headerOK, this`startAt
      ensures Valid() && (r, Model()) == R.Read(lib, old(Model()))
    {
      hide R.FirstFrame, R.VerifyTrailer, Listed, R.Read, R.ReadSection, R.ReadEntry, R.OpenNext;
      while true
        invariant Valid() && R.Read(lib, Model()) == R.Read(lib, old(Model()))
        decreases |segments| - segIndex, section != None
      {
        if section == None {
          R.ReadOpens(lib, Model());
          var next := OpenNextSegment();
          match next
          case NoMore => return R.Eof;
          case Unreadable => return R.Failure;
          case Ready =>
        } else {
          R.ReadContinues(lib, Model());
        }
        assert R.ReadSection(lib, Model()) == R.Read(lib, old(Model()));
        if !headerOK && startAt == 0 {
          var failed, ok := ReadHeader();
          if !ok { return failed; }
        } else {
          R.SectionBehindHeader(lib, Model());
          headerOK := true;
        }
        assert R.ReadEntry(lib, Model()) == R.Read(lib, old(Model()));
        R.EntryStep(lib, Model());
        match R.FirstFrame(lib, section.value)
        case Stop =>
          section := None;
          headerOK := false;
        case Undecodable(rest) =>
          section := Some(rest);
          return R.Failure;
        case Whole(e, rest) =>
          section := Some(rest);
          return R.Got(e);
      }
    }
  }

  datatype NextSegment = Ready | NoMore | Unreadable

  lemma FirstFromIs(ids: seq<nat>, segment: nat, i: nat)
    requires i <= |ids| && (forall j | 0 <= j < i :: ids[j] < segment) && (i < |ids| ==> ids[i] >= segment)
    ensures R.FirstFrom(ids, segment) == i
  {}

  // ---------------------------------------------------------------- what a directory scan finds

  /** The ids up to a bound, in order. */
  function IdsUpTo(files: map<nat, seq<byte>>, upTo: nat): seq<nat> {
    (if upTo == 0 then [] else IdsUpTo(files, upTo - 1)) + (if upTo in files then [upTo] else [])
  }

  lemma {:induction false} IdsAreSorted(files: map<nat, seq<byte>>, upTo: nat)
    ensures Sorting.Sorts(IdsUpTo(files, upTo), set id | id in files && id <= upTo)
  {
    hide Sorting.Sorts;
    var before := if upTo == 0 then [] else IdsUpTo(files, upTo - 1);
    var below := set id | id in files && id < upTo;
    if upTo > 0 {
      IdsAreSorted(files, upTo - 1);
      assert below == set id | id in files && id <= upTo - 1;
    } else {
      assert below == {};
      SortsNothing();
    }
    if upTo in files {
      Sorting.AddLast(before, below, upTo);
      assert below + {upTo} == set id | id in files && id <= upTo;
    } else {
      assert below == set id | id in files && id <= upTo;
      assert IdsUpTo(files, upTo) == before;
    }
  }

  lemma SortsNothing()
    ensures Sorting.Sorts([], {})
  {}

  lemma {:induction false} ListedContents(files: map<nat, seq<byte>>, upTo: nat)
    ensures forall i | 0 <= i < |IdsUpTo(files, upTo)| :: IdsUpTo(files, upTo)[i] in files
    ensures Listed(files, IdsUpTo(files, upTo)) == LogTheorems.Contents(files, upTo)
  {
    if upTo > 0 { ListedContents(files, upTo - 1); }
  }

  /** A scan of the directory sees the segments in id order: its stream from offset 0 is the one of the log. */
  lemma ScanIsInOrder(files: map<nat, seq<byte>>, ids: seq<nat>, latest: nat)
    requires Sorting.Sorts(ids, files.Keys) && forall id <- files :: id <= latest
    ensures forall i | 0 <= i < |ids| :: ids[i] in files
    ensures Listed(files, ids) == LogTheorems.Contents(files, latest)
  {
    IdsAreSorted(files, latest);
    ListedContents(files, latest);
    assert files.Keys == set id | id in files && id <= latest;
    Sorting.SortsUniquely(ids, IdsUpTo(files, latest), files.Keys);
  }
}
