/** Snapshot files: src/internal/storage/snapshot/manager.go. */
module Snapshot {
  import opened Domain
  import opened Bytes
  import Codec

  const CHECKSUM_SIZE := 32

  /** "TOKMSNAP". */
  const MAGIC: seq<byte> := [84, 79, 75, 77, 83, 78, 65, 80]

  datatype Header = Header(
    version: int, createdAt: int, nodeId: string, sessionCount: nat, walLastOffset: nat, encrypted: bool)

  /** Unlike the log, a snapshot stores every field of a session. */
  datatype Library = Library(
    marshalHeader: Header -> seq<byte>,
    unmarshalHeader: seq<byte> -> Option<Header>,
    marshalSessions: seq<Session> -> seq<byte>,
    unmarshalSessions: seq<byte> -> Option<seq<Session>>,
    sha256: seq<byte> -> seq<byte>,
    cipher: Option<Codec.Cipher>)
  {
    ghost predicate Lawful() {
      && (forall h {:trigger marshalHeader(h)} ::
            unmarshalHeader(marshalHeader(h)) == Some(h) && marshalHeader(h) != [])
      && (forall s {:trigger marshalSessions(s)} :: unmarshalSessions(marshalSessions(s)) == Some(s))
      && (forall b {:trigger sha256(b)} :: |sha256(b)| == CHECKSUM_SIZE)
      && (cipher != None ==> forall p, n {:trigger cipher.value.encrypt(p, n)} ::
            cipher.value.decrypt(cipher.value.encrypt(p, n)) == Some(p))
    }
  }

  function HeaderFor(lib: Library, now: int, nodeId: string, sessions: seq<Session>, walLastOffset: nat): Header {
    Header(1, now, nodeId, |sessions|, walLastOffset, lib.cipher != None)
  }

  function DataFor(lib: Library, sessions: seq<Session>, nonce: nat): seq<byte> {
    var plain := lib.marshalSessions(sessions);
    if lib.cipher == None then plain else lib.cipher.value.encrypt(plain, nonce)
  }

  /** The body of a snapshot file: magic, header and data, each with a 32-bit length. */
  function Body(header: seq<byte>, data: seq<byte>): seq<byte> {
    MAGIC + PutUint32(|header| % TWO_TO_32) + header + PutUint32(|data| % TWO_TO_32) + data
  }

  /** Create: the body and its digest. */
  function Create(lib: Library, now: int, nodeId: string, sessions: seq<Session>, walLastOffset: nat,
                  nonce: nat): seq<byte> {
    var body := Body(lib.marshalHeader(HeaderFor(lib, now, nodeId, sessions, walLastOffset)),
                     DataFor(lib, sessions, nonce));
    body + lib.sha256(body)
  }

  datatype LoadError = ErrChecksumMismatch | ErrInvalidMagic | ErrOther

  datatype Loaded = Ok(sessions: seq<Session>, header: Header) | Err(error: LoadError)

  /** loadFile. An encrypted snapshot read without a cipher yields its header and no sessions. */
  function LoadFile(lib: Library, file: seq<byte>): Loaded {
    if |file| < |MAGIC| + CHECKSUM_SIZE then Err(ErrChecksumMismatch) else
    var body := file[..|file| - CHECKSUM_SIZE];
    if lib.sha256(body) != file[|file| - CHECKSUM_SIZE..] then Err(ErrChecksumMismatch)
    else if body[..8] != MAGIC then Err(ErrInvalidMagic)
    else LoadBlocks(lib, body[8..])
  }

  /** A block of bytes behind its length; None when the bytes run out. */
  function Block(s: seq<byte>): Option<(seq<byte>, seq<byte>)> {
    if |s| < 4 || |s| < 4 + Uint32(s[..4]) then None
    else Some((s[4..4 + Uint32(s[..4])], s[4 + Uint32(s[..4])..]))
  }

  function LoadBlocks(lib: Library, s: seq<byte>): Loaded {
    var first := Block(s);
    if first == None || first.value.0 == [] then Err(ErrOther) else
    var header := lib.unmarshalHeader(first.value.0);
    var second := Block(first.value.1);
    if header == None || second == None then Err(ErrOther)
    else LoadData(lib, header.value, second.value.0)
  }

  function LoadData(lib: Library, header: Header, data: seq<byte>): Loaded {
    if header.encrypted && lib.cipher == None then Ok([], header)
    else if !header.encrypted && lib.cipher != None then Err(ErrOther)
    else
      var plain := if header.encrypted then lib.cipher.value.decrypt(data) else Some(data);
      if plain == None then Err(ErrOther) else
      var sessions := lib.unmarshalSessions(plain.value);
      if sessions == None then Err(ErrOther) else Ok(sessions.value, header)
  }

  lemma BlockComesBack(a: seq<byte>, rest: seq<byte>)
    requires |a| < TWO_TO_32
    ensures Block(PutUint32(|a|) + a + rest) == Some((a, rest))
  {
    var s := PutUint32(|a|) + a + rest;
    assert s[..4] == PutUint32(|a|) && s[4..4 + |a|] == a && s[4 + |a|..] == rest;
  }

  lemma DataComesBack(lib: Library, sessions: seq<Session>, header: Header, nonce: nat)
    requires lib.Lawful() && header.encrypted == (lib.cipher != None)
    ensures LoadData(lib, header, DataFor(lib, sessions, nonce)) == Ok(sessions, header)
  {
    var plain := lib.marshalSessions(sessions);
    assert lib.unmarshalSessions(plain) == Some(sessions);
    if lib.cipher != None {
      assert lib.cipher.value.decrypt(lib.cipher.value.encrypt(plain, nonce)) == Some(plain);
    }
  }

  /** Round trip: what Create wrote, loadFile reads back -- all sessions in order with every field, and the WAL
      offset -- with or without encryption. */
  lemma SnapshotRoundTrip(lib: Library, now: int, nodeId: string, sessions: seq<Session>, walLastOffset: nat,
                          nonce: nat)
    requires lib.Lawful()
    requires |lib.marshalHeader(HeaderFor(lib, now, nodeId, sessions, walLastOffset))| < TWO_TO_32
    requires |DataFor(lib, sessions, nonce)| < TWO_TO_32
    ensures LoadFile(lib, Create(lib, now, nodeId, sessions, walLastOffset, nonce)) ==
            Ok(sessions, Header(1, now, nodeId, |sessions|, walLastOffset, lib.cipher != None))
  {
    hide lib.Lawful, DataFor, LoadData, PutUint32, Block;
    BlocksComeBack(lib, lib, now, nodeId, sessions, walLastOffset, nonce);
    DataComesBack(lib, sessions, HeaderFor(lib, now, nodeId, sessions, walLastOffset), nonce);
  }

  /** Up to decoding the sessions, a reader with another cipher gets as far. */
  lemma BlocksComeBack(lib: Library, reader: Library, now: int, nodeId: string, sessions: seq<Session>,
                       walLastOffset: nat, nonce: nat)
    requires lib.Lawful() && reader == lib.(cipher := reader.cipher)
    requires |lib.marshalHeader(HeaderFor(lib, now, nodeId, sessions, walLastOffset))| < TWO_TO_32
    requires |DataFor(lib, sessions, nonce)| < TWO_TO_32
    ensures LoadFile(reader, Create(lib, now, nodeId, sessions, walLastOffset, nonce)) ==
            LoadData(reader, HeaderFor(lib, now, nodeId, sessions, walLastOffset), DataFor(lib, sessions, nonce))
  {
    hide lib.Lawful, DataFor, LoadData, PutUint32, Block;
    var h := HeaderFor(lib, now, nodeId, sessions, walLastOffset);
    var header, data := lib.marshalHeader(h), DataFor(lib, sessions, nonce);
    HeaderComesBack(lib, h);
    var body := Body(header, data);
    DigestSize(lib, body);
    BodyParts(header, data);
    BlockComesBack(header, PutUint32(|data|) + data);
    BlockComesBack(data, []);
    assert PutUint32(|data|) + data + [] == PutUint32(|data|) + data;
    var file := body + lib.sha256(body);
    assert file[..|body|] == body && file[|body|..] == lib.sha256(body);
  }

  lemma HeaderComesBack(lib: Library, h: Header)
    requires lib.Lawful()
    ensures lib.unmarshalHeader(lib.marshalHeader(h)) == Some(h) && lib.marshalHeader(h) != []
  {}

  lemma DigestSize(lib: Library, b: seq<byte>)
    requires lib.Lawful()
    ensures |lib.sha256(b)| == CHECKSUM_SIZE
  {}

  lemma BodyParts(header: seq<byte>, data: seq<byte>)
    requires |header| < TWO_TO_32 && |data| < TWO_TO_32
    ensures var body := Body(header, data);
            && |body| >= 8 && body[..8] == MAGIC
            && body[8..] == PutUint32(|header|) + header + (PutUint32(|data|) + data)
  {
    hide PutUint32, Uint32;
    var m, a, b := MAGIC, PutUint32(|header|), PutUint32(|data|);
    Regroup(m, a, header, b, data);
    TakeApart(m, a + header + (b + data));
  }

  lemma Associate(x: seq<byte>, y: seq<byte>, z: seq<byte>)
    ensures x + y + z == x + (y + z)
  {}

  lemma Regroup(m: seq<byte>, a: seq<byte>, h: seq<byte>, b: seq<byte>, d: seq<byte>)
    ensures m + a + h + b + d == m + (a + h + (b + d))
  {
    Associate(m, a, h);
    Associate(m, a + h, b);
    Associate(m, a + h + b, d);
    Associate(a + h, b, d);
  }

  lemma TakeApart(m: seq<byte>, rest: seq<byte>)
    ensures (m + rest)[..|m|] == m && (m + rest)[|m|..] == rest
  {}

  /** What a file holds, byte for byte; with a cipher, the sessions are in it encrypted and in no other form. */
  lemma FileLayout(lib: Library, now: int, nodeId: string, sessions: seq<Session>, walLastOffset: nat, nonce: nat)
    returns (header: seq<byte>, data: seq<byte>)
    requires |lib.marshalHeader(HeaderFor(lib, now, nodeId, sessions, walLastOffset))| < TWO_TO_32
    requires |DataFor(lib, sessions, nonce)| < TWO_TO_32
    ensures header == lib.marshalHeader(Header(1, now, nodeId, |sessions|, walLastOffset, lib.cipher != None))
    ensures lib.cipher == None ==> data == lib.marshalSessions(sessions)
    ensures lib.cipher != None ==> data == lib.cipher.value.encrypt(lib.marshalSessions(sessions), nonce)
    ensures |header| < TWO_TO_32 && |data| < TWO_TO_32
    ensures var body := [84, 79, 75, 77, 83, 78, 65, 80] + PutUint32(|header|) + header + PutUint32(|data|) + data;
            Create(lib, now, nodeId, sessions, walLastOffset, nonce) == body + lib.sha256(body)
  {
    hide PutUint32, Uint32;
    header := lib.marshalHeader(HeaderFor(lib, now, nodeId, sessions, walLastOffset));
    data := DataFor(lib, sessions, nonce);
  }

  /** When a file counts as damaged: it is too short or its digest is wrong; or the digest is right and the magic is
      not. */
  lemma DamageIs(lib: Library, file: seq<byte>)
    ensures LoadFile(lib, file) == Err(ErrChecksumMismatch) <==>
            |file| < 40 || lib.sha256(file[..|file| - 32]) != file[|file| - 32..]
    ensures LoadFile(lib, file) == Err(ErrInvalidMagic) <==>
            |file| >= 40 && lib.sha256(file[..|file| - 32]) == file[|file| - 32..] && file[..8] != MAGIC
  {
    if |file| >= 40 {
      assert file[..|file| - 32][..8] == file[..8];
    }
  }

  /** The reader and the writer must agree on having a cipher: without one, an encrypted snapshot loads as its header
      and no sessions at all; with one, a plain snapshot is an error that ends the search. */
  lemma CipherMustMatch(lib: Library, other: Option<Codec.Cipher>, now: int, nodeId: string, sessions: seq<Session>,
                        walLastOffset: nat, nonce: nat)
    requires lib.Lawful() && (lib.cipher == None) != (other == None)
    requires |lib.marshalHeader(HeaderFor(lib, now, nodeId, sessions, walLastOffset))| < TWO_TO_32
    requires |DataFor(lib, sessions, nonce)| < TWO_TO_32
    ensures LoadFile(lib.(cipher := other), Create(lib, now, nodeId, sessions, walLastOffset, nonce)) ==
            if other == None then Ok([], Header(1, now, nodeId, |sessions|, walLastOffset, true)) else Err(ErrOther)
  {
    hide lib.Lawful, DataFor, LoadData, PutUint32, Block;
    BlocksComeBack(lib, lib.(cipher := other), now, nodeId, sessions, walLastOffset, nonce);
    MismatchIs(lib, other, HeaderFor(lib, now, nodeId, sessions, walLastOffset), DataFor(lib, sessions, nonce));
  }

  lemma MismatchIs(lib: Library, other: Option<Codec.Cipher>, header: Header, data: seq<byte>)
    requires header.encrypted == (lib.cipher != None) && (lib.cipher == None) != (other == None)
    ensures LoadData(lib.(cipher := other), header, data) == if other == None then Ok([], header) else Err(ErrOther)
  {}

  // ---------------------------------------------------------------- choosing a snapshot

  datatype Choice = Chosen(index: nat, sessions: seq<Session>, header: Header) | GaveUp | NoSnapshots

  /** Every file after a place is damaged by its checksum or its magic. */
  predicate DamagedAfter(lib: Library, files: seq<seq<byte>>, i: int) {
    forall j | 0 <= j < |files| && i < j ::
      LoadFile(lib, files[j]) in {Err(ErrChecksumMismatch), Err(ErrInvalidMagic)}
  }

  /** What Load decides, over the snapshot files from oldest to newest: the newest readable one wins, damaged newer ones
      are passed over, and any other failure ends the search even if older files are fine. */
  ghost predicate IsChoice(lib: Library, files: seq<seq<byte>>, r: Choice) {
    match r
    case Chosen(i, sessions, header) =>
      i < |files| && LoadFile(lib, files[i]) == Ok(sessions, header) && DamagedAfter(lib, files, i)
    case GaveUp =>
      exists i :: 0 <= i < |files| && LoadFile(lib, files[i]) == Err(ErrOther) && DamagedAfter(lib, files, i)
    case NoSnapshots => DamagedAfter(lib, files, -1)
  }

  /** There is only one such choice. */
  lemma ChoiceIsUnique(lib: Library, files: seq<seq<byte>>, a: Choice, b: Choice)
    requires IsChoice(lib, files, a) && IsChoice(lib, files, b)
    ensures a == b
  {
    hide LoadFile;
  }

  method Load(lib: Library, files: seq<seq<byte>>) returns (r: Choice)
    ensures IsChoice(lib, files, r)
  {
    hide LoadFile;
    var i := |files|;
    while i > 0
      invariant 0 <= i <= |files| && DamagedAfter(lib, files, i - 1)
    {
      i := i - 1;
      match LoadFile(lib, files[i])
      case Ok(sessions, header) => return Chosen(i, sessions, header);
      case Err(ErrOther) => return GaveUp;
      case Err(_) =>
    }
    return NoSnapshots;
  }

  /** A snapshot that has just been written is the one that is loaded, whatever the older files are. */
  lemma NewestIsChosen(lib: Library, older: seq<seq<byte>>, now: int, nodeId: string, sessions: seq<Session>,
                       walLastOffset: nat, nonce: nat, r: Choice)
    requires lib.Lawful()
    requires |lib.marshalHeader(HeaderFor(lib, now, nodeId, sessions, walLastOffset))| < TWO_TO_32
    requires |DataFor(lib, sessions, nonce)| < TWO_TO_32
    requires IsChoice(lib, older + [Create(lib, now, nodeId, sessions, walLastOffset, nonce)], r)
    ensures r == Chosen(|older|, sessions, Header(1, now, nodeId, |sessions|, walLastOffset, lib.cipher != None))
  {
    hide lib.Lawful, DataFor, LoadFile, Create;
    SnapshotRoundTrip(lib, now, nodeId, sessions, walLastOffset, nonce);
    var files := older + [Create(lib, now, nodeId, sessions, walLastOffset, nonce)];
    assert files[|older|] == Create(lib, now, nodeId, sessions, walLastOffset, nonce);
    ChoiceIsUnique(lib, files, r,
                   Chosen(|older|, sessions, Header(1, now, nodeId, |sessions|, walLastOffset, lib.cipher != None)));
  }

  // ---------------------------------------------------------------- retention

  datatype File = File(path: string, modTime: int)

  /** The files that Prune must not remove, by position from oldest to newest. */
  predicate Retained(files: seq<File>, retentionCount: int, cutoff: Option<int>, i: nat)
    requires i < |files|
  {
    || i == |files| - 1
    || (retentionCount > 0 && i >= |files| - retentionCount)
    || (cutoff != None && files[i].modTime > cutoff.value)
  }

  predicate DistinctPaths(files: seq<File>) {
    forall i, j | 0 <= i < j < |files| :: files[i].path != files[j].path
  }

  /** The keep map of Prune. */
  method KeepPaths(files: seq<File>, retentionCount: int, cutoff: Option<int>) returns (keep: set<string>)
    requires DistinctPaths(files) && files != []
    ensures forall i | 0 <= i < |files| :: files[i].path in keep <==> Retained(files, retentionCount, cutoff, i)
  {
    keep := {};
    var start := |files|;
    if retentionCount > 0 {
      start := if |files| - retentionCount < 0 then 0 else |files| - retentionCount;
      for i := start to |files|
        invariant forall j | 0 <= j < |files| :: files[j].path in keep <==> start <= j < i
      {
        keep := keep + {files[i].path};
      }
    }
    if cutoff != None {
      for i := 0 to |files|
        invariant forall j | 0 <= j < |files| ::
          files[j].path in keep <==> start <= j || (j < i && files[j].modTime > cutoff.value)
      {
        if files[i].modTime > cutoff.value { keep := keep + {files[i].path}; }
      }
    }
    keep := keep + {files[|files| - 1].path};
  }

  /** Prune removes exactly the files that no rule retains: the newest stays, the last retentionCount stay, and
      what was modified after the cutoff stays. */
  method Prune(files: seq<File>, retentionCount: int, cutoff: Option<int>) returns (removed: set<string>)
    requires DistinctPaths(files)
    ensures forall i | 0 <= i < |files| ::
      files[i].path in removed <==>
      i != |files| - 1 && !(retentionCount > 0 && i >= |files| - retentionCount) &&
      !(cutoff != None && files[i].modTime > cutoff.value)
    ensures forall p <- removed :: exists i :: 0 <= i < |files| && files[i].path == p
  {
    removed := {};
    if |files| <= 1 { return; }
    var keep := KeepPaths(files, retentionCount, cutoff);
    for i := 0 to |files|
      invariant forall j | 0 <= j < |files| ::
        files[j].path in removed <==> j < i && !Retained(files, retentionCount, cutoff, j)
      invariant forall p <- removed :: exists j :: 0 <= j < i && files[j].path == p
    {
      if files[i].path !in keep { removed := removed + {files[i].path}; }
    }
  }
}
