/** WAL frames: src/internal/storage/wal/codec.go. JSON, base64, CRC-32, SHA-256 and the cipher are parameters
    with stated laws; the frame layout around them is modelled byte by byte. */
module Codec {
  import opened Domain
  import opened Entries
  import opened Bytes

  datatype Payload = Payload(timestamp: int, sessionId: string, version: nat, session: Option<Session>,
                             encrypted: string)

  /** A nonce makes two encryptions of the same text differ. */
  datatype Cipher = Cipher(encrypt: (seq<byte>, nat) -> seq<byte>, decrypt: seq<byte> -> Option<seq<byte>>)

  datatype Library = Library(
    marshal: Payload -> seq<byte>,
    unmarshal: seq<byte> -> Option<Payload>,
    marshalSession: Session -> seq<byte>,
    unmarshalSession: seq<byte> -> Option<Session>,
    toBase64: seq<byte> -> string,
    fromBase64: string -> Option<seq<byte>>,
    crc: seq<byte> -> uint32,
    sha256: seq<byte> -> seq<byte>,
    cipher: Option<Cipher>)
  {
    /** JSON leaves out three session fields; everything else comes back. A digest has 32 bytes. Decryption
        undoes encryption, and a ciphertext is never empty. */
    ghost predicate Lawful() {
      && (forall p {:trigger marshal(p)} :: unmarshal(marshal(p)) ==
            Some(p.(session := if p.session == None then None else Some(Strip(p.session.value)))))
      && (forall s {:trigger marshalSession(s)} :: unmarshalSession(marshalSession(s)) == Some(Strip(s)))
      && (forall b {:trigger toBase64(b)} :: fromBase64(toBase64(b)) == Some(b) && (b != [] ==> toBase64(b) != ""))
      && (forall b {:trigger sha256(b)} :: |sha256(b)| == 32)
      && (cipher != None ==> forall p, n {:trigger cipher.value.encrypt(p, n)} ::
            cipher.value.decrypt(cipher.value.encrypt(p, n)) == Some(p) && cipher.value.encrypt(p, n) != [])
    }
  }

  datatype FrameError = ErrCorruptedEntry | ErrChecksumMismatch | ErrInvalidEntryType | ErrOther

  datatype Result<T> = Ok(value: T) | Err(error: FrameError)

  function TypeByte(op: OpType): byte {
    match op
    case OpUnspecified => 0
    case OpCreate => 1
    case OpUpdate => 2
    case OpDelete => 3
  }

  function PayloadOf(lib: Library, e: Entry, nonce: nat): Payload {
    var bare := Payload(e.timestamp, e.sessionId, e.version, None, "");
    if e.op == OpDelete || e.session == None then bare
    else if lib.cipher == None then bare.(session := e.session)
    else bare.(encrypted := lib.toBase64(lib.cipher.value.encrypt(lib.marshalSession(e.session.value), nonce)))
  }

  /** encodeEntryFrame: [length:4][crc:4][type:1][payload]; the length field is a uint32 and wraps. */
  function EncodeFrame(lib: Library, e: Entry, nonce: nat): Result<seq<byte>> {
    if e.op == OpUnspecified then Err(ErrInvalidEntryType)
    else if e.op != OpDelete && e.session == None then Err(ErrOther)
    else
      var payload := lib.marshal(PayloadOf(lib, e, nonce));
      var length := (5 + |payload|) % TWO_TO_32;
      if length < 5 then Err(ErrCorruptedEntry)
      else Ok(PutUint32(length) + PutUint32(lib.crc([TypeByte(e.op)] + payload)) + [TypeByte(e.op)] + payload)
  }

  /** decodeEntryFrame, on the bytes after the length field. */
  function DecodeFrame(lib: Library, frame: seq<byte>): Result<Entry> {
    if |frame| < 5 then Err(ErrCorruptedEntry) else
    var typeByte, payload := frame[4], frame[5..];
    if lib.crc([typeByte] + payload) != Uint32(frame[..4]) then Err(ErrChecksumMismatch) else
    var decoded := lib.unmarshal(payload);
    if decoded == None then Err(ErrOther)
    else if typeByte == 0 || typeByte > 3 then Err(ErrInvalidEntryType)
    else
      var p := decoded.value;
      var op := if typeByte == 1 then OpCreate else if typeByte == 2 then OpUpdate else OpDelete;
      var e := Entry(op, p.timestamp, p.sessionId, p.version, None);
      if op == OpDelete then Ok(e)
      else if p.session != None then Ok(e.(session := p.session))
      else if p.encrypted == "" || lib.cipher == None then Err(ErrOther)
      else
        var ciphertext := lib.fromBase64(p.encrypted);
        if ciphertext == None then Err(ErrOther) else
        var plain := lib.cipher.value.decrypt(ciphertext.value);
        if plain == None then Err(ErrOther) else
        var session := lib.unmarshalSession(plain.value);
        if session == None then Err(ErrOther) else Ok(e.(session := session))
  }

  /** The payload is short enough for its length to be a uint32. */
  predicate Fits(lib: Library, e: Entry, nonce: nat) {
    5 + |lib.marshal(PayloadOf(lib, e, nonce))| < TWO_TO_32
  }

  /** The parts of an encoded frame. */
  lemma FrameLayout(crc: uint32, typeByte: byte, payload: seq<byte>)
    requires 5 + |payload| < TWO_TO_32
    ensures var frame := PutUint32(5 + |payload|) + PutUint32(crc) + [typeByte] + payload;
            && |frame| == 9 + |payload| && Uint32(frame[..4]) == |frame| - 4
            && Uint32(frame[4..][..4]) == crc && frame[4..][4] == typeByte && frame[4..][5..] == payload
  {
    var a, b := PutUint32(5 + |payload|), PutUint32(crc);
    var frame := a + b + [typeByte] + payload;
    assert frame[..4] == a && frame[4..][..4] == b && frame[4..][5..] == payload;
  }

  /** Decrypting gives back what was marshalled. */
  lemma SessionComesBack(lib: Library, s: Session, nonce: nat)
    requires lib.Lawful() && lib.cipher != None
    ensures var text := lib.toBase64(lib.cipher.value.encrypt(lib.marshalSession(s), nonce));
            && text != "" && lib.fromBase64(text) != None
            && lib.cipher.value.decrypt(lib.fromBase64(text).value) == Some(lib.marshalSession(s))
            && lib.unmarshalSession(lib.marshalSession(s)) == Some(Strip(s))
  {
    var bytes := lib.cipher.value.encrypt(lib.marshalSession(s), nonce);
    assert lib.fromBase64(lib.toBase64(bytes)) == Some(bytes);
  }

  lemma PayloadComesBack(lib: Library, p: Payload)
    requires lib.Lawful()
    ensures lib.unmarshal(lib.marshal(p)) ==
            Some(p.(session := if p.session == None then None else Some(Strip(p.session.value))))
  {}

  /** A frame carries its own length, and decodes to the entry minus what the log does not keep -- with or
      without encryption. */
  lemma FrameRoundTrip(lib: Library, e: Entry, nonce: nat)
    requires lib.Lawful() && Fits(lib, e, nonce)
    requires e.op != OpUnspecified && (e.op != OpDelete ==> e.session != None)
    ensures var r := EncodeFrame(lib, e, nonce);
            && r.Ok? && |r.value| >= 9 && Uint32(r.value[..4]) == |r.value| - 4
            && DecodeFrame(lib, r.value[4..]) == Ok(Wire(e))
  {
    hide lib.Lawful, PutUint32, Uint32;
    var p := PayloadOf(lib, e, nonce);
    var payload := lib.marshal(p);
    PayloadComesBack(lib, p);
    FrameLayout(lib.crc([TypeByte(e.op)] + payload), TypeByte(e.op), payload);
    if e.op != OpDelete && lib.cipher != None { SessionComesBack(lib, e.session.value, nonce); }
  }

  // ---------------------------------------------------------------- frames, field by field

  /** What a frame holds, byte for byte. A DELETE carries no session; with a cipher the session is in the payload only
      as base64 of its ciphertext. */
  lemma FrameIs(lib: Library, e: Entry, nonce: nat) returns (payload: seq<byte>)
    requires EncodeFrame(lib, e, nonce).Ok? && Fits(lib, e, nonce)
    ensures e.op != OpUnspecified && (e.op != OpDelete ==> e.session != None)
    ensures payload == lib.marshal(Payload(
              e.timestamp, e.sessionId, e.version,
              if e.op == OpDelete || lib.cipher != None then None else e.session,
              if e.op == OpDelete || lib.cipher == None then ""
              else lib.toBase64(lib.cipher.value.encrypt(lib.marshalSession(e.session.value), nonce))))
    ensures var kind := if e.op == OpCreate then 1 else if e.op == OpUpdate then 2 else 3;
            5 + |payload| < TWO_TO_32 &&
            EncodeFrame(lib, e, nonce) ==
            Ok(PutUint32(5 + |payload|) + PutUint32(lib.crc([kind] + payload)) + [kind] + payload)
  {
    hide PutUint32;
    payload := lib.marshal(PayloadOf(lib, e, nonce));
  }

  /** The session that a payload carries, in clear or encrypted. */
  function SessionIn(lib: Library, p: Payload): Option<Session> {
    if p.session != None then p.session
    else if p.encrypted == "" || lib.cipher == None || lib.fromBase64(p.encrypted) == None then None
    else
      var plain := lib.cipher.value.decrypt(lib.fromBase64(p.encrypted).value);
      if plain == None then None else lib.unmarshalSession(plain.value)
  }

  /** Exactly what a frame decodes to: the checksum covers type and payload, the payload is readable, the type is one of
      three, and a session is there unless it is a DELETE. */
  lemma DecodesIff(lib: Library, frame: seq<byte>, e: Entry)
    ensures DecodeFrame(lib, frame) == Ok(e) <==>
            && |frame| >= 5 && lib.crc(frame[4..]) == Uint32(frame[..4])
            && lib.unmarshal(frame[5..]) != None && frame[4] in {1, 2, 3}
            && var p := lib.unmarshal(frame[5..]).value;
               && (frame[4] != 3 ==> SessionIn(lib, p) != None)
               && e == Entry(if frame[4] == 1 then OpCreate else if frame[4] == 2 then OpUpdate else OpDelete,
                             p.timestamp, p.sessionId, p.version, if frame[4] == 3 then None else SessionIn(lib, p))
  {
    if |frame| >= 5 {
      assert [frame[4]] + frame[5..] == frame[4..];
    }
  }

  /** And which failure it is otherwise. */
  lemma DecodeFailsWith(lib: Library, frame: seq<byte>)
    ensures DecodeFrame(lib, frame) == Err(ErrCorruptedEntry) <==> |frame| < 5
    ensures DecodeFrame(lib, frame) == Err(ErrChecksumMismatch) <==>
            |frame| >= 5 && lib.crc(frame[4..]) != Uint32(frame[..4])
    ensures DecodeFrame(lib, frame) == Err(ErrInvalidEntryType) <==>
            |frame| >= 5 && lib.crc(frame[4..]) == Uint32(frame[..4]) && lib.unmarshal(frame[5..]) != None &&
            frame[4] !in {1, 2, 3}
  {
    if |frame| >= 5 {
      assert [frame[4]] + frame[5..] == frame[4..];
    }
  }
}
