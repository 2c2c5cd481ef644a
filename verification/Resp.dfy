/** RESP2 commands as they come in and go out: src/internal/server/redisserver/resp.go and the sections "Arrays" and
    "Bulk strings" of the Redis serialization protocol specification. The stream is the sequence of bytes not yet
    read; each reader gives back what is left of it. */
module Resp {
  import opened Bytes
  import D = Domain

  const CR: byte := 13
  const LF: byte := 10
  const STAR: byte := 42
  const PLUS: byte := 43
  const MINUS: byte := 45
  const DOLLAR: byte := 36
  const ZERO: byte := 48
  const BLANK: byte := 32
  const CRLF: seq<byte> := [CR, LF]

  const MAX_ARRAY_LEN := 1024
  const MAX_BULK_LEN := 512 * 1024
  const MAX_INLINE_LEN := 4 * 1024
  const MAX_HEADER_LEN := 64
  /** bufio.NewReader's buffer. */
  const BUFFER_SIZE := 4096
  const MAX_INT64 := 0x7fff_ffff_ffff_ffff

  datatype Error = EOF | Protocol | LimitExceeded

  datatype Result<T> = Ok(value: T) | Err(error: Error)

  /** A null bulk string is None. */
  type Arg = D.Option<seq<byte>>

  type Command = seq<Arg>

  /** White space in ASCII. */
  predicate IsBlank(b: byte) {
    9 <= b <= 13 || b == BLANK
  }

  /** Words separated by single blanks. */
  function Join(words: seq<seq<byte>>): seq<byte> {
    if |words| == 0 then [] else if |words| == 1 then words[0]
    else Join(words[..|words| - 1]) + [BLANK] + words[|words| - 1]
  }

  /** strings.TrimSpace, strings.Fields, and whether a text contains white space. */
  datatype Text = Text(trim: seq<byte> -> seq<byte>, fields: seq<byte> -> seq<seq<byte>>, hasSpace: seq<byte> -> bool)
  {
    /** Words are not empty and contain no white space. */
    predicate AreWords(words: seq<seq<byte>>) {
      words != [] && forall i | 0 <= i < |words| :: words[i] != [] && !hasSpace(words[i])
    }

    /** White space in ASCII counts as such, other ASCII does not, and a line of words separated by blanks is left alone
        by trimming and comes apart into those words. */
    ghost predicate Lawful() {
      && (forall s {:trigger hasSpace(s)} :: (exists i :: 0 <= i < |s| && IsBlank(s[i])) ==> hasSpace(s))
      && (forall s {:trigger hasSpace(s)} :: (forall i | 0 <= i < |s| :: s[i] < 128 && !IsBlank(s[i])) ==> !hasSpace(s))
      && (forall words {:trigger Join(words)} :: AreWords(words) ==>
            trim(Join(words)) == Join(words) && fields(Join(words)) == words)
    }
  }

  predicate IsDigit(b: byte) {
    ZERO <= b <= ZERO + 9
  }

  predicate Solid(b: byte) {
    IsDigit(b) || b == MINUS
  }

  // ---------------------------------------------------------------- numbers

  /** The decimal value of a non-empty string of digits. */
  function Digits(s: seq<byte>): D.Option<nat> {
    if s == [] then D.Some(0)
    else
      var high := Digits(s[..|s| - 1]);
      var low := s[|s| - 1];
      if high.None? || !IsDigit(low) then D.None else D.Some(high.value * 10 + (low - ZERO))
  }

  /** strconv.Atoi: an optional sign, digits, the range of int64. */
  function Atoi(s: seq<byte>): D.Option<int> {
    if s == [] then D.None
    else
      var negative := s[0] == MINUS;
      var digits := if negative || s[0] == PLUS then s[1..] else s;
      var n := Digits(digits);
      if digits == [] || n.None? then D.None
      else
        var size: int := n.value;
        var value := if negative then -size else size;
        if -MAX_INT64 - 1 <= value <= MAX_INT64 then D.Some(value) else D.None
  }

  function FormatNat(n: nat): seq<byte> {
    if n < 10 then [ZERO + n] else FormatNat(n / 10) + [ZERO + n % 10]
  }

  /** strconv.Itoa. */
  function Itoa(n: int): seq<byte> {
    if n < 0 then [MINUS] + FormatNat(-n) else FormatNat(n)
  }

  // ---------------------------------------------------------------- lines

  datatype Found = Line | BufferFull | AtEnd

  /** The position of the first line feed, or the length. */
  function LineEnd(s: seq<byte>): (i: nat)
    ensures i <= |s| && (i < |s| ==> s[i] == LF)
    ensures forall k | 0 <= k < i :: s[k] != LF
  {
    if s == [] || s[0] == LF then 0 else 1 + LineEnd(s[1..])
  }

  /** bufio's ReadSlice('\n'): how it ends, and how many bytes it takes. */
  function ReadSlice(rest: seq<byte>): (r: (Found, nat))
    ensures r.1 <= |rest| && (!r.0.AtEnd? ==> r.1 > 0)
  {
    var i := LineEnd(rest);
    if i < |rest| && i < BUFFER_SIZE then (Line, i + 1)
    else if |rest| >= BUFFER_SIZE then (BufferFull, BUFFER_SIZE)
    else (AtEnd, |rest|)
  }

  predicate HasSuffix(s: seq<byte>, suffix: seq<byte>) {
    |s| >= |suffix| && s[|s| - |suffix|..] == suffix
  }

  /** A whole line, its length and its ending checked. */
  function FinishLine(buf: seq<byte>, maxLen: nat): Result<seq<byte>> {
    if |buf| > maxLen then Err(LimitExceeded)
    else if !HasSuffix(buf, CRLF) then Err(Protocol)
    else Ok(buf[..|buf| - 2])
  }

  /** readLine's loop, with what it has gathered so far. */
  function LineFrom(rest: seq<byte>, maxLen: nat, got: seq<byte>): (r: (seq<byte>, Result<seq<byte>>))
    decreases |rest|
  {
    var (found, n) := ReadSlice(rest);
    var buf := got + rest[..n];
    match found
    case Line => (rest[n..], FinishLine(buf, maxLen))
    case BufferFull => if |buf| > maxLen then (rest[n..], Err(LimitExceeded)) else LineFrom(rest[n..], maxLen, buf)
    case AtEnd => (rest[n..], Err(EOF))
  }

  function ReadLine(rest: seq<byte>, maxLen: nat): (seq<byte>, Result<seq<byte>>) {
    LineFrom(rest, maxLen, [])
  }

  // ---------------------------------------------------------------- commands

  function ReadBulk(text: Text, rest: seq<byte>): (seq<byte>, Result<Arg>) {
    var (rest, line) := ReadLine(rest, MAX_HEADER_LEN);
    if line.Err? then (rest, Err(line.error))
    else if |line.value| < 2 || line.value[0] != DOLLAR then
      if |line.value| >= 2 && line.value[0] == PLUS then (rest, Ok(D.Some(line.value[1..]))) else (rest, Err(Protocol))
    else
      var n := Atoi(text.trim(line.value[1..]));
      if n.None? then (rest, Err(Protocol))
      else if n.value == -1 then (rest, Ok(D.None))
      else if n.value < 0 then (rest, Err(Protocol))
      else if n.value > MAX_BULK_LEN then (rest, Err(LimitExceeded))
      else if |rest| < n.value + 2 then ([], Err(EOF))
      else if !HasSuffix(rest[..n.value + 2], CRLF) then (rest[n.value + 2..], Err(Protocol))
      else (rest[n.value + 2..], Ok(D.Some(rest[..n.value])))
  }

  /** The first so many arguments of an array. */
  function ReadArgs(text: Text, rest: seq<byte>, n: nat): (seq<byte>, Result<Command>) {
    if n == 0 then (rest, Ok([]))
    else
      var (rest, args) := ReadArgs(text, rest, n - 1);
      if args.Err? then (rest, args)
      else
        var (rest, arg) := ReadBulk(text, rest);
        (rest, if arg.Err? then Err(arg.error) else Ok(args.value + [arg.value]))
  }

  function ReadArray(text: Text, rest: seq<byte>): (seq<byte>, Result<Command>) {
    var (rest, line) := ReadLine(rest, MAX_HEADER_LEN);
    if line.Err? then (rest, Err(line.error))
    else if |line.value| < 2 || line.value[0] != STAR then (rest, Err(Protocol))
    else
      var n := Atoi(text.trim(line.value[1..]));
      if n.None? then (rest, Err(Protocol))
      else if n.value <= 0 then (rest, Ok([]))
      else if n.value > MAX_ARRAY_LEN then (rest, Err(LimitExceeded))
      else ReadArgs(text, rest, n.value)
  }

  function ReadInline(text: Text, rest: seq<byte>): (seq<byte>, Result<Command>) {
    var (rest, line) := ReadLine(rest, MAX_INLINE_LEN);
    if line.Err? then (rest, Err(line.error))
    else if text.trim(line.value) == [] then (rest, Ok([]))
    else
      var parts := text.fields(text.trim(line.value));
      (rest, Ok(seq(|parts|, i requires 0 <= i < |parts| => D.Some(parts[i]))))
  }

  function ReadCommand(text: Text, rest: seq<byte>): (seq<byte>, Result<Command>) {
    if rest == [] then (rest, Err(EOF))
    else if rest[0] == STAR then ReadArray(text, rest)
    else ReadInline(text, rest)
  }

  // ---------------------------------------------------------------- writing

  function WriteArrayHeader(n: int): seq<byte> {
    [STAR] + Itoa(n) + CRLF
  }

  function WriteBulk(arg: Arg): seq<byte> {
    match arg
    case None => [DOLLAR] + Itoa(-1) + CRLF
    case Some(b) => [DOLLAR] + Itoa(|b|) + CRLF + b + CRLF
  }

  function WriteBulks(args: Command): seq<byte> {
    if args == [] then [] else WriteBulks(args[..|args| - 1]) + WriteBulk(args[|args| - 1])
  }

  function WriteCommand(args: Command): seq<byte> {
    WriteArrayHeader(|args|) + WriteBulks(args)
  }
}
