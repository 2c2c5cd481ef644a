/** What a RESP2 reader and writer promise each other and a client that pipelines. */
module RespTheorems {
  import opened Bytes
  import opened Resp
  import D = Domain

  // ---------------------------------------------------------------- numbers

  ghost predicate AllDigits(s: seq<byte>) {
    forall i | 0 <= i < |s| :: IsDigit(s[i])
  }

  lemma {:induction false} FormatParses(n: nat)
    ensures Digits(FormatNat(n)) == D.Some(n) && FormatNat(n) != [] && AllDigits(FormatNat(n))
  {
    if n >= 10 {
      FormatParses(n / 10);
      assert FormatNat(n)[..|FormatNat(n)| - 1] == FormatNat(n / 10);
    } else {
      assert FormatNat(n)[..0] == [];
    }
  }

  /** Printing and parsing agree over the whole range of int64. */
  lemma NumberRoundTrip(n: int)
    requires -MAX_INT64 - 1 <= n <= MAX_INT64
    ensures Atoi(Itoa(n)) == D.Some(n)
  {
    FormatParses(if n < 0 then -n else n);
    if n < 0 {
      assert Itoa(n)[1..] == FormatNat(-n);
    }
  }

  function Pow10(k: nat): nat {
    if k == 0 then 1 else 10 * Pow10(k - 1)
  }

  lemma {:induction false} FormatIsShort(n: nat, k: nat)
    requires 1 <= k && n < Pow10(k)
    ensures |FormatNat(n)| <= k
  {
    if n >= 10 {
      assert k > 1;
      FormatIsShort(n / 10, k - 1);
    }
  }

  lemma NumberIsSolid(n: int)
    requires -MAX_INT64 - 1 <= n <= MAX_INT64
    ensures 1 <= |Itoa(n)| <= 20 && (forall i | 0 <= i < |Itoa(n)| :: Solid(Itoa(n)[i]))
  {
    FormatParses(if n < 0 then -n else n);
    assert Pow10(19) == 10_000_000_000_000_000_000 by {
      assert Pow10(8) == 100_000_000;
      assert Pow10(16) == 10_000_000_000_000_000;
    }
    FormatIsShort(if n < 0 then -n else n, 19);
  }

  /** A number is a single word. */
  lemma NumberIsAWord(text: Text, n: int)
    requires text.Lawful() && -MAX_INT64 - 1 <= n <= MAX_INT64
    ensures text.trim(Itoa(n)) == Itoa(n)
  {
    hide Itoa;
    NumberIsSolid(n);
    assert !text.hasSpace(Itoa(n));
    assert text.AreWords([Itoa(n)]) && Join([Itoa(n)]) == Itoa(n);
  }

  // ---------------------------------------------------------------- lines

  lemma {:induction false} LineEndIs(s: seq<byte>, i: nat)
    requires i <= |s| && (forall k | 0 <= k < i :: s[k] != LF) && (i < |s| ==> s[i] == LF)
    ensures LineEnd(s) == i
  {
  }

  /** A result is right for a stream: a line exactly when the first line feed ends one of legal length with CR LF; it
      is everything before that, and what is left goes on right after it. */
  ghost predicate IsFirstLine(all: seq<byte>, maxLen: nat, left: seq<byte>, line: Result<seq<byte>>) {
    var i := LineEnd(all);
    && (line.Ok? <==> 1 <= i < |all| && i < maxLen && all[i - 1] == CR)
    && (line.Ok? ==> line.value == all[..i - 1] && left == all[i + 1..])
  }

  /** readLine is right for every stream. The size of the read buffer does not show. */
  lemma ReadLineIsFirstLine(rest: seq<byte>, maxLen: nat)
    ensures IsFirstLine(rest, maxLen, ReadLine(rest, maxLen).0, ReadLine(rest, maxLen).1)
  {
    hide LineFrom, IsFirstLine;
    assert [] + rest == rest;
    LineFromIsFirstLine(rest, maxLen, []);
  }

  lemma {:induction false} LineFromIsFirstLine(rest: seq<byte>, maxLen: nat, got: seq<byte>)
    requires forall k | 0 <= k < |got| :: got[k] != LF
    ensures IsFirstLine(got + rest, maxLen, LineFrom(rest, maxLen, got).0, LineFrom(rest, maxLen, got).1)
    decreases |rest|
  {
    hide FinishLine, IsFirstLine;
    var (found, n) := ReadSlice(rest);
    var buf := got + rest[..n];
    assert got + rest == buf + rest[n..];
    if found.Line? {
      assert n == LineEnd(rest) + 1 && buf[|buf| - 1] == rest[n - 1];
      LineIsFinished(buf, rest[n..], maxLen);
    } else {
      assert n <= LineEnd(rest) && forall k | 0 <= k < |buf| :: buf[k] != LF;
      if found.BufferFull? && |buf| <= maxLen {
        LineFromIsFirstLine(rest[n..], maxLen, buf);
      } else {
        NoLineYet(buf, rest[n..], maxLen, LineFrom(rest, maxLen, got).0, LineFrom(rest, maxLen, got).1);
      }
    }
  }

  lemma NoLineYet(buf: seq<byte>, rest: seq<byte>, maxLen: nat, left: seq<byte>, line: Result<seq<byte>>)
    requires (forall k | 0 <= k < |buf| :: buf[k] != LF) && line.Err? && (rest == [] || |buf| > maxLen)
    ensures IsFirstLine(buf + rest, maxLen, left, line)
  {
    LineEndIs(buf + rest, |buf| + LineEnd(rest));
  }

  lemma LineIsFinished(buf: seq<byte>, tail: seq<byte>, maxLen: nat)
    requires buf != [] && buf[|buf| - 1] == LF && forall k | 0 <= k < |buf| - 1 :: buf[k] != LF
    ensures IsFirstLine(buf + tail, maxLen, tail, FinishLine(buf, maxLen))
  {
    hide FinishLine, LineEnd;
    var all := buf + tail;
    LineEndIs(all, |buf| - 1);
    FinishIs(buf, maxLen);
    assert all[|buf|..] == tail;
    if |buf| >= 2 {
      assert all[|buf| - 2] == buf[|buf| - 2] && all[..|buf| - 2] == buf[..|buf| - 2];
    }
  }

  lemma FinishIs(buf: seq<byte>, maxLen: nat)
    requires buf != [] && buf[|buf| - 1] == LF
    ensures FinishLine(buf, maxLen).Ok? <==> |buf| <= maxLen && |buf| >= 2 && buf[|buf| - 2] == CR
    ensures FinishLine(buf, maxLen).Ok? ==> FinishLine(buf, maxLen).value == buf[..|buf| - 2]
  {
    if |buf| >= 2 {
      assert buf[|buf| - 2..] == [buf[|buf| - 2], LF];
    }
  }

  /** A written line without line feeds reads back. */
  lemma LineRoundTrip(line: seq<byte>, tail: seq<byte>, maxLen: nat)
    requires |line| + 2 <= maxLen && forall k | 0 <= k < |line| :: line[k] != LF
    ensures ReadLine(line + CRLF + tail, maxLen) == (tail, Ok(line))
  {
    var all := line + CRLF + tail;
    LineEndIs(all, |line| + 1);
    ReadLineIsFirstLine(all, maxLen);
    assert all[..|line|] == line && all[|line| + 2..] == tail;
  }

  // ---------------------------------------------------------------- round trips

  /** A header: a marker, any number of 64 bits, CR LF. */
  lemma HeaderRoundTrip(text: Text, marker: byte, n: int, tail: seq<byte>)
    requires text.Lawful() && marker != LF && -MAX_INT64 - 1 <= n <= MAX_INT64
    ensures var line := [marker] + Itoa(n);
      ReadLine(line + CRLF + tail, MAX_HEADER_LEN) == (tail, Ok(line)) && |line| >= 2 && line[0] == marker &&
      Atoi(text.trim(line[1..])) == D.Some(n)
  {
    hide Itoa, Atoi, ReadLine, text.Lawful;
    var line := [marker] + Itoa(n);
    NumberIsSolid(n);
    NumberIsAWord(text, n);
    NumberRoundTrip(n);
    assert line[1..] == Itoa(n);
    LineRoundTrip(line, tail, MAX_HEADER_LEN);
  }

  predicate WithinLimits(arg: Arg) {
    arg.Some? ==> |arg.value| <= MAX_BULK_LEN
  }

  lemma BulkRoundTrip(text: Text, arg: Arg, tail: seq<byte>)
    requires text.Lawful() && WithinLimits(arg)
    ensures ReadBulk(text, WriteBulk(arg) + tail) == (tail, Ok(arg))
  {
    hide Itoa, Atoi, ReadLine, text.Lawful;
    match arg {
      case None =>
        HeaderRoundTrip(text, DOLLAR, -1, tail);
      case Some(b) =>
        var after := b + CRLF + tail;
        HeaderRoundTrip(text, DOLLAR, |b|, after);
        assert WriteBulk(arg) + tail == [DOLLAR] + Itoa(|b|) + CRLF + after;
        assert after[..|b| + 2] == b + CRLF && after[..|b|] == b && after[|b| + 2..] == tail;
    }
  }

  lemma {:induction false} ArgsRoundTrip(text: Text, args: Command, tail: seq<byte>)
    requires text.Lawful() && forall i | 0 <= i < |args| :: WithinLimits(args[i])
    ensures ReadArgs(text, WriteBulks(args) + tail, |args|) == (tail, Ok(args))
  {
    hide text.Lawful, ReadBulk, WriteBulk, WithinLimits;
    if args == [] {
      assert WriteBulks(args) + tail == tail;
    } else {
      var init, last := args[..|args| - 1], args[|args| - 1];
      assert args == init + [last];
      assert WriteBulks(args) + tail == WriteBulks(init) + (WriteBulk(last) + tail);
      ArgsRoundTrip(text, init, WriteBulk(last) + tail);
      BulkRoundTrip(text, last, tail);
    }
  }

  ghost predicate Legal(args: Command) {
    1 <= |args| <= MAX_ARRAY_LEN && forall i | 0 <= i < |args| :: WithinLimits(args[i])
  }

  /** What is written reads back, null bulks included, and not a byte more is taken. */
  lemma CommandRoundTrip(text: Text, args: Command, tail: seq<byte>)
    requires text.Lawful() && Legal(args)
    ensures ReadCommand(text, WriteCommand(args) + tail) == (tail, Ok(args))
  {
    hide Itoa, Atoi, ReadLine, text.Lawful, ReadArgs, WriteBulks, WithinLimits;
    var body := WriteBulks(args) + tail;
    HeaderRoundTrip(text, STAR, |args|, body);
    assert WriteCommand(args) + tail == [STAR] + Itoa(|args|) + CRLF + body;
    ArgsRoundTrip(text, args, tail);
  }

  function WriteAll(commands: seq<Command>): seq<byte> {
    if commands == [] then [] else WriteAll(commands[..|commands| - 1]) + WriteCommand(commands[|commands| - 1])
  }

  /** The first so many commands of a stream. */
  function ReadMany(text: Text, rest: seq<byte>, n: nat): (seq<byte>, Result<seq<Command>>) {
    if n == 0 then (rest, Ok([]))
    else
      var (rest, commands) := ReadMany(text, rest, n - 1);
      if commands.Err? then (rest, commands)
      else
        var (rest, command) := ReadCommand(text, rest);
        (rest, if command.Err? then Err(command.error) else Ok(commands.value + [command.value]))
  }

  /** Pipelining: commands written back to back are read one by one. */
  lemma {:induction false} PipelineRoundTrip(text: Text, commands: seq<Command>, tail: seq<byte>)
    requires text.Lawful() && forall i | 0 <= i < |commands| :: Legal(commands[i])
    ensures ReadMany(text, WriteAll(commands) + tail, |commands|) == (tail, Ok(commands))
  {
    hide text.Lawful, ReadCommand, WriteCommand, Legal;
    if commands == [] {
      assert WriteAll(commands) + tail == tail;
    } else {
      var init, last := commands[..|commands| - 1], commands[|commands| - 1];
      assert commands == init + [last];
      assert WriteAll(commands) + tail == WriteAll(init) + (WriteCommand(last) + tail);
      PipelineRoundTrip(text, init, WriteCommand(last) + tail);
      CommandRoundTrip(text, last, tail);
    }
  }

  // ---------------------------------------------------------------- inline commands

  lemma {:induction false} JoinHasNoLineFeed(text: Text, words: seq<seq<byte>>)
    requires text.Lawful() && (words == [] || text.AreWords(words))
    ensures forall k | 0 <= k < |Join(words)| :: Join(words)[k] != LF
    ensures words != [] ==> Join(words) != [] && Join(words)[0] == words[0][0]
  {
    hide text.Lawful;
    if |words| == 1 {
      WordHasNoLineFeed(text, words[0]);
    } else if |words| > 1 {
      var init, last := words[..|words| - 1], words[|words| - 1];
      JoinHasNoLineFeed(text, init);
      WordHasNoLineFeed(text, last);
      assert Join(words) == Join(init) + [BLANK] + last;
    }
  }

  lemma WordHasNoLineFeed(text: Text, word: seq<byte>)
    requires text.Lawful() && !text.hasSpace(word)
    ensures forall k | 0 <= k < |word| :: word[k] != LF
  {
    assert forall k | 0 <= k < |word| :: !IsBlank(word[k]);
  }

  /** Inline commands: a line of words separated by blanks, the first not beginning with '*', reads back as exactly
      those words and leaves what follows; if it is longer than the limit it is refused. */
  lemma InlineRoundTrip(text: Text, words: seq<seq<byte>>, tail: seq<byte>)
    requires text.Lawful() && text.AreWords(words) && words[0][0] != STAR
    ensures |Join(words)| + 2 <= 4096 ==>
      ReadCommand(text, Join(words) + CRLF + tail) ==
      (tail, Ok(seq(|words|, i requires 0 <= i < |words| => D.Some(words[i]))))
    ensures |Join(words)| + 2 > 4096 ==>
      ReadCommand(text, Join(words) + CRLF + tail).1 == Err(LimitExceeded)
  {
    hide ReadLine, Join;
    var line := Join(words);
    var all := line + CRLF + tail;
    JoinHasNoLineFeed(text, words);
    assert text.trim(line) == line && text.fields(line) == words;
    assert all[0] == line[0];
    if |line| + 2 <= MAX_INLINE_LEN {
      LineRoundTrip(line, tail, MAX_INLINE_LEN);
    } else {
      LineEndIs(all, |line| + 1);
      TooLongIsRefused(all, MAX_INLINE_LEN);
    }
  }

  /** A line that ends beyond the limit is refused as too long. */
  lemma TooLongIsRefused(rest: seq<byte>, maxLen: nat)
    requires maxLen <= LineEnd(rest) < |rest|
    ensures ReadLine(rest, maxLen).1 == Err(LimitExceeded)
  {
    hide LineEnd;
    TooLongFrom(rest, maxLen, []);
  }

  /** So are the headers of arrays and bulks beyond 64 bytes. */
  lemma LongHeaderIsRefused(text: Text, rest: seq<byte>)
    requires 64 <= LineEnd(rest) < |rest|
    ensures ReadBulk(text, rest).1 == Err(LimitExceeded)
    ensures rest[0] == STAR ==> ReadCommand(text, rest).1 == Err(LimitExceeded)
  {
    hide ReadLine, LineEnd, Atoi;
    TooLongIsRefused(rest, MAX_HEADER_LEN);
  }

  lemma {:induction false} TooLongFrom(rest: seq<byte>, maxLen: nat, got: seq<byte>)
    requires LineEnd(rest) < |rest| && |got| + LineEnd(rest) >= maxLen
    ensures LineFrom(rest, maxLen, got).1 == Err(LimitExceeded)
    decreases |rest|
  {
    var (found, n) := ReadSlice(rest);
    if found.BufferFull? && |got + rest[..n]| <= maxLen {
      LineEndIs(rest[n..], LineEnd(rest) - n);
      TooLongFrom(rest[n..], maxLen, got + rest[..n]);
    }
  }

  // ---------------------------------------------------------------- every header

  /** What a bulk header makes of the bytes behind it, for every number: -1 is the null bulk, any other negative one is
      malformed, one above the limit is refused; otherwise so many bytes are the argument if they are there and CR LF
      follows them. */
  lemma BulkOfHeader(text: Text, n: int, tail: seq<byte>)
    requires text.Lawful() && -MAX_INT64 - 1 <= n <= MAX_INT64
    ensures ReadBulk(text, [DOLLAR] + Itoa(n) + CRLF + tail) ==
            if n == -1 then (tail, Ok(D.None))
            else if n < 0 then (tail, Err(Protocol))
            else if n > 524288 then (tail, Err(LimitExceeded))
            else if |tail| < n + 2 then ([], Err(EOF))
            else (tail[n + 2..], if tail[n..n + 2] == [CR, LF] then Ok(D.Some(tail[..n])) else Err(Protocol))
  {
    hide Itoa, Atoi, ReadLine, text.Lawful;
    HeaderRoundTrip(text, DOLLAR, n, tail);
    if 0 <= n <= 524288 && |tail| >= n + 2 {
      assert tail[..n + 2][n..] == tail[n..n + 2];
    }
  }

  /** A simple string is taken as an argument too; a line with any other marker is malformed. */
  lemma BulkOfOtherLine(text: Text, line: seq<byte>, tail: seq<byte>)
    requires |line| + 2 <= MAX_HEADER_LEN && (forall k | 0 <= k < |line| :: line[k] != LF)
    requires |line| < 2 || line[0] != DOLLAR
    ensures ReadBulk(text, line + CRLF + tail) ==
            (tail, if |line| >= 2 && line[0] == PLUS then Ok(D.Some(line[1..])) else Err(Protocol))
  {
    hide ReadLine, Atoi;
    LineRoundTrip(line, tail, MAX_HEADER_LEN);
  }

  /** What an array header makes of what follows, for every number: none or fewer is an empty command, more than 1024 is
      refused, anything else is so many arguments. */
  lemma ArrayOfHeader(text: Text, n: int, tail: seq<byte>)
    requires text.Lawful() && -MAX_INT64 - 1 <= n <= MAX_INT64
    ensures ReadCommand(text, [STAR] + Itoa(n) + CRLF + tail) ==
            if n <= 0 then (tail, Ok([])) else if n > 1024 then (tail, Err(LimitExceeded)) else ReadArgs(text, tail, n)
  {
    hide Itoa, Atoi, ReadLine, text.Lawful, ReadArgs;
    HeaderRoundTrip(text, STAR, n, tail);
  }

  // ---------------------------------------------------------------- every input

  /** What is left is the end of what there was. */
  ghost predicate Consumes(rest: seq<byte>, left: seq<byte>) {
    |left| <= |rest| && left == rest[|rest| - |left|..]
  }

  lemma {:induction false} LineConsumes(rest: seq<byte>, maxLen: nat, got: seq<byte>)
    ensures Consumes(rest, LineFrom(rest, maxLen, got).0)
    ensures rest != [] ==> |LineFrom(rest, maxLen, got).0| < |rest|
    decreases |rest|
  {
    var (found, n) := ReadSlice(rest);
    if found.BufferFull? && |got + rest[..n]| <= maxLen {
      LineConsumes(rest[n..], maxLen, got + rest[..n]);
    }
  }

  lemma BulkConsumes(text: Text, rest: seq<byte>)
    ensures Consumes(rest, ReadBulk(text, rest).0)
  {
    hide Atoi;
    LineConsumes(rest, MAX_HEADER_LEN, []);
  }

  lemma {:induction false} ArgsConsume(text: Text, rest: seq<byte>, n: nat)
    ensures Consumes(rest, ReadArgs(text, rest, n).0)
  {
    hide ReadBulk;
    if n > 0 {
      ArgsConsume(text, rest, n - 1);
      BulkConsumes(text, ReadArgs(text, rest, n - 1).0);
    }
  }

  /** Every read moves on through the stream, so the server's command loop ends with it. */
  lemma CommandConsumes(text: Text, rest: seq<byte>)
    ensures Consumes(rest, ReadCommand(text, rest).0)
    ensures rest != [] ==> |ReadCommand(text, rest).0| < |rest|
  {
    hide Atoi, ReadArgs, LineFrom;
    LineConsumes(rest, MAX_HEADER_LEN, []);
    LineConsumes(rest, MAX_INLINE_LEN, []);
    var (left, line) := ReadLine(rest, MAX_HEADER_LEN);
    if line.Ok? && line.value != [] {
      var n := Atoi(text.trim(line.value[1..]));
      if n.Some? && n.value > 0 {
        ArgsConsume(text, left, n.value);
      }
    }
  }

  // ---------------------------------------------------------------- limits

  lemma BulkWithinLimits(text: Text, rest: seq<byte>)
    ensures var arg := ReadBulk(text, rest).1; arg.Ok? ==> WithinLimits(arg.value)
  {
    hide Atoi, ReadLine;
    ReadLineIsFirstLine(rest, MAX_HEADER_LEN);
    var line := ReadLine(rest, MAX_HEADER_LEN).1;
    assert line.Ok? ==> |line.value| < MAX_HEADER_LEN;
  }

  lemma {:induction false} ArgsWithinLimits(text: Text, rest: seq<byte>, n: nat)
    ensures var args := ReadArgs(text, rest, n).1;
      args.Ok? ==> |args.value| == n && forall i | 0 <= i < n :: WithinLimits(args.value[i])
  {
    hide ReadBulk, WithinLimits;
    if n > 0 {
      ArgsWithinLimits(text, rest, n - 1);
      BulkWithinLimits(text, ReadArgs(text, rest, n - 1).0);
    }
  }

  /** No array command that is accepted, from whatever bytes, exceeds the limits. */
  lemma ArrayWithinLimits(text: Text, rest: seq<byte>)
    ensures var args := ReadArray(text, rest).1;
      args.Ok? ==> |args.value| <= MAX_ARRAY_LEN && forall i | 0 <= i < |args.value| :: WithinLimits(args.value[i])
  {
    hide ReadArgs, Atoi, ReadLine, WithinLimits;
    var (left, line) := ReadLine(rest, MAX_HEADER_LEN);
    if line.Ok? && line.value != [] {
      var n := Atoi(text.trim(line.value[1..]));
      if n.Some? && n.value > 0 {
        ArgsWithinLimits(text, left, n.value);
      }
    }
  }

  // ---------------------------------------------------------------- later bytes

  lemma {:induction false} LineIsFinal(rest: seq<byte>, maxLen: nat, got: seq<byte>, more: seq<byte>)
    requires LineFrom(rest, maxLen, got).1 != Err(EOF)
    ensures LineFrom(rest + more, maxLen, got) == (LineFrom(rest, maxLen, got).0 + more, LineFrom(rest, maxLen, got).1)
    decreases |rest|
  {
    var (found, n) := ReadSlice(rest);
    SliceIsFinal(rest, more);
    assert (rest + more)[..n] == rest[..n] && (rest + more)[n..] == rest[n..] + more;
    if found.BufferFull? && |got + rest[..n]| <= maxLen {
      LineIsFinal(rest[n..], maxLen, got + rest[..n], more);
    }
  }

  lemma SliceIsFinal(rest: seq<byte>, more: seq<byte>)
    requires !ReadSlice(rest).0.AtEnd?
    ensures ReadSlice(rest + more) == ReadSlice(rest)
  {
    var i := LineEnd(rest);
    if i < |rest| {
      LineEndIs(rest + more, i);
    }
  }

  lemma BulkIsFinal(text: Text, rest: seq<byte>, more: seq<byte>)
    requires ReadBulk(text, rest).1 != Err(EOF)
    ensures ReadBulk(text, rest + more) == (ReadBulk(text, rest).0 + more, ReadBulk(text, rest).1)
  {
    hide Atoi, LineFrom;
    LineIsFinal(rest, MAX_HEADER_LEN, [], more);
    var left := ReadLine(rest, MAX_HEADER_LEN).0;
    assert forall n | 0 <= n <= |left| :: (left + more)[..n] == left[..n] && (left + more)[n..] == left[n..] + more;
  }

  lemma {:induction false} ArgsAreFinal(text: Text, rest: seq<byte>, n: nat, more: seq<byte>)
    requires ReadArgs(text, rest, n).1 != Err(EOF)
    ensures ReadArgs(text, rest + more, n) == (ReadArgs(text, rest, n).0 + more, ReadArgs(text, rest, n).1)
  {
    hide ReadBulk;
    if n > 0 {
      ArgsAreFinal(text, rest, n - 1, more);
      var (left, args) := ReadArgs(text, rest, n - 1);
      if args.Ok? {
        BulkIsFinal(text, left, more);
      }
    }
  }

  /** Every answer other than "the stream has ended" is final: whatever arrives later, the command, or the error,
      and the place where the next command starts are the same. */
  lemma CommandIsFinal(text: Text, rest: seq<byte>, more: seq<byte>)
    requires ReadCommand(text, rest).1 != Err(EOF)
    ensures ReadCommand(text, rest + more) == (ReadCommand(text, rest).0 + more, ReadCommand(text, rest).1)
  {
    hide Atoi, LineFrom, ReadArgs;
    if rest[0] == STAR {
      LineIsFinal(rest, MAX_HEADER_LEN, [], more);
      var (left, line) := ReadLine(rest, MAX_HEADER_LEN);
      if line.Ok? && line.value != [] {
        var n := Atoi(text.trim(line.value[1..]));
        if line.value[0] == STAR && |line.value| >= 2 && n.Some? && 0 < n.value <= MAX_ARRAY_LEN {
          ArgsAreFinal(text, left, n.value, more);
        }
      }
    } else {
      LineIsFinal(rest, MAX_INLINE_LEN, [], more);
    }
  }

  /** The bytes themselves: '$', the length in decimal, CR LF, the argument, CR LF; "$-1" for none; '*' and the number
      of arguments before them all. */
  lemma BytesAre(b: seq<byte>, n: int)
    ensures WriteBulk(D.Some(b)) == [36] + Itoa(|b|) + [13, 10] + b + [13, 10]
    ensures WriteBulk(D.None) == [36, 45, 49, 13, 10]
    ensures WriteArrayHeader(n) == [42] + Itoa(n) + [13, 10]
  {
    assert Itoa(-1) == [45, 49];
  }

  /** Decimal digits, the most significant first. */
  lemma DigitsAre(n: nat)
    ensures n < 10 ==> Itoa(n) == [48 + n]
    ensures n >= 10 ==> Itoa(n) == Itoa(n / 10) + [48 + n % 10]
  {}
}
