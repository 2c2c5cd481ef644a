/** The connection's buffered reader and writer as objects (src/internal/server/redisserver/resp.go): the reader
    consumes `rest`, the writer appends to `out`. Each method is proved against its function in Resp. */
module RespReader {
  import opened Bytes
  import opened Resp
  import D = Domain

  class Reader {
    var rest: seq<byte>
    const text: Text

    constructor (text: Text, input: seq<byte>)
      ensures rest == input && this.text == text
    {
      rest, this.text := input, text;
    }

    method Slice() returns (found: Found, frag: seq<byte>)
      modifies this
      ensures (found, |frag|) == ReadSlice(old(rest)) && frag + rest == old(rest)
    {
      var (how, n) := ReadSlice(rest);
      found, frag, rest := how, rest[..n], rest[n..];
    }

    method ReadLine(maxLen: nat) returns (line: Result<seq<byte>>)
      modifies this
      ensures (rest, line) == Resp.ReadLine(old(rest), maxLen)
    {
      var buf: seq<byte> := [];
      while true
        invariant LineFrom(rest, maxLen, buf) == Resp.ReadLine(old(rest), maxLen)
        decreases |rest|
      {
        ghost var before := rest;
        var found, frag := Slice();
        assert before[..|frag|] == frag && before[|frag|..] == rest;
        if found == Line {
          buf := buf + frag;
          break;
        }
        if found == BufferFull {
          buf := buf + frag;
          if |buf| > maxLen { return Err(LimitExceeded); }
        } else {
          return Err(EOF);
        }
      }
      if |buf| > maxLen { return Err(LimitExceeded); }
      if !HasSuffix(buf, CRLF) { return Err(Protocol); }
      return Ok(buf[..|buf| - 2]);
    }

    method ReadBulkString() returns (arg: Result<Arg>)
      modifies this
      ensures (rest, arg) == ReadBulk(text, old(rest))
    {
      hide LineFrom, Atoi;
      var header := ReadLine(MAX_HEADER_LEN);
      if header.Err? { return Err(header.error); }
      var line := header.value;
      if |line| < 2 || line[0] != DOLLAR {
        if |line| >= 2 && line[0] == PLUS { return Ok(D.Some(line[1..])); }
        return Err(Protocol);
      }
      var n := Atoi(text.trim(line[1..]));
      if n == D.None { return Err(Protocol); }
      if n.value == -1 { return Ok(D.None); }
      if n.value < 0 { return Err(Protocol); }
      if n.value > MAX_BULK_LEN { return Err(LimitExceeded); }
      if |rest| < n.value + 2 {
        rest := [];
        return Err(EOF);
      }
      var buf := rest[..n.value + 2];
      ghost var body := rest;
      rest := rest[n.value + 2..];
      if !HasSuffix(buf, CRLF) { return Err(Protocol); }
      assert buf[..|buf| - 2] == body[..n.value];
      return Ok(D.Some(buf[..|buf| - 2]));
    }

    method ReadArrayCommand() returns (command: Result<Command>)
      modifies this
      ensures (rest, command) == ReadArray(text, old(rest))
    {
      hide LineFrom, Atoi, ReadBulk;
      var header := ReadLine(MAX_HEADER_LEN);
      if header.Err? { return Err(header.error); }
      var line := header.value;
      if |line| < 2 || line[0] != STAR { return Err(Protocol); }
      var n := Atoi(text.trim(line[1..]));
      if n == D.None { return Err(Protocol); }
      if n.value <= 0 { return Ok([]); }
      if n.value > MAX_ARRAY_LEN { return Err(LimitExceeded); }
      var out: Command := [];
      ghost var body := rest;
      for i := 0 to n.value
        invariant ReadArgs(text, body, i) == (rest, Ok(out))
      {
        var arg := ReadBulkString();
        if arg.Err? {
          ArgsStop(text, body, i + 1, n.value);
          return Err(arg.error);
        }
        out := out + [arg.value];
      }
      return Ok(out);
    }

    method ReadCommand() returns (command: Result<Command>)
      modifies this
      ensures (rest, command) == Resp.ReadCommand(text, old(rest))
    {
      hide LineFrom, ReadArray;
      if rest == [] { return Err(EOF); }
      if rest[0] == STAR {
        command := ReadArrayCommand();
        return;
      }
      var header := ReadLine(MAX_INLINE_LEN);
      if header.Err? { return Err(header.error); }
      var line := text.trim(header.value);
      if line == [] { return Ok([]); }
      var parts := text.fields(line);
      var out: Command := [];
      for i := 0 to |parts|
        invariant out == seq(i, k requires 0 <= k < i => D.Some(parts[k]))
      {
        out := out + [D.Some(parts[i])];
      }
      return Ok(out);
    }
  }

  /** The first error ends an array. */
  lemma {:induction false} ArgsStop(text: Text, rest: seq<byte>, i: nat, n: nat)
    requires i <= n && ReadArgs(text, rest, i).1.Err?
    ensures ReadArgs(text, rest, n) == ReadArgs(text, rest, i)
  {
    if i < n {
      ArgsStop(text, rest, i, n - 1);
    }
  }

  class Writer {
    var out: seq<byte>

    constructor ()
      ensures out == []
    {
      out := [];
    }

    method WriteBulk(arg: Arg)
      modifies this
      ensures out == old(out) + Resp.WriteBulk(arg)
    {
      if arg == D.None {
        out := out + [DOLLAR, MINUS, ZERO + 1, CR, LF];
        assert Resp.WriteBulk(arg) == [DOLLAR, MINUS, ZERO + 1, CR, LF];
        return;
      }
      out := out + ([DOLLAR] + Itoa(|arg.value|) + CRLF);
      out := out + arg.value;
      out := out + CRLF;
    }

    method WriteArrayHeader(n: int)
      modifies this
      ensures out == old(out) + Resp.WriteArrayHeader(n)
    {
      out := out + ([STAR] + Itoa(n) + CRLF);
    }
  }
}
