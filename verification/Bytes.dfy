/** Bytes and the big-endian 32-bit lengths of the file formats. */
module Bytes {
  type byte = b: int | 0 <= b < 256

  const TWO_TO_32 := 0x1_0000_0000

  type uint32 = n: int | 0 <= n < TWO_TO_32

  /** binary.BigEndian.PutUint32. */
  function PutUint32(n: uint32): (r: seq<byte>)
    ensures |r| == 4 && Uint32(r) == n
  {
    var high, low := n / 0x1_0000, n % 0x1_0000;
    [high / 256, high % 256, low / 256, low % 256]
  }

  /** The most significant byte comes first. */
  lemma BigEndian(n: uint32)
    ensures var r := PutUint32(n);
            n == r[0] as int * 0x100_0000 + r[1] as int * 0x1_0000 + r[2] as int * 0x100 + r[3] as int
  {}

  /** binary.BigEndian.Uint32. */
  function Uint32(s: seq<byte>): uint32
    requires |s| == 4
  {
    (s[0] as int * 256 + s[1] as int) * 0x1_0000 + (s[2] as int * 256 + s[3] as int)
  }

  function Concat(parts: seq<seq<byte>>): seq<byte> {
    if parts == [] then [] else Concat(parts[..|parts| - 1]) + parts[|parts| - 1]
  }

  function TotalSize(parts: seq<seq<byte>>): nat {
    if parts == [] then 0 else TotalSize(parts[..|parts| - 1]) + |parts[|parts| - 1]|
  }

  lemma {:induction false} ConcatSize(parts: seq<seq<byte>>)
    ensures |Concat(parts)| == TotalSize(parts)
  {
    if parts != [] { ConcatSize(parts[..|parts| - 1]); }
  }
}
