/**
  Raw bytes and the fixed-width unsigned integers the table layer stores in
  kernel maps. Multi-byte integers are laid out little-endian, as the host
  (x86) writes a `uint32_t` into a buffer.
 */
module Bytes {

  type byte = x: int | 0 <= x < 256

  /** An unsigned 32-bit integer (`uint32_t`). */
  type u32 = x: int | 0 <= x < 0x1_0000_0000

  /** Conversion of a `size_t` into a `uint32_t` field: the high bits are dropped. */
  function Trunc32(n: nat): (r: u32)
    ensures n < 0x1_0000_0000 ==> r == n
    ensures r < 0x1_0000_0000 && (n - r) % 0x1_0000_0000 == 0
  {
    n % 0x1_0000_0000
  }

  /** A buffer of `n` copies of `b`, as `std::string(n, b)` builds it. */
  function Fill(n: nat, b: byte): (s: seq<byte>)
    ensures |s| == n
    ensures forall i | 0 <= i < n :: s[i] == b
  {
    seq(n, _ => b)
  }

  function Zeros(n: nat): (s: seq<byte>)
    ensures |s| == n
    ensures forall i | 0 <= i < n :: s[i] == 0
  {
    Fill(n, 0)
  }

  function EncodeU32(x: u32): (s: seq<byte>)
    ensures |s| == 4
  {
    [x % 0x100, (x / 0x100) % 0x100, (x / 0x1_0000) % 0x100, x / 0x100_0000]
  }

  function DecodeU32(s: seq<byte>): (x: u32)
    requires |s| == 4
  {
    s[0] as int + 0x100 * (s[1] as int) + 0x1_0000 * (s[2] as int) + 0x100_0000 * (s[3] as int)
  }

  lemma DecodeEncodeU32(x: u32)
    ensures DecodeU32(EncodeU32(x)) == x
  {
    var q1 := x / 0x100;
    var q2 := q1 / 0x100;
    var q3 := q2 / 0x100;
    assert x == x % 0x100 + 0x100 * q1;
    assert q1 == q1 % 0x100 + 0x100 * q2;
    assert q2 == q2 % 0x100 + 0x100 * q3;
    assert q2 == x / 0x1_0000;
    assert q3 == x / 0x100_0000;
  }

  /** Dividing `lo + 0x100 * hi` by 0x100 recovers both parts when `lo` is a byte. */
  lemma SplitByte(lo: int, hi: int)
    requires 0 <= lo < 0x100
    ensures (lo + 0x100 * hi) % 0x100 == lo && (lo + 0x100 * hi) / 0x100 == hi
  {
  }

  lemma EncodeDecodeU32(s: seq<byte>)
    requires |s| == 4
    ensures EncodeU32(DecodeU32(s)) == s
  {
    var x := DecodeU32(s);
    var hi2 := s[2] as int + 0x100 * (s[3] as int);
    var hi1 := s[1] as int + 0x100 * hi2;
    assert x == s[0] as int + 0x100 * hi1;
    SplitByte(s[0], hi1);
    SplitByte(s[1], hi2);
    SplitByte(s[2], s[3]);
    assert x / 0x1_0000 == hi2;
    assert x / 0x100_0000 == s[3];
  }
}
