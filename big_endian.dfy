/**
  Fixed-width integers of the Go program and their big-endian ("network
  byte order") encoding, as produced by `binary.Write(w, binary.BigEndian, v)`
  and as used by the TLS presentation language (section 4.4 of RFC 5246).
 */
module BigEndian {

  type byte = x: int | 0 <= x < 0x100
  type uint8 = byte
  type uint16 = x: int | 0 <= x < 0x1_0000
  type int64 = x: int | -0x8000_0000_0000_0000 <= x < 0x8000_0000_0000_0000

  const TWO_TO_THE_64: nat := 0x1_0000_0000_0000_0000

  /** 256 raised to the power k: the number of values `k` bytes can hold. */
  function Pow256(k: nat): (p: nat)
    ensures p > 0
  {
    if k == 0 then 1 else 256 * Pow256(k - 1)
  }

  /** The `width` low-order bytes of `n`, most significant first. */
  function ToBytes(n: nat, width: nat): (r: seq<byte>)
    ensures |r| == width
  {
    if width == 0 then [] else ToBytes(n / 256, width - 1) + [n % 256]
  }

  /** The unsigned number whose big-endian encoding is `s`. */
  function FromBytes(s: seq<byte>): (n: nat)
    ensures n < Pow256(|s|)
  {
    if s == [] then 0 else FromBytes(s[..|s| - 1]) * 256 + s[|s| - 1]
  }

  /** Decoding an encoding gives the number back whenever it fits in the width. */
  lemma {:induction false} FromToBytes(n: nat, width: nat)
    requires n < Pow256(width)
    ensures FromBytes(ToBytes(n, width)) == n
  {
    if width > 0 {
      var s := ToBytes(n, width);
      assert s[..|s| - 1] == ToBytes(n / 256, width - 1);
      FromToBytes(n / 256, width - 1);
    }
  }

  /** Encoding a decoded byte string at its own width gives the bytes back. */
  lemma {:induction false} ToFromBytes(s: seq<byte>)
    ensures ToBytes(FromBytes(s), |s|) == s
  {
    if s != [] {
      var init, last := s[..|s| - 1], s[|s| - 1];
      var n := FromBytes(s);
      assert n == FromBytes(init) * 256 + last;
      assert n / 256 == FromBytes(init) && n % 256 == last;
      ToFromBytes(init);
      assert s == init + [last];
    }
  }

  lemma Pow256Of8()
    ensures Pow256(8) == TWO_TO_THE_64
  {
  }

  /** Two's-complement reading of an int64 as an unsigned 64-bit number (Go's `uint64(t)`). */
  function Unsigned64(t: int64): (u: nat)
    ensures u < TWO_TO_THE_64
    ensures u % TWO_TO_THE_64 == t % TWO_TO_THE_64
  {
    if t < 0 then t + TWO_TO_THE_64 else t
  }

  /** Two's-complement reading of an unsigned 64-bit number as an int64 (Go's `int64(u)`). */
  function Signed64(u: nat): (t: int64)
    requires u < TWO_TO_THE_64
    ensures t % TWO_TO_THE_64 == u % TWO_TO_THE_64
  {
    if u < TWO_TO_THE_64 / 2 then u else u - TWO_TO_THE_64
  }

  /** The eight bytes `binary.Write` emits for an int64 in big-endian order. */
  function Int64Bytes(t: int64): (r: seq<byte>)
    ensures |r| == 8
  {
    ToBytes(Unsigned64(t), 8)
  }

  /** The int64 that `binary.Read` would produce from eight big-endian bytes. */
  function ParseInt64(s: seq<byte>): int64
    requires |s| == 8
  {
    Pow256Of8();
    Signed64(FromBytes(s))
  }

  /** Writing an int64 and reading it back yields the original value, negative ones included. */
  lemma Int64RoundTrip(t: int64)
    ensures ParseInt64(Int64Bytes(t)) == t
  {
    Pow256Of8();
    FromToBytes(Unsigned64(t), 8);
  }

  /** Every eight-byte string is the encoding of exactly the int64 it parses to. */
  lemma Int64BytesOfParse(s: seq<byte>)
    requires |s| == 8
    ensures Int64Bytes(ParseInt64(s)) == s
  {
    Pow256Of8();
    ToFromBytes(s);
  }

  /** The two bytes `binary.Write` emits for a uint16. */
  function Uint16Bytes(n: uint16): (r: seq<byte>)
    ensures |r| == 2
  {
    ToBytes(n, 2)
  }

  lemma Uint16RoundTrip(n: uint16)
    ensures FromBytes(Uint16Bytes(n)) == n
  {
    FromToBytes(n, 2);
  }

  lemma Uint16BytesOfParse(s: seq<byte>)
    requires |s| == 2
    ensures FromBytes(s) < 0x1_0000 && Uint16Bytes(FromBytes(s)) == s
  {
    ToFromBytes(s);
  }

  /** Byte-order checks on concrete values. */
  lemma Int64BytesOfOne()
    ensures Int64Bytes(1) == [0, 0, 0, 0, 0, 0, 0, 1]
  {
  }

  lemma Int64BytesOfTrillion()
    ensures Int64Bytes(1_000_000_000_000) == [0x00, 0x00, 0x00, 0xE8, 0xD4, 0xA5, 0x10, 0x00]
  {
  }

  lemma Int64BytesOfMinusOne()
    ensures Int64Bytes(-1) == [0xFF, 0xFF, 0xFF, 0xFF, 0xFF, 0xFF, 0xFF, 0xFF]
  {
  }

  lemma Uint16BytesExamples()
    ensures Uint16Bytes(0) == [0x00, 0x00]
    ensures Uint16Bytes(65535) == [0xFF, 0xFF]
    ensures Uint16Bytes(0x1234) == [0x12, 0x34]
  {
  }
}
