/**
 * Bytes, big-endian integers, and Python's bitwise operators on its unbounded
 * integers. Python treats an int as an infinite two's-complement bit string, so
 *   x & 0xFFFFFFFF   is  x % 2^32   (Euclidean remainder, also for negative x),
 *   x & 0x80000000   is non-zero exactly when x % 2^32 >= 2^31,
 *   ~x               is  -x - 1,
 *   x >> k           is  x / 2^k    (Dafny's division by a positive divisor floors),
 *   x << k           is  x * 2^k,
 * and x | y is BitOr below.
 */
module Bytes {
  import opened Numerals

  type byte = x: int | 0 <= x < 256

  const Two31: int := 0x8000_0000
  const Two32: int := 0x1_0000_0000

  /** x & 0xFFFFFFFF */
  function Mask32(x: int): (r: int)
    ensures 0 <= r < Two32
    ensures (x - r) % Two32 == 0
  {
    x % Two32
  }

  /** x & 0x80000000 != 0: bit 31 of the two's-complement form of x. */
  predicate Bit31Set(x: int) {
    Mask32(x) >= Two31
  }

  // ------------------------------------------------------- big-endian

  /** The unsigned value of a byte string, most significant byte first. */
  function BigEndian(bs: seq<byte>): (n: nat)
    ensures n < Pow(256, |bs|)
  {
    if bs == [] then 0 else BigEndian(bs[..|bs| - 1]) * 256 + bs[|bs| - 1]
  }

  /** The `width` bytes of n, most significant first (what struct.pack writes for '!'). */
  function BigEndianBytes(n: nat, width: nat): (bs: seq<byte>)
    requires n < Pow(256, width)
    ensures |bs| == width && BigEndian(bs) == n
  {
    if width == 0 then []
    else
      var p := BigEndianBytes(n / 256, width - 1);
      assert (p + [n % 256])[..width - 1] == p;
      p + [n % 256]
  }

  /** Writing the value of a byte string back at its own width gives the same bytes. */
  lemma {:induction false} BigEndianBytesOfValue(bs: seq<byte>)
    ensures BigEndianBytes(BigEndian(bs), |bs|) == bs
  {
    if bs != [] {
      var n := |bs| - 1;
      var p := bs[..n];
      BigEndianBytesOfValue(p);
      assert BigEndian(bs) / 256 == BigEndian(p);
      assert bs == p + [bs[n]];
    }
  }

  /** Two bytes, written out. */
  lemma BigEndianTwo(bs: seq<byte>)
    requires |bs| == 2
    ensures BigEndian(bs) == bs[0] as int * 256 + bs[1] as int
  {
    assert bs[..1][..0] == [];
  }

  /** Four bytes, written out. */
  lemma BigEndianFour(bs: seq<byte>)
    requires |bs| == 4
    ensures BigEndian(bs) == bs[0] as int * 0x100_0000 + bs[1] as int * 0x1_0000 + bs[2] as int * 0x100 + bs[3] as int
  {
    assert bs[..3][..2] == bs[..2] && bs[..2][..1] == bs[..1] && bs[..1][..0] == [];
    assert BigEndian(bs[..1]) == bs[0];
    assert BigEndian(bs[..2]) == BigEndian(bs[..1]) * 256 + bs[1];
    assert BigEndian(bs[..3]) == BigEndian(bs[..2]) * 256 + bs[2];
    assert BigEndian(bs) == BigEndian(bs[..3]) * 256 + bs[3];
  }

  /** The signed value of four bytes, big-endian two's complement (struct.unpack('>i')). */
  function Int32BigEndian(bs: seq<byte>): (v: int)
    requires |bs| == 4
    ensures -Two31 <= v < Two31
    ensures (BigEndian(bs) - v) % Two32 == 0
    ensures v < 0 <==> bs[0] >= 128
  {
    assert Pow(256, 4) == Two32;
    BigEndianFour(bs);
    var u := BigEndian(bs);
    if u < Two31 then u else u - Two32
  }

  /** bytes.hex(): two lower-case hex digits per byte. */
  function Hex(bs: seq<byte>): (r: string)
    ensures |r| == 2 * |bs| && IsLowerHexString(r)
    ensures HexValue(r) == BigEndian(bs)
  {
    if bs == [] then ""
    else
      var p := Hex(bs[..|bs| - 1]);
      var b := bs[|bs| - 1];
      var hi, lo := LowerHexDigit(b / 16), LowerHexDigit(b % 16);
      HexValueSnoc(p, hi);
      HexValueSnoc(p + [hi], lo);
      assert p + [hi, lo] == (p + [hi]) + [lo];
      p + [hi, lo]
  }

  /** bytes.hex() of two bytes, digit by digit. */
  lemma HexTwo(a: byte, b: byte)
    ensures Hex([a, b]) == [LowerHexDigit(a / 16), LowerHexDigit(a % 16), LowerHexDigit(b / 16), LowerHexDigit(b % 16)]
  {
    assert [a, b][..1] == [a];
    assert [a][..0] == [];
  }

  // ------------------------------------------------------------ bit-or

  /** A measure that halving strictly decreases, except at the fixed points 0 and -1. */
  function BitSize(x: int): nat {
    if x == 0 || x == -1 then 0 else if x < 0 then -x else x
  }

  /**
   * Python's x | y on two's-complement integers of any sign, one bit at a
   * time: the result is negative (has its infinitely many high bits set)
   * exactly when an operand is.
   */
  function BitOr(x: int, y: int): (r: int)
    ensures r < 0 <==> x < 0 || y < 0
    decreases BitSize(x) + BitSize(y)
  {
    if (x == 0 || x == -1) && (y == 0 || y == -1) then
      (if x == -1 || y == -1 then -1 else 0)
    else
      2 * BitOr(x / 2, y / 2) + (if x % 2 == 1 || y % 2 == 1 then 1 else 0)
  }

  /** x | 0 == x. */
  lemma {:induction false} BitOrZero(x: int)
    ensures BitOr(x, 0) == x
    decreases BitSize(x)
  {
    if x != 0 && x != -1 {
      BitOrZero(x / 2);
    }
  }

  /**
   * Or-ing a non-negative y below 2^k into a multiple of 2^k (whose low k bits
   * are all zero) is addition.
   */
  lemma {:induction false} BitOrDisjoint(a: int, y: int, k: nat)
    requires 0 <= y < Pow(2, k)
    ensures BitOr(a * Pow(2, k), y) == a * Pow(2, k) + y
  {
    if k == 0 {
      assert a * Pow(2, k) == a;
      BitOrZero(a);
    } else {
      var p := Pow(2, k - 1);
      var m := a * p;
      var x := a * Pow(2, k);
      assert x == 2 * m by {
        assert Pow(2, k) == 2 * p;
      }
      assert y / 2 < p;
      BitOrDisjoint(a, y / 2, k - 1);
      assert BitOr(m, y / 2) == m + y / 2;
      if x == 0 && y == 0 {
      } else {
        assert x / 2 == m && x % 2 == 0;
        assert BitOr(x, y) == 2 * BitOr(m, y / 2) + (if y % 2 == 1 then 1 else 0);
      }
    }
  }
}
