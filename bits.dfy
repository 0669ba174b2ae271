/**
 * Machine-level number helpers shared by the encoder and the decoder: the
 * 8-bit and 32-bit unsigned ranges, the C# narrowing casts `(byte)` and
 * `(sbyte)`, C#'s truncating `%`, the bitwise `|` used to assemble chunk
 * bytes, and the big- and little-endian 32-bit layouts of the header.
 */
module Bits {

  /** A C# `byte`. */
  type byte = x: int | 0 <= x < 256

  /** A C# `uint`. */
  type uint32 = x: int | 0 <= x < 0x1_0000_0000

  const TwoTo32: int := 0x1_0000_0000

  /** One past the largest C# `int`. */
  const IntLimit: int := 0x8000_0000

  function Pow2(k: nat): (p: nat)
    ensures p >= 1
  {
    if k == 0 then 1 else 2 * Pow2(k - 1)
  }

  /**
   * The unchecked C# cast `(byte)x`: keeps the low eight bits of the two's
   * complement representation.
   */
  function ToByte(x: int): (r: byte)
    ensures 0 <= x < 256 ==> r == x
  {
    x % 256
  }

  /** `(byte)x` differs from `x` by a multiple of 256. */
  lemma ByteCongruent(x: int)
    ensures (x - ToByte(x)) % 256 == 0
  {
  }

  /**
   * The unchecked C# cast `(sbyte)x`: the low eight bits read as a signed
   * two's complement number.
   */
  function ToSByte(x: int): (r: int)
    ensures -128 <= r <= 127
  {
    var m := x % 256;
    if m >= 128 then m - 256 else m
  }

  /** `(sbyte)x` differs from `x` by a multiple of 256. */
  lemma SByteCongruent(x: int)
    ensures (x - ToSByte(x)) % 256 == 0
  {
  }

  /**
   * C#'s `x % 256` on `int`, which truncates toward zero: the remainder takes
   * the sign of `x`.
   */
  function CRem256(x: int): (r: int)
    ensures x >= 0 ==> 0 <= r < 256
    ensures x < 0 ==> -256 < r <= 0
    ensures (x - r) % 256 == 0
  {
    if x >= 0 then x % 256 else -((-x) % 256)
  }

  /** `(byte)(x % 256)` with C#'s `%` is the same as reducing `x` modulo 256. */
  lemma CastOfRemainder(x: int)
    ensures ToByte(CRem256(x)) == x % 256
  {
  }

  /** Bitwise `|` on non-negative integers, one bit at a time. */
  function Or(x: nat, y: nat): (r: nat)
    ensures x <= r && y <= r && r <= x + y
    decreases x + y
  {
    if x == 0 then y
    else if y == 0 then x
    else 2 * Or(x / 2, y / 2) + (if x % 2 == 1 || y % 2 == 1 then 1 else 0)
  }

  /**
   * `|` of a value shifted left by `k` bits and a value below `2^k` is
   * their sum: the two occupy disjoint bits.
   */
  lemma {:induction false} OrDisjoint(a: nat, y: nat, k: nat)
    requires y < Pow2(k)
    ensures Or(a * Pow2(k), y) == a * Pow2(k) + y
  {
    if k == 0 {
      assert y == 0;
    } else {
      var m := a * Pow2(k - 1);
      assert a * Pow2(k) == 2 * m;
      if m != 0 && y != 0 {
        OrDisjoint(a, y / 2, k - 1);
        assert (2 * m) / 2 == m && (2 * m) % 2 == 0;
      }
    }
  }

  /** `OrDisjoint` with `2^k` given as `p`. */
  lemma OrBelow(m: nat, a: nat, y: nat, k: nat, p: nat)
    requires p == Pow2(k) && m == a * p && y < p
    ensures Or(m, y) == m + y
  {
    OrDisjoint(a, y, k);
  }

  /**
   * The four bytes `(byte)(w >> 24), (byte)(w >> 16), (byte)(w >> 8),
   * (byte)w`, most significant first.
   */
  function BigEndianBytes(w: uint32): (s: seq<byte>)
    ensures |s| == 4
    ensures s[0] as int * 0x100_0000 + s[1] as int * 0x1_0000 + s[2] as int * 0x100 + s[3] as int == w
  {
    Shifts(w);
    [ToByte(w / 0x100_0000), ToByte(w / 0x1_0000), ToByte(w / 0x100), ToByte(w)]
  }

  /**
   * `(uint)(s[0] << 24 | s[1] << 16 | s[2] << 8 | s[3])`. The shifted bytes
   * occupy disjoint bits, and the `(uint)` cast undoes the sign that
   * `s[0] << 24` takes in C#'s 32-bit `int` when `s[0] >= 128`.
   */
  function BigEndianValue(s: seq<byte>): (w: uint32)
    requires |s| == 4
    ensures w == s[0] as int * 0x100_0000 + s[1] as int * 0x1_0000 + s[2] as int * 0x100 + s[3] as int
  {
    var b0, b1, b2, b3 := s[0] as int, s[1] as int, s[2] as int, s[3] as int;
    Pow2Values();
    var v0 := b0 * 0x100_0000;
    OrBelow(v0, b0, b1 * 0x1_0000, 24, 0x100_0000);
    var v1 := Or(v0, b1 * 0x1_0000);
    OrBelow(v1, b0 * 0x100 + b1, b2 * 0x100, 16, 0x1_0000);
    var v2 := Or(v1, b2 * 0x100);
    OrBelow(v2, b0 * 0x1_0000 + b1 * 0x100 + b2, b3, 8, 0x100);
    Or(v2, b3)
  }

  lemma Pow2Values()
    ensures Pow2(2) == 4 && Pow2(4) == 16 && Pow2(6) == 64
    ensures Pow2(8) == 0x100 && Pow2(16) == 0x1_0000 && Pow2(24) == 0x100_0000
  {
    assert Pow2(4) == 16 by { assert Pow2(2) == 4; }
    assert Pow2(8) == 256 by { assert Pow2(6) == 64; }
    assert Pow2(16) == 0x1_0000 by { assert Pow2(12) == 0x1000; }
    assert Pow2(24) == 0x100_0000 by { assert Pow2(20) == 0x10_0000; }
  }

  /** `BinaryReader.ReadUInt32`: four bytes, least significant first. */
  function LittleEndianValue(s: seq<byte>): (w: uint32)
    requires |s| == 4
    ensures w % 0x100 == s[0] as int
    ensures w / 0x100_0000 == s[3] as int
  {
    s[0] as int + 0x100 * (s[1] as int + 0x100 * (s[2] as int + 0x100 * s[3] as int))
  }

  /** Reading back the big-endian bytes of a 32-bit value gives the value. */
  lemma BigEndianRoundTrip(w: uint32)
    ensures BigEndianValue(BigEndianBytes(w)) == w
  {
    var q1, r1 := w / 0x100, w % 0x100;
    var q2, r2 := q1 / 0x100, q1 % 0x100;
    var q3, r3 := q2 / 0x100, q2 % 0x100;
    Shifts(w);
    assert BigEndianBytes(w) == [q3, r3, r2, r1];
  }

  /** A little-endian 32-bit value determines its four bytes. */
  lemma LittleEndianInjective(s: seq<byte>, t: seq<byte>)
    requires |s| == 4 && |t| == 4
    ensures LittleEndianValue(s) == LittleEndianValue(t) <==> s == t
  {
    if LittleEndianValue(s) == LittleEndianValue(t) {
      var x := LittleEndianValue(s);
      var s2, t2 := s[2] as int + 0x100 * s[3] as int, t[2] as int + 0x100 * t[3] as int;
      var s1, t1 := s[1] as int + 0x100 * s2, t[1] as int + 0x100 * t2;
      Split(x, s1, s[0]);
      Split(x, t1, t[0]);
      Split(s1, s2, s[1]);
      Split(t1, t2, t[1]);
      Split(s2, s[3], s[2]);
      Split(t2, t[3], t[2]);
      assert s[0] == t[0] && s[1] == t[1] && s[2] == t[2] && s[3] == t[3];
    }
  }

  /** Division by 256 with a given quotient and remainder. */
  lemma Split(x: int, q: int, r: int)
    requires x == q * 0x100 + r && 0 <= r < 0x100
    ensures x / 0x100 == q && x % 0x100 == r
  {
  }

  /** Shifting right by 16 or 24 bits is shifting right by 8 two or three times. */
  lemma Shifts(x: int)
    requires x >= 0
    ensures x / 0x1_0000 == (x / 0x100) / 0x100
    ensures x / 0x100_0000 == ((x / 0x100) / 0x100) / 0x100
  {
    var q1, r1 := x / 0x100, x % 0x100;
    var q2, r2 := q1 / 0x100, q1 % 0x100;
    var q3, r3 := q2 / 0x100, q2 % 0x100;
    assert x == q2 * 0x1_0000 + (r2 * 0x100 + r1);
    Split16(x, q2, r2 * 0x100 + r1);
    assert x == q3 * 0x100_0000 + (r3 * 0x1_0000 + r2 * 0x100 + r1);
    Split24(x, q3, r3 * 0x1_0000 + r2 * 0x100 + r1);
  }

  lemma Split16(x: int, q: int, r: int)
    requires x == q * 0x1_0000 + r && 0 <= r < 0x1_0000
    ensures x / 0x1_0000 == q
  {
  }

  lemma Split24(x: int, q: int, r: int)
    requires x == q * 0x100_0000 + r && 0 <= r < 0x100_0000
    ensures x / 0x100_0000 == q
  {
  }

  /** Concatenation is associative (stated once so that callers with large
   *  contexts need not rediscover it). */
  lemma AppendAssoc<T>(a: seq<T>, b: seq<T>, c: seq<T>)
    ensures (a + b) + c == a + (b + c)
  {
  }
}
