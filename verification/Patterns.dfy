/** The 8-bit patterns of the numbers below 256. */
module Patterns {

  lemma NumberOfPattern(v: bv8)
    ensures 0 <= v as int < 256 && (v as int) as bv8 == v
  {}

  // Two numbers with one pattern agree bit by bit.

  lemma Bit1(a: int, b: int)
    requires 0 <= a < 256 && 0 <= b < 256 && a as bv8 == b as bv8
    ensures a % 2 == b % 2
  {
    BitOf1(a);
    BitOf1(b);
  }

  lemma BitOf1(a: int)
    requires 0 <= a < 256
    ensures (a as bv8) & 1 != 0 <==> a % 2 == 1
  {}

  lemma Bit2(a: int, b: int)
    requires 0 <= a < 256 && 0 <= b < 256 && a as bv8 == b as bv8
    ensures a / 2 % 2 == b / 2 % 2
  {
    BitOf2(a);
    BitOf2(b);
  }

  lemma BitOf2(a: int)
    requires 0 <= a < 256
    ensures (a as bv8) & 2 != 0 <==> a / 2 % 2 == 1
  {}

  lemma Bit4(a: int, b: int)
    requires 0 <= a < 256 && 0 <= b < 256 && a as bv8 == b as bv8
    ensures a / 4 % 2 == b / 4 % 2
  {
    BitOf4(a);
    BitOf4(b);
  }

  lemma BitOf4(a: int)
    requires 0 <= a < 256
    ensures (a as bv8) & 4 != 0 <==> a / 4 % 2 == 1
  {}

  lemma Bit8(a: int, b: int)
    requires 0 <= a < 256 && 0 <= b < 256 && a as bv8 == b as bv8
    ensures a / 8 % 2 == b / 8 % 2
  {
    BitOf8(a);
    BitOf8(b);
  }

  lemma BitOf8(a: int)
    requires 0 <= a < 256
    ensures (a as bv8) & 8 != 0 <==> a / 8 % 2 == 1
  {}

  lemma Bit16(a: int, b: int)
    requires 0 <= a < 256 && 0 <= b < 256 && a as bv8 == b as bv8
    ensures a / 16 % 2 == b / 16 % 2
  {
    BitOf16(a);
    BitOf16(b);
  }

  lemma BitOf16(a: int)
    requires 0 <= a < 256
    ensures (a as bv8) & 16 != 0 <==> a / 16 % 2 == 1
  {}

  lemma Bit32(a: int, b: int)
    requires 0 <= a < 256 && 0 <= b < 256 && a as bv8 == b as bv8
    ensures a / 32 % 2 == b / 32 % 2
  {
    BitOf32(a);
    BitOf32(b);
  }

  lemma BitOf32(a: int)
    requires 0 <= a < 256
    ensures (a as bv8) & 32 != 0 <==> a / 32 % 2 == 1
  {}

  lemma Bit64(a: int, b: int)
    requires 0 <= a < 256 && 0 <= b < 256 && a as bv8 == b as bv8
    ensures a / 64 % 2 == b / 64 % 2
  {
    BitOf64(a);
    BitOf64(b);
  }

  lemma BitOf64(a: int)
    requires 0 <= a < 256
    ensures (a as bv8) & 64 != 0 <==> a / 64 % 2 == 1
  {}

  lemma Bit128(a: int, b: int)
    requires 0 <= a < 256 && 0 <= b < 256 && a as bv8 == b as bv8
    ensures a / 128 % 2 == b / 128 % 2
  {
    BitOf128(a);
    BitOf128(b);
  }

  lemma BitOf128(a: int)
    requires 0 <= a < 256
    ensures (a as bv8) & 128 != 0 <==> a / 128 % 2 == 1
  {}

  lemma SameHalves(a: int, b: int, c: int, d: int)
    requires c == a / 2 && d == b / 2 && c == d && a % 2 == b % 2
    ensures a == b
  {}

  /** A number is known by its pattern. */
  lemma PatternInjective(a: int, b: int)
    requires 0 <= a < 256 && 0 <= b < 256 && a as bv8 == b as bv8
    ensures a == b
  {
    Bit1(a, b);
    UpperBits2(a, b);
    SameHalves(a, b, a / 2, b / 2);
  }

  lemma UpperBits2(a: int, b: int)
    requires 0 <= a < 256 && 0 <= b < 256 && a as bv8 == b as bv8
    ensures a / 2 == b / 2
  {
    UpperBits4(a, b);
    Bit2(a, b);
    Half2(a);
    Half2(b);
    SameHalves(a / 2, b / 2, a / 4, b / 4);
  }

  lemma Half2(a: int)
    requires 0 <= a < 256
    ensures a / 4 == a / 2 / 2
  {}

  lemma UpperBits4(a: int, b: int)
    requires 0 <= a < 256 && 0 <= b < 256 && a as bv8 == b as bv8
    ensures a / 4 == b / 4
  {
    UpperBits8(a, b);
    Bit4(a, b);
    Half4(a);
    Half4(b);
    SameHalves(a / 4, b / 4, a / 8, b / 8);
  }

  lemma Half4(a: int)
    requires 0 <= a < 256
    ensures a / 8 == a / 4 / 2
  {}

  lemma UpperBits8(a: int, b: int)
    requires 0 <= a < 256 && 0 <= b < 256 && a as bv8 == b as bv8
    ensures a / 8 == b / 8
  {
    UpperBits16(a, b);
    Bit8(a, b);
    Half8(a);
    Half8(b);
    SameHalves(a / 8, b / 8, a / 16, b / 16);
  }

  lemma Half8(a: int)
    requires 0 <= a < 256
    ensures a / 16 == a / 8 / 2
  {}

  lemma UpperBits16(a: int, b: int)
    requires 0 <= a < 256 && 0 <= b < 256 && a as bv8 == b as bv8
    ensures a / 16 == b / 16
  {
    UpperBits32(a, b);
    Bit16(a, b);
    Half16(a);
    Half16(b);
    SameHalves(a / 16, b / 16, a / 32, b / 32);
  }

  lemma Half16(a: int)
    requires 0 <= a < 256
    ensures a / 32 == a / 16 / 2
  {}

  lemma UpperBits32(a: int, b: int)
    requires 0 <= a < 256 && 0 <= b < 256 && a as bv8 == b as bv8
    ensures a / 32 == b / 32
  {
    UpperBits64(a, b);
    Bit32(a, b);
    Half32(a);
    Half32(b);
    SameHalves(a / 32, b / 32, a / 64, b / 64);
  }

  lemma Half32(a: int)
    requires 0 <= a < 256
    ensures a / 64 == a / 32 / 2
  {}

  lemma UpperBits64(a: int, b: int)
    requires 0 <= a < 256 && 0 <= b < 256 && a as bv8 == b as bv8
    ensures a / 64 == b / 64
  {
    UpperBits128(a, b);
    Bit64(a, b);
    Half64(a);
    Half64(b);
    SameHalves(a / 64, b / 64, a / 128, b / 128);
  }

  lemma Half64(a: int)
    requires 0 <= a < 256
    ensures a / 128 == a / 64 / 2
  {}

  lemma UpperBits128(a: int, b: int)
    requires 0 <= a < 256 && 0 <= b < 256 && a as bv8 == b as bv8
    ensures a / 128 == b / 128
  {
    Bit128(a, b);
  }
}
