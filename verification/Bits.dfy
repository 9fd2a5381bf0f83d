/** Bytes, and how they meet the 32-bit registers of the checksum code. */
module Bits {
  import Patterns

  type byte = x: int | 0 <= x < 256

  /** A byte as it is xored into a register. */
  function Wide(b: byte): bv32 {
    (b as bv8) as bv32
  }

  /** The low eight bits of a register. */
  function LowByte(c: bv32): byte {
    var v := (c & 0xFF) as bv8;
    Patterns.NumberOfPattern(v);
    v as int
  }

  lemma WideIsSmall(b: byte)
    ensures Wide(b) < 0x100
  {}

  lemma WideInjective(a: byte, b: byte)
    requires Wide(a) == Wide(b)
    ensures a == b
  {
    Narrow(a as bv8, b as bv8);
    Patterns.PatternInjective(a, b);
  }

  lemma Narrow(u: bv8, v: bv8)
    requires u as bv32 == v as bv32
    ensures u == v
  {}

  lemma WideLowByte(c: bv32)
    ensures Wide(LowByte(c)) == c & 0xFF
  {
    Patterns.NumberOfPattern((c & 0xFF) as bv8);
    MaskRoundTrip(c);
  }

  lemma MaskRoundTrip(c: bv32)
    ensures ((c & 0xFF) as bv8) as bv32 == c & 0xFF
  {}

  /** The text on which checksums are compared: the digits one to nine. */
  const CHECK_TEXT: seq<byte> := [0x31, 0x32, 0x33, 0x34, 0x35, 0x36, 0x37, 0x38, 0x39]

  // ---- Big-endian and little-endian integer fields -------------------

  /** 256 to the `n`. */
  function Range(n: nat): (r: nat)
    ensures r > 0
  {
    if n == 0 then 1 else 256 * Range(n - 1)
  }

  lemma Ranges()
    ensures Range(1) == 0x100 && Range(2) == 0x1_0000 && Range(4) == 0x1_0000_0000
    ensures Range(8) == 0x1_0000_0000_0000_0000
  {
    assert Range(2) == 0x1_0000;
    assert Range(4) == 0x1_0000_0000;
    assert Range(6) == 0x1_0000_0000_0000;
  }

  /** Byte `i` of the `n` low bytes of `v`, most significant first. */
  function BeByte(n: nat, v: nat, i: nat): byte
    requires i < n
  {
    if i == n - 1 then v % 256 else BeByte(n - 1, v / 256, i)
  }

  /** The low `n` bytes of `v`, most significant first. */
  function Be(n: nat, v: nat): (s: seq<byte>)
    ensures |s| == n
  {
    seq(n, i requires 0 <= i < n => BeByte(n, v, i))
  }

  /** Byte `i` of the `n` low bytes of `v`, least significant first. */
  function LeByte(n: nat, v: nat, i: nat): byte
    requires i < n
  {
    if i == 0 then v % 256 else LeByte(n - 1, v / 256, i - 1)
  }

  /** The low `n` bytes of `v`, least significant first. */
  function Le(n: nat, v: nat): (s: seq<byte>)
    ensures |s| == n
  {
    seq(n, i requires 0 <= i < n => LeByte(n, v, i))
  }

  /** The number in the `n` bytes of `s` from `p` on, most significant first. */
  function BeAt(s: seq<byte>, p: nat, n: nat): nat
    requires p + n <= |s|
  {
    if n == 0 then 0 else 256 * BeAt(s, p, n - 1) + s[p + n - 1]
  }

  /** The number in the `n` bytes of `s` from `p` on, least significant first. */
  function LeAt(s: seq<byte>, p: nat, n: nat): nat
    requires p + n <= |s|
    decreases n
  {
    if n == 0 then 0 else s[p] + 256 * LeAt(s, p + 1, n - 1)
  }

  lemma SliceOfSlice<T>(s: seq<T>, a: nat, b: nat, c: nat, d: nat)
    requires a <= b <= |s| && c <= d <= b - a
    ensures s[a..b][c..d] == s[a + c..a + d]
  {
    var t := s[a..b];
    forall i | 0 <= i < d - c ensures t[c..d][i] == s[a + c..a + d][i] {
      assert t[c..d][i] == t[c + i] == s[a + (c + i)];
    }
  }

  lemma JoinSlices<T>(s: seq<T>, a: nat, b: nat, c: nat)
    requires a <= b <= c <= |s|
    ensures s[a..c] == s[a..b] + s[b..c]
  {}

  lemma LowDigit(low: byte, high: nat, v: nat)
    requires v == low + 256 * high
    ensures v % 256 == low && v / 256 == high
  {}

  lemma BeSplits(n: nat, v: nat)
    requires n > 0
    ensures Be(n, v) == Be(n - 1, v / 256) + [v % 256]
  {}

  lemma LeSplits(n: nat, v: nat)
    requires n > 0
    ensures Le(n, v) == [v % 256] + Le(n - 1, v / 256)
  {}

  /** Four-byte fields, byte by byte, in both orders. */
  lemma ByteOrder(v: nat)
    ensures Be(4, v) == [v / 16777216 % 256, v / 65536 % 256, v / 256 % 256, v % 256]
    ensures Le(4, v) == [v % 256, v / 256 % 256, v / 65536 % 256, v / 16777216 % 256]
    ensures Be(2, v) == [v / 256 % 256, v % 256] && Le(2, v) == [v % 256, v / 256 % 256]
  {
    Quotients(v);
    TwoBytes(v);
    TwoBytes(v / 65536);
    BeSplits(4, v);
    BeSplits(3, v / 256);
    LeSplits(4, v);
    LeSplits(3, v / 256);
    assert v / 65536 / 256 == v / 16777216 && v / 256 / 256 == v / 65536;
  }

  lemma TwoBytes(v: nat)
    ensures Be(2, v) == [v / 256 % 256, v % 256] && Le(2, v) == [v % 256, v / 256 % 256]
  {
    BeSplits(2, v);
    BeSplits(1, v / 256);
    LeSplits(2, v);
    LeSplits(1, v / 256);
    assert Be(0, v / 65536) == [] && Le(0, v / 65536) == [];
  }

  lemma Quotients(v: nat)
    ensures v / 256 / 256 == v / 65536 && v / 65536 / 256 == v / 16777216
  {}

  /** ... and as they are read. */
  lemma TwoByteField(s: seq<byte>, p: nat)
    requires p + 2 <= |s|
    ensures BeAt(s, p, 2) == 256 * (s[p] as int) + s[p + 1] as int
    ensures LeAt(s, p, 2) == s[p] as int + 256 * (s[p + 1] as int)
  {
    assert BeAt(s, p, 1) == s[p] as int && LeAt(s, p + 1, 1) == s[p + 1] as int;
  }

  lemma FourByteField(s: seq<byte>, p: nat)
    requires p + 4 <= |s|
    ensures BeAt(s, p, 4) == 65536 * BeAt(s, p, 2) + BeAt(s, p + 2, 2)
    ensures LeAt(s, p, 4) == LeAt(s, p, 2) + 65536 * LeAt(s, p + 2, 2)
  {
    TwoByteField(s, p);
    TwoByteField(s, p + 2);
    assert BeAt(s, p, 3) == 256 * BeAt(s, p, 2) + s[p + 2] as int;
    assert LeAt(s, p + 1, 3) == s[p + 1] as int + 256 * LeAt(s, p + 2, 2);
  }

  /** A field written as `v` reads back as `v`. */
  lemma {:induction false} BeReads(s: seq<byte>, p: nat, n: nat, v: nat)
    requires v < Range(n) && p + n <= |s| && s[p..p + n] == Be(n, v)
    ensures BeAt(s, p, n) == v
  {
    if n > 0 {
      BeSplits(n, v);
      SliceOfSlice(s, p, p + n, 0, n - 1);
      assert Be(n, v)[0..n - 1] == Be(n - 1, v / 256);
      assert s[p + n - 1] == s[p..p + n][n - 1];
      BeReads(s, p, n - 1, v / 256);
    }
  }

  lemma {:induction false} LeReads(s: seq<byte>, p: nat, n: nat, v: nat)
    requires v < Range(n) && p + n <= |s| && s[p..p + n] == Le(n, v)
    ensures LeAt(s, p, n) == v
    decreases n
  {
    if n > 0 {
      LeSplits(n, v);
      SliceOfSlice(s, p, p + n, 1, n);
      assert Le(n, v)[1..n] == Le(n - 1, v / 256);
      assert s[p] == s[p..p + n][0];
      LeReads(s, p + 1, n - 1, v / 256);
    }
  }

  /** A field read as a number is what that number is written as. */
  lemma {:induction false} BeRewrites(s: seq<byte>, p: nat, n: nat)
    requires p + n <= |s|
    ensures BeAt(s, p, n) < Range(n) && Be(n, BeAt(s, p, n)) == s[p..p + n]
  {
    if n > 0 {
      BeRewrites(s, p, n - 1);
      LowDigit(s[p + n - 1], BeAt(s, p, n - 1), BeAt(s, p, n));
      BeSplits(n, BeAt(s, p, n));
      assert s[p..p + n] == s[p..p + n - 1] + [s[p + n - 1]];
    }
  }

  lemma {:induction false} LeRewrites(s: seq<byte>, p: nat, n: nat)
    requires p + n <= |s|
    ensures LeAt(s, p, n) < Range(n) && Le(n, LeAt(s, p, n)) == s[p..p + n]
    decreases n
  {
    if n > 0 {
      LeRewrites(s, p + 1, n - 1);
      LowDigit(s[p], LeAt(s, p + 1, n - 1), LeAt(s, p, n));
      LeSplits(n, LeAt(s, p, n));
      assert s[p..p + n] == [s[p]] + s[p + 1..p + n];
    }
  }
}
