/** Decimal numbers as the console prints them and as the C library's strtoul and
    strtol read them on a 32-bit target. */
module Numbers {
  import opened Basics
  import opened Bits

  const MINUS: byte := 0x2d
  const PLUS: byte := 0x2b

  predicate Digit(c: byte) {
    0x30 <= c <= 0x39
  }

  function SkipSpaces(s: seq<byte>): (r: seq<byte>)
    ensures |r| <= |s|
  {
    if s != [] && Space(s[0]) then SkipSpaces(s[1..]) else s
  }

  predicate AllDigits(s: seq<byte>) {
    forall i | 0 <= i < |s| :: Digit(s[i])
  }

  /** The number a row of digits stands for. */
  function Value(s: seq<byte>): nat
    requires AllDigits(s)
  {
    if s == [] then 0 else 10 * Value(s[..|s| - 1]) + (s[|s| - 1] - 0x30)
  }

  datatype Parsed = Parsed(negative: bool, magnitude: nat)

  /** A whole integer: white space, at most one sign, digits to the end. */
  function Parse(s: seq<byte>): Option<Parsed> {
    var t := SkipSpaces(s);
    var negative := t != [] && t[0] == MINUS;
    var body := if t != [] && (t[0] == MINUS || t[0] == PLUS) then t[1..] else t;
    if body == [] || !AllDigits(body) then None else Some(Parsed(negative, Value(body)))
  }

  /** strtoul: saturates above 2^32 - 1, and negates modulo 2^32. */
  function Unsigned(p: Parsed): nat {
    if p.magnitude > 0xffff_ffff then 0xffff_ffff
    else if p.negative && p.magnitude > 0 then 0x1_0000_0000 - p.magnitude
    else p.magnitude
  }

  /** strtol: saturates at both ends. */
  function Signed(p: Parsed): int {
    var m: int := p.magnitude;
    if p.negative then (if m > 0x8000_0000 then -0x8000_0000 else -m)
    else if m > 0x7fff_ffff then 0x7fff_ffff
    else m
  }

  function ParseUnsigned(s: seq<byte>): Option<nat> {
    match Parse(s)
    case None => None
    case Some(p) => Some(Unsigned(p))
  }

  function ParseSigned(s: seq<byte>): Option<int> {
    match Parse(s)
    case None => None
    case Some(p) => Some(Signed(p))
  }

  // ---- Printing ---------------------------------------------------------------------

  /** A number in decimal, without leading zeros. */
  function Decimal(n: nat): (s: seq<byte>)
    ensures |s| > 0
  {
    if n < 10 then [0x30 + n] else Decimal(n / 10) + [0x30 + n % 10]
  }

  function DecimalSigned(v: int): (s: seq<byte>)
    ensures |s| > 0
  {
    if v < 0 then [MINUS] + Decimal(-v) else Decimal(v)
  }

  lemma {:induction false} DecimalDigits(n: nat)
    ensures AllDigits(Decimal(n)) && Value(Decimal(n)) == n
  {
    var s := Decimal(n);
    if n < 10 {
      assert s[..0] == [];
    } else {
      DecimalDigits(n / 10);
      assert s[..|s| - 1] == Decimal(n / 10);
    }
  }

  /** Ten to the `n`. */
  function TenTo(n: nat): nat {
    if n == 0 then 1 else 10 * TenTo(n - 1)
  }

  lemma {:induction false} DecimalLength(n: nat, d: nat)
    requires 0 < d && n < TenTo(d)
    ensures |Decimal(n)| <= d
  {
    if n >= 10 {
      DecimalLength(n / 10, d - 1);
    }
  }

  lemma Tens()
    ensures TenTo(1) == 10 && TenTo(2) == 100 && TenTo(3) == 1000 && TenTo(6) == 1000000
    ensures TenTo(9) == 1000000000 && TenTo(10) == 10000000000
  {
    assert TenTo(3) == 1000;
    assert TenTo(6) == 1000000;
    assert TenTo(8) == 100000000;
  }

  lemma DecimalParses(n: nat)
    ensures Parse(Decimal(n)) == Some(Parsed(false, n))
  {
    DecimalDigits(n);
    var s := Decimal(n);
    assert Digit(s[0]);
    assert SkipSpaces(s) == s;
  }

  /** What is printed as a 32-bit unsigned number is read back. */
  lemma UnsignedRoundTrip(n: nat)
    requires n < 0x1_0000_0000
    ensures ParseUnsigned(Decimal(n)) == Some(n)
  {
    DecimalParses(n);
  }

  /** What is printed as a 32-bit signed number is read back. */
  lemma SignedRoundTrip(v: int)
    requires -0x8000_0000 <= v < 0x8000_0000
    ensures ParseSigned(DecimalSigned(v)) == Some(v)
  {
    if v >= 0 {
      DecimalParses(v);
    } else {
      DecimalDigits(-v);
      var s := DecimalSigned(v);
      assert SkipSpaces(s) == s && s[1..] == Decimal(-v);
    }
  }

  /** A number's text holds neither a separator nor a terminator. */
  lemma DecimalIsPlain(v: int)
    ensures 0 !in DecimalSigned(v) && 0x7c !in DecimalSigned(v)
  {
    if v >= 0 {
      DecimalDigits(v);
    } else {
      DecimalDigits(-v);
    }
  }

  /** A minus sign does not make an unsigned field reject a number: what lies
      close enough below 2^32 wraps into range. */
  lemma NegativeUnsignedWraps(n: nat)
    requires 0 < n < 0x1_0000_0000
    ensures ParseUnsigned([MINUS] + Decimal(n)) == Some(0x1_0000_0000 - n)
  {
    DecimalDigits(n);
    var s := [MINUS] + Decimal(n);
    assert SkipSpaces(s) == s && s[1..] == Decimal(n);
  }

  // ---- Exactly what is read -----------------------------------------------------------

  /** `s` is `k` white-space characters, then a sign or none, then at least one
      decimal digit and nothing else; the digits stand for `magnitude`. */
  predicate IsNumber(s: seq<byte>, k: nat, negative: bool, magnitude: nat) {
    && k <= |s| && (forall i | 0 <= i < k :: s[i] in {9, 10, 11, 12, 13, 32})
    && var signed := k < |s| && s[k] in {'+' as int, '-' as int};
    var digits := s[if signed then k + 1 else k..];
    && (negative <==> signed && s[k] == '-' as int)
    && digits != [] && (forall i | 0 <= i < |digits| :: '0' as int <= digits[i] <= '9' as int)
    && Value(digits) == magnitude
  }

  lemma {:induction false} SpacesSkipped(s: seq<byte>, k: nat)
    requires k <= |s| && (forall i | 0 <= i < k :: Space(s[i])) && (k == |s| || !Space(s[k]))
    ensures SkipSpaces(s) == s[k..]
  {
    if k > 0 {
      SpacesSkipped(s[1..], k - 1);
      assert s[1..][k - 1..] == s[k..];
    } else {
      assert s[0..] == s;
    }
  }

  lemma {:induction false} SkippedSpaces(s: seq<byte>) returns (k: nat)
    ensures k <= |s| && (forall i | 0 <= i < k :: Space(s[i])) && SkipSpaces(s) == s[k..]
  {
    k := 0;
    if s != [] && Space(s[0]) {
      var l := SkippedSpaces(s[1..]);
      k := l + 1;
      assert s[1..][l..] == s[k..];
      forall i | 0 <= i < k ensures Space(s[i]) {
        if i > 0 {
          assert s[i] == s[1..][i - 1];
        }
      }
    } else {
      assert s[0..] == s;
    }
  }

  /** A text is read as a number just when it is one, and as the number it stands
      for, saturated to 32 bits; an unsigned field negates modulo 2^32. */
  lemma NumberIsRead(s: seq<byte>, k: nat, negative: bool, magnitude: nat)
    requires IsNumber(s, k, negative, magnitude)
    ensures ParseUnsigned(s)
      == Some(if magnitude > 4294967295 then 4294967295
              else if negative then (4294967296 - magnitude) % 4294967296 else magnitude)
    ensures ParseSigned(s)
      == Some(if negative then (if magnitude > 2147483648 then -2147483648 else 0 - magnitude)
              else if magnitude > 2147483647 then 2147483647 else magnitude)
  {
    SpacesSkipped(s, k);
    var t := s[k..];
    if t[0] == MINUS || t[0] == PLUS {
      assert t[1..] == s[k + 1..];
    }
  }

  lemma NothingElseIsRead(s: seq<byte>) returns (k: nat, negative: bool, magnitude: nat)
    requires ParseUnsigned(s).Some? || ParseSigned(s).Some?
    ensures IsNumber(s, k, negative, magnitude)
  {
    k := SkippedSpaces(s);
    var p := Parse(s).value;
    negative, magnitude := p.negative, p.magnitude;
    var t := s[k..];
    if t[0] == MINUS || t[0] == PLUS {
      assert t[1..] == s[k + 1..];
    }
  }

  /** What digits stand for. */
  lemma DigitsAreDecimal()
    ensures AllDigits([0x30, 0x37, 0x31]) && Value([0x30, 0x37, 0x31]) == 71
    ensures Decimal(9071) == [0x39, 0x30, 0x37, 0x31]
  {
    assert [0x30, 0x37, 0x31][..2] == [0x30, 0x37] && [0x30, 0x37][..1] == [0x30] && [0x30][..0] == [];
    assert Value([0x30]) == 0 && Value([0x30, 0x37]) == 7;
    assert Decimal(90) == [0x39, 0x30] && Decimal(907) == [0x39, 0x30, 0x37];
  }
}
