/** The table-free reflected CRC-32 that guards the configuration record
    (section 8 of RFC 1952), and the error bursts it cannot miss. */
module Crc32 {
  import opened Bits

  const ALL_ONES: bv32 := 0xFFFFFFFF
  const WORD_SIZE: nat := 4

  /** One turn of the inner loop: shift right, and fold in the polynomial when
      the bit that left was set. */
  function Shift(crc: bv32): bv32 {
    if crc & 1 != 0 then (crc >> 1) ^ 0xEDB88320 else crc >> 1
  }

  function Shift2(crc: bv32): bv32 { Shift(Shift(crc)) }
  function Shift4(crc: bv32): bv32 { Shift2(Shift2(crc)) }
  function Shift8(crc: bv32): bv32 { Shift4(Shift4(crc)) }

  function Enter(crc: bv32, w: bv32): bv32 { crc ^ w }

  /** One turn of the outer loop. */
  function Feed(crc: bv32, b: byte): bv32 {
    Shift8(Enter(crc, Wide(b)))
  }

  function FeedAll(crc: bv32, data: seq<byte>): bv32
    decreases data
  {
    if data == [] then crc else FeedAll(Feed(crc, data[0]), data[1..])
  }

  /** The checksum: the complement of the register. */
  function Checksum(data: seq<byte>): bv32 {
    Enter(FeedAll(ALL_ONES, data), ALL_ONES)
  }

  function Shifts(n: nat, crc: bv32): bv32 {
    if n == 0 then crc else Shift(Shifts(n - 1, crc))
  }

  method Compute(data: seq<byte>) returns (crc: bv32)
    ensures crc == Checksum(data)
  {
    crc := ALL_ONES;
    for i := 0 to |data|
      invariant FeedAll(crc, data[i..]) == FeedAll(ALL_ONES, data)
    {
      ghost var before := crc;
      crc := Enter(crc, Wide(data[i]));
      ghost var entered := crc;
      for b := 0 to 8
        invariant crc == Shifts(b, entered)
      {
        MaskedShift(crc);
        crc := (crc >> 1) ^ (0xEDB88320 & (0 - (crc & 1)));
      }
      EightShifts(entered);
      assert data[i..][1..] == data[i + 1..];
    }
    crc := Enter(crc, ALL_ONES);
  }

  /** The branch-free mask of the inner loop. */
  lemma MaskedShift(c: bv32)
    ensures (c >> 1) ^ (0xEDB88320 & (0 - (c & 1))) == Shift(c)
  {
    if c & 1 != 0 {
      MaskSet(c);
    } else {
      MaskClear(c);
    }
  }

  lemma MaskSet(c: bv32)
    requires c & 1 != 0
    ensures (c >> 1) ^ (0xEDB88320 & (0 - (c & 1))) == (c >> 1) ^ 0xEDB88320
  {}

  lemma MaskClear(c: bv32)
    requires c & 1 == 0
    ensures (c >> 1) ^ (0xEDB88320 & (0 - (c & 1))) == c >> 1
  {}

  lemma EightShifts(c: bv32)
    ensures Shifts(8, c) == Shift8(c)
  {
    TwoShifts(0, c);
    TwoShifts(2, c);
    TwoShifts(4, c);
    TwoShifts(6, c);
  }

  lemma TwoShifts(n: nat, c: bv32)
    ensures Shifts(n + 2, c) == Shift2(Shifts(n, c))
  {
    assert Shifts(n + 2, c) == Shift(Shifts(n + 1, c));
    assert Shifts(n + 1, c) == Shift(Shifts(n, c));
  }

  // ---- How the difference of two registers travels back one bit --------

  lemma OddShift(x: bv32, s: bv32)
    requires x & 1 != 0 && s == Shift(x)
    ensures s == (x >> 1) ^ 0xEDB88320
  {}

  lemma EvenShift(x: bv32, s: bv32)
    requires x & 1 == 0 && s == Shift(x)
    ensures s == x >> 1
  {}

  lemma OddDifference(x: bv32, y: bv32, s: bv32, t: bv32, d: bv32, e: bv32)
    requires x & 1 != 0 && y & 1 != 0 && s == (x >> 1) ^ 0xEDB88320 && t == (y >> 1) ^ 0xEDB88320
    requires d == s ^ t && e == d << 1
    ensures x ^ y == e
  {}

  lemma EvenDifference(x: bv32, y: bv32, s: bv32, t: bv32, d: bv32, e: bv32)
    requires x & 1 == 0 && y & 1 == 0 && s == x >> 1 && t == y >> 1
    requires d == s ^ t && e == d << 1
    ensures x ^ y == e
  {}

  lemma MixedDifference(x: bv32, y: bv32, s: bv32, t: bv32, d: bv32)
    requires s == (x >> 1) ^ 0xEDB88320 && t == y >> 1 && d == s ^ t
    ensures d >= 0x8000_0000
  {}

  lemma OddForward(x: bv32, y: bv32, s: bv32, t: bv32, d: bv32, e: bv32)
    requires s == (x >> 1) ^ 0xEDB88320 && t == (y >> 1) ^ 0xEDB88320 && d == x ^ y && e == d >> 1
    ensures s ^ t == e
  {}

  lemma EvenForward(x: bv32, y: bv32, s: bv32, t: bv32, d: bv32, e: bv32)
    requires s == x >> 1 && t == y >> 1 && d == x ^ y && e == d >> 1
    ensures s ^ t == e
  {}

  lemma LowBits(x: bv32, y: bv32, d: bv32)
    requires d == x ^ y && d & 1 == 0
    ensures (x & 1 != 0) == (y & 1 != 0)
  {}

  /** A difference with its top bit clear came from one shifted left. */
  lemma Backward(x: bv32, y: bv32, s: bv32, t: bv32, d: bv32, e: bv32)
    requires s == Shift(x) && t == Shift(y)
    requires d == s ^ t && d < 0x8000_0000 && e == d << 1
    ensures x ^ y == e
  {
    if x & 1 != 0 {
      OddShift(x, s);
      if y & 1 != 0 {
        OddShift(y, t);
        OddDifference(x, y, s, t, d, e);
      } else {
        EvenShift(y, t);
        MixedDifference(x, y, s, t, d);
      }
    } else {
      EvenShift(x, s);
      if y & 1 != 0 {
        OddShift(y, t);
        MixedDifference(y, x, t, s, d);
      } else {
        EvenShift(y, t);
        EvenDifference(x, y, s, t, d, e);
      }
    }
  }

  /** A difference with its low bit clear is shifted right. */
  lemma Forward(x: bv32, y: bv32, s: bv32, t: bv32, d: bv32, e: bv32)
    requires s == Shift(x) && t == Shift(y)
    requires d == x ^ y && d & 0x1 == 0 && e == d >> 1
    ensures s ^ t == e
  {
    LowBits(x, y, d);
    if x & 1 != 0 {
      OddShift(x, s);
      OddShift(y, t);
      OddForward(x, y, s, t, d, e);
    } else {
      EvenShift(x, s);
      EvenShift(y, t);
      EvenForward(x, y, s, t, d, e);
    }
  }

  // ---- Two, four and eight bits at a time -------------------------------

  lemma Room2(d: bv32, e: bv32, f: bv32)
    requires d < 0x4000_0000 && e == d << 1 && f == d << 2
    ensures d < 0x8000_0000 && e < 0x8000_0000 && f == e << 1
  {}

  lemma Backward2(x: bv32, y: bv32, s: bv32, t: bv32, d: bv32, f: bv32)
    requires s == Shift2(x) && t == Shift2(y)
    requires d == s ^ t && d < 0x4000_0000 && f == d << 2
    ensures x ^ y == f
  {
    Backward2Via(x, y, Shift(x), Shift(y), s, t, d, d << 1, f);
  }

  lemma Backward2Via(x: bv32, y: bv32, p: bv32, q: bv32, s: bv32, t: bv32, d: bv32, e: bv32, f: bv32)
    requires p == Shift(x) && q == Shift(y) && s == Shift(p) && t == Shift(q)
    requires d == s ^ t && d < 0x4000_0000 && e == d << 1 && f == d << 2
    ensures x ^ y == f
  {
    Room2(d, e, f);
    Backward(p, q, s, t, d, e);
    Backward(x, y, p, q, e, f);
  }

  lemma Room4(d: bv32, e: bv32, f: bv32)
    requires d < 0x1000_0000 && e == d << 2 && f == d << 4
    ensures d < 0x4000_0000 && e < 0x4000_0000 && f == e << 2
  {}

  lemma Backward4(x: bv32, y: bv32, s: bv32, t: bv32, d: bv32, f: bv32)
    requires s == Shift4(x) && t == Shift4(y)
    requires d == s ^ t && d < 0x1000_0000 && f == d << 4
    ensures x ^ y == f
  {
    Backward4Via(x, y, Shift2(x), Shift2(y), s, t, d, d << 2, f);
  }

  lemma Backward4Via(x: bv32, y: bv32, p: bv32, q: bv32, s: bv32, t: bv32, d: bv32, e: bv32, f: bv32)
    requires p == Shift2(x) && q == Shift2(y) && s == Shift2(p) && t == Shift2(q)
    requires d == s ^ t && d < 0x1000_0000 && e == d << 2 && f == d << 4
    ensures x ^ y == f
  {
    Room4(d, e, f);
    Backward2(p, q, s, t, d, e);
    Backward2(x, y, p, q, e, f);
  }

  lemma Room8(d: bv32, e: bv32, f: bv32)
    requires d < 0x0100_0000 && e == d << 4 && f == d << 8
    ensures d < 0x1000_0000 && e < 0x1000_0000 && f == e << 4
  {}

  lemma Backward8(x: bv32, y: bv32, s: bv32, t: bv32, d: bv32, f: bv32)
    requires s == Shift8(x) && t == Shift8(y)
    requires d == s ^ t && d < 0x0100_0000 && f == d << 8
    ensures x ^ y == f
  {
    Backward8Via(x, y, Shift4(x), Shift4(y), s, t, d, d << 4, f);
  }

  lemma Backward8Via(x: bv32, y: bv32, p: bv32, q: bv32, s: bv32, t: bv32, d: bv32, e: bv32, f: bv32)
    requires p == Shift4(x) && q == Shift4(y) && s == Shift4(p) && t == Shift4(q)
    requires d == s ^ t && d < 0x0100_0000 && e == d << 4 && f == d << 8
    ensures x ^ y == f
  {
    Room8(d, e, f);
    Backward4(p, q, s, t, d, e);
    Backward4(x, y, p, q, e, f);
  }

  lemma Low2(d: bv32, e: bv32, f: bv32)
    requires d & 0x3 == 0 && e == d >> 1 && f == d >> 2
    ensures d & 0x1 == 0 && e & 0x1 == 0 && f == e >> 1
  {}

  lemma Forward2(x: bv32, y: bv32, s: bv32, t: bv32, d: bv32, f: bv32)
    requires s == Shift2(x) && t == Shift2(y)
    requires d == x ^ y && d & 0x3 == 0 && f == d >> 2
    ensures s ^ t == f
  {
    Forward2Via(x, y, Shift(x), Shift(y), s, t, d, d >> 1, f);
  }

  lemma Forward2Via(x: bv32, y: bv32, p: bv32, q: bv32, s: bv32, t: bv32, d: bv32, e: bv32, f: bv32)
    requires p == Shift(x) && q == Shift(y) && s == Shift(p) && t == Shift(q)
    requires d == x ^ y && d & 0x3 == 0 && e == d >> 1 && f == d >> 2
    ensures s ^ t == f
  {
    Low2(d, e, f);
    Forward(x, y, p, q, d, e);
    Forward(p, q, s, t, e, f);
  }

  lemma Low4(d: bv32, e: bv32, f: bv32)
    requires d & 0xF == 0 && e == d >> 2 && f == d >> 4
    ensures d & 0x3 == 0 && e & 0x3 == 0 && f == e >> 2
  {}

  lemma Forward4(x: bv32, y: bv32, s: bv32, t: bv32, d: bv32, f: bv32)
    requires s == Shift4(x) && t == Shift4(y)
    requires d == x ^ y && d & 0xF == 0 && f == d >> 4
    ensures s ^ t == f
  {
    Forward4Via(x, y, Shift2(x), Shift2(y), s, t, d, d >> 2, f);
  }

  lemma Forward4Via(x: bv32, y: bv32, p: bv32, q: bv32, s: bv32, t: bv32, d: bv32, e: bv32, f: bv32)
    requires p == Shift2(x) && q == Shift2(y) && s == Shift2(p) && t == Shift2(q)
    requires d == x ^ y && d & 0xF == 0 && e == d >> 2 && f == d >> 4
    ensures s ^ t == f
  {
    Low4(d, e, f);
    Forward2(x, y, p, q, d, e);
    Forward2(p, q, s, t, e, f);
  }

  lemma Low8(d: bv32, e: bv32, f: bv32)
    requires d & 0xFF == 0 && e == d >> 4 && f == d >> 8
    ensures d & 0xF == 0 && e & 0xF == 0 && f == e >> 4
  {}

  lemma Forward8(x: bv32, y: bv32, s: bv32, t: bv32, d: bv32, f: bv32)
    requires s == Shift8(x) && t == Shift8(y)
    requires d == x ^ y && d & 0xFF == 0 && f == d >> 8
    ensures s ^ t == f
  {
    Forward8Via(x, y, Shift4(x), Shift4(y), s, t, d, d >> 4, f);
  }

  lemma Forward8Via(x: bv32, y: bv32, p: bv32, q: bv32, s: bv32, t: bv32, d: bv32, e: bv32, f: bv32)
    requires p == Shift4(x) && q == Shift4(y) && s == Shift4(p) && t == Shift4(q)
    requires d == x ^ y && d & 0xFF == 0 && e == d >> 4 && f == d >> 8
    ensures s ^ t == f
  {
    Low8(d, e, f);
    Forward4(x, y, p, q, d, e);
    Forward4(p, q, s, t, e, f);
  }

  // ---- One byte at a time ------------------------------------------------

  lemma LeaveBits(x: bv32, y: bv32, u: bv32, w: bv32, p: bv32, q: bv32, f: bv32, k: bv32)
    requires p == x ^ u && q == y ^ w && p ^ q == f && k == u ^ w
    ensures x ^ y == f ^ k
  {}

  lemma EnteredDifference(x: bv32, y: bv32, u: bv32, w: bv32, p: bv32, q: bv32, f: bv32, k: bv32)
    requires p == Enter(x, u) && q == Enter(y, w) && p ^ q == f && k == u ^ w
    ensures x ^ y == f ^ k
  {
    LeaveBits(x, y, u, w, p, q, f, k);
  }

  /** The difference before two bytes enter, from the difference after. */
  lemma FeedBackward(x: bv32, a: byte, y: bv32, b: byte, u: bv32, w: bv32, s: bv32, t: bv32,
                     d: bv32, f: bv32, k: bv32)
    requires u == Wide(a) && w == Wide(b) && s == Feed(x, a) && t == Feed(y, b)
    requires d == s ^ t && d < 0x0100_0000 && f == d << 8 && k == u ^ w
    ensures x ^ y == f ^ k
  {
    var p, q := Enter(x, u), Enter(y, w);
    Backward8(p, q, s, t, d, f);
    EnteredDifference(x, y, u, w, p, q, f, k);
  }

  /** The bits that `n <= 3` bytes can still reach. */
  function Limit(n: nat): bv32 {
    if n == 0 then 0x1 else if n == 1 then 0x100 else if n == 2 then 0x1_0000 else 0x100_0000
  }

  lemma LimitGrows(n: nat, d: bv32, f: bv32, k: bv32, m: bv32, l: bv32)
    requires n <= 2 && l == Limit(n) && m == Limit(n + 1)
    requires d < l && f == d << 8 && k < 0x100
    ensures f ^ k < m
  {}

  lemma LimitIsSmall(n: nat, d: bv32, l: bv32)
    requires n <= 3 && l == Limit(n) && d < l
    ensures d < 0x0100_0000
  {}

  lemma ByteDifference(u: bv32, w: bv32)
    requires u < 0x100 && w < 0x100
    ensures u ^ w < 0x100
  {}

  lemma SameDifference(x: bv32, y: bv32)
    ensures x ^ y == 0 <==> x == y
  {}

  /** Registers that `n <= 3` bytes can bring together differ in their low
      `8 * n` bits only. */
  lemma {:induction false} MeetWithin(x: bv32, a: seq<byte>, y: bv32, b: seq<byte>, c: bv32, l: bv32)
    requires |a| == |b| <= 3 && FeedAll(x, a) == FeedAll(y, b)
    requires c == x ^ y && l == Limit(|a|)
    ensures c < l
    decreases a
  {
    if a == [] {
      SameDifference(x, y);
    } else {
      var s, t := Feed(x, a[0]), Feed(y, b[0]);
      MeetWithin(s, a[1..], t, b[1..], s ^ t, Limit(|a| - 1));
      MeetStep(|a| - 1, x, a[0], y, b[0], s, t, s ^ t, c, Limit(|a| - 1), l);
    }
  }

  lemma MeetStep(n: nat, x: bv32, a: byte, y: bv32, b: byte, s: bv32, t: bv32, d: bv32, c: bv32, l: bv32, m: bv32)
    requires n <= 2 && s == Feed(x, a) && t == Feed(y, b) && d == s ^ t && c == x ^ y
    requires l == Limit(n) && m == Limit(n + 1) && d < l
    ensures c < m
  {
    var u, w := Wide(a), Wide(b);
    WideIsSmall(a);
    WideIsSmall(b);
    ByteDifference(u, w);
    LimitIsSmall(n, d, l);
    FeedBackward(x, a, y, b, u, w, s, t, d, d << 8, u ^ w);
    LimitGrows(n, d, d << 8, u ^ w, m, l);
  }

  lemma NothingLeft(u: bv32, w: bv32, d: bv32, f: bv32, k: bv32)
    requires d < 0x0100_0000 && f == d << 8 && k == u ^ w && k < 0x100
    requires f ^ k == 0
    ensures u == w && d == 0
  {}

  lemma FirstByteAgrees(x: bv32, a: byte, b: byte, s: bv32, t: bv32, d: bv32)
    requires s == Feed(x, a) && t == Feed(x, b) && d == s ^ t && d < 0x0100_0000
    ensures a == b
  {
    var u, w := Wide(a), Wide(b);
    WideIsSmall(a);
    WideIsSmall(b);
    ByteDifference(u, w);
    FeedBackward(x, a, x, b, u, w, s, t, d, d << 8, u ^ w);
    SameDifference(x, x);
    NothingLeft(u, w, d, d << 8, u ^ w);
    WideInjective(a, b);
  }

  /** From one register, two different bursts of at most four bytes lead to
      two different registers. */
  lemma {:induction false} BurstDetected(x: bv32, a: seq<byte>, b: seq<byte>)
    requires |a| == |b| <= 4 && FeedAll(x, a) == FeedAll(x, b)
    ensures a == b
    decreases a
  {
    if a != [] {
      var s, t := Feed(x, a[0]), Feed(x, b[0]);
      MeetWithinThree(s, a[1..], t, b[1..], s ^ t);
      FirstByteAgrees(x, a[0], b[0], s, t, s ^ t);
      BurstDetected(s, a[1..], b[1..]);
    }
  }

  lemma MeetWithinThree(x: bv32, a: seq<byte>, y: bv32, b: seq<byte>, d: bv32)
    requires |a| == |b| <= 3 && FeedAll(x, a) == FeedAll(y, b) && d == x ^ y
    ensures d < 0x0100_0000
  {
    MeetWithin(x, a, y, b, d, Limit(|a|));
    LimitIsSmall(|a|, d, Limit(|a|));
  }

  lemma FeedInjective(x: bv32, y: bv32, b: byte)
    requires Feed(x, b) == Feed(y, b)
    ensures x == y
  {
    var s, w := Feed(x, b), Wide(b);
    SameDifference(s, s);
    SameDifference(w, w);
    ZeroShift(s ^ s, (s ^ s) << 8, w ^ w);
    FeedBackward(x, b, y, b, w, w, s, s, s ^ s, (s ^ s) << 8, w ^ w);
    SameDifference(x, y);
  }

  lemma ZeroShift(d: bv32, f: bv32, k: bv32)
    requires d == 0 && f == d << 8 && k == 0
    ensures d < 0x0100_0000 && f ^ k == 0
  {}

  lemma {:induction false} FeedAllInjective(x: bv32, y: bv32, data: seq<byte>)
    requires FeedAll(x, data) == FeedAll(y, data)
    ensures x == y
    decreases data
  {
    if data != [] {
      FeedAllInjective(Feed(x, data[0]), Feed(y, data[0]), data[1..]);
      FeedInjective(x, y, data[0]);
    }
  }

  lemma {:induction false} FeedAllConcat(x: bv32, a: seq<byte>, b: seq<byte>)
    ensures FeedAll(x, a + b) == FeedAll(FeedAll(x, a), b)
    decreases a
  {
    if a == [] {
      assert a + b == b;
    } else {
      assert (a + b)[1..] == a[1..] + b;
      FeedAllConcat(Feed(x, a[0]), a[1..], b);
    }
  }

  // ---- Records that end in their own checksum -----------------------------

  /** The low `n` bytes of a word as they lie in memory, least significant
      first. */
  function WordBytes(n: nat, c: bv32): (s: seq<byte>)
    ensures |s| == n
  {
    if n == 0 then [] else [LowByte(c)] + WordBytes(n - 1, c >> 8)
  }

  /** `record` is some bytes followed by their checksum. */
  predicate Sealed(record: seq<byte>) {
    |record| >= 4 && record[|record| - 4..] == WordBytes(WORD_SIZE, Checksum(record[..|record| - 4]))
  }

  lemma EnterForward(x: bv32, y: bv32, u: bv32, w: bv32, p: bv32, q: bv32, d: bv32, c: bv32, e: bv32)
    requires p == x ^ u && q == y ^ w && x ^ y == d && u ^ w == d & 0xFF && c == p ^ q && e == d >> 8
    ensures c & 0xFF == 0 && e == c >> 8
  {}

  lemma EnteredForward(x: bv32, y: bv32, u: bv32, w: bv32, p: bv32, q: bv32, d: bv32, c: bv32,
                       e: bv32)
    requires p == Enter(x, u) && q == Enter(y, w)
    requires x ^ y == d && u ^ w == d & 0xFF && c == p ^ q && e == d >> 8
    ensures c & 0xFF == 0 && e == c >> 8
  {
    EnterForward(x, y, u, w, p, q, d, c, e);
  }

  /** Bytes that differ as the low byte of the registers does cancel it. */
  lemma FeedForward(x: bv32, a: byte, y: bv32, b: byte, u: bv32, w: bv32, s: bv32, t: bv32, d: bv32, e: bv32)
    requires u == Wide(a) && w == Wide(b) && s == Feed(x, a) && t == Feed(y, b)
    requires x ^ y == d && u ^ w == d & 0xFF && e == d >> 8
    ensures s ^ t == e
  {
    var p, q := Enter(x, u), Enter(y, w);
    FeedForwardVia(x, y, u, w, p, q, s, t, d, e, p ^ q);
  }

  lemma FeedForwardVia(x: bv32, y: bv32, u: bv32, w: bv32, p: bv32, q: bv32, s: bv32, t: bv32,
                       d: bv32, e: bv32, c: bv32)
    requires p == Enter(x, u) && q == Enter(y, w) && s == Shift8(p) && t == Shift8(q) && c == p ^ q
    requires x ^ y == d && u ^ w == d & 0xFF && e == d >> 8
    ensures s ^ t == e
  {
    EnteredForward(x, y, u, w, p, q, d, c, e);
    Forward8(p, q, s, t, c, e);
  }

  /** Byte `n` of two words differs as byte `n` of their difference. */
  lemma ByteOfDifference(c: bv32, d: bv32, u: bv32, w: bv32, e: bv32)
    requires u == c & 0xFF && w == d & 0xFF && e == c ^ d
    ensures u ^ w == e & 0xFF
  {}

  lemma ShiftOfDifference(c: bv32, d: bv32, c': bv32, d': bv32, e: bv32, e': bv32)
    requires e == c ^ d && c' == c >> 8 && d' == d >> 8 && e' == e >> 8
    ensures e' == c' ^ d'
  {}

  /** Feeding the low bytes of two words whose difference is the registers'. */
  lemma FeedLowBytes(x: bv32, y: bv32, c: bv32, d: bv32, c': bv32, d': bv32, s: bv32, t: bv32, e: bv32, e': bv32)
    requires x ^ y == e && e == c ^ d && c' == c >> 8 && d' == d >> 8 && e' == e >> 8
    requires s == Feed(x, LowByte(c)) && t == Feed(y, LowByte(d))
    ensures s ^ t == e' && e' == c' ^ d'
  {
    var u, w := Wide(LowByte(c)), Wide(LowByte(d));
    WideLowByte(c);
    WideLowByte(d);
    ByteOfDifference(c, d, u, w, e);
    FeedForward(x, LowByte(c), y, LowByte(d), u, w, s, t, e, e');
    ShiftOfDifference(c, d, c', d', e, e');
  }

  /** A difference that `n` bytes can cancel. */
  predicate Fits(n: nat, e: bv32) {
    if n == 0 then e == 0 else n >= 4 || e < Limit(n)
  }

  lemma FitsShift(n: nat, e: bv32, e': bv32)
    requires 0 < n <= 4 && Fits(n, e) && e' == e >> 8
    ensures Fits(n - 1, e')
  {}

  /** Registers and words with one difference: feeding each register its word
      makes the registers equal. */
  lemma {:induction false} FeedWords(n: nat, x: bv32, y: bv32, c: bv32, d: bv32, e: bv32)
    requires n <= 4 && x ^ y == e && e == c ^ d && Fits(n, e)
    ensures FeedAll(x, WordBytes(n, c)) == FeedAll(y, WordBytes(n, d))
    decreases n
  {
    if n == 0 {
      SameDifference(x, y);
    } else {
      FeedWordsVia(n, x, y, c, d, c >> 8, d >> 8, e, e >> 8);
    }
  }

  lemma {:induction false} FeedWordsVia(n: nat, x: bv32, y: bv32, c: bv32, d: bv32, c': bv32, d': bv32,
                                        e: bv32, e': bv32)
    requires 0 < n <= 4 && x ^ y == e && e == c ^ d && Fits(n, e)
    requires c' == c >> 8 && d' == d >> 8 && e' == e >> 8
    ensures FeedAll(x, WordBytes(n, c)) == FeedAll(y, WordBytes(n, d))
    decreases n, 0
  {
    var s, t := Feed(x, LowByte(c)), Feed(y, LowByte(d));
    assert s ^ t == e' && e' == c' ^ d' && Fits(n - 1, e') by {
      FeedLowBytes(x, y, c, d, c', d', s, t, e, e');
      FitsShift(n, e, e');
    }
    assert FeedAll(s, WordBytes(n - 1, c')) == FeedAll(t, WordBytes(n - 1, d')) by {
      FeedWords(n - 1, s, t, c', d', e');
    }
    FeedWordBytes(n, x, c, c', s);
    FeedWordBytes(n, y, d, d', t);
  }

  lemma FeedWordBytes(n: nat, x: bv32, c: bv32, c': bv32, s: bv32)
    requires n > 0 && c' == c >> 8 && s == Feed(x, LowByte(c))
    ensures FeedAll(x, WordBytes(n, c)) == FeedAll(s, WordBytes(n - 1, c'))
  {
    assert WordBytes(n, c)[1..] == WordBytes(n - 1, c');
  }

  /** Every sealed record drives the register to one residue. */
  lemma SealedResidue(r: seq<byte>, s: seq<byte>)
    requires Sealed(r) && Sealed(s)
    ensures FeedAll(ALL_ONES, r) == FeedAll(ALL_ONES, s)
  {
    var x, y := FeedAll(ALL_ONES, r[..|r| - 4]), FeedAll(ALL_ONES, s[..|s| - 4]);
    SealedSplits(r, x);
    SealedSplits(s, y);
    ChecksumsMeet(x, y);
  }

  lemma SealedSplits(r: seq<byte>, x: bv32)
    requires Sealed(r) && x == FeedAll(ALL_ONES, r[..|r| - 4])
    ensures FeedAll(ALL_ONES, r) == FeedAll(x, WordBytes(WORD_SIZE, Enter(x, ALL_ONES)))
  {
    var m := r[..|r| - 4];
    var field := r[|r| - 4..];
    assert r == m + field;
    FeedAllConcat(ALL_ONES, m, field);
  }

  lemma ChecksumsMeet(x: bv32, y: bv32)
    ensures FeedAll(x, WordBytes(WORD_SIZE, Enter(x, ALL_ONES)))
      == FeedAll(y, WordBytes(WORD_SIZE, Enter(y, ALL_ONES)))
  {
    Complement(x, y, Enter(x, ALL_ONES), Enter(y, ALL_ONES), x ^ y);
    FeedWords(WORD_SIZE, x, y, Enter(x, ALL_ONES), Enter(y, ALL_ONES), x ^ y);
  }

  lemma Complement(x: bv32, y: bv32, c: bv32, d: bv32, e: bv32)
    requires c == Enter(x, ALL_ONES) && d == Enter(y, ALL_ONES) && e == x ^ y
    ensures e == c ^ d
  {
    ComplementBits(x, y, c, d, e, ALL_ONES);
  }

  lemma ComplementBits(x: bv32, y: bv32, c: bv32, d: bv32, e: bv32, m: bv32)
    requires c == x ^ m && d == y ^ m && e == x ^ y
    ensures e == c ^ d
  {}

  lemma WindowDetected(x: bv32, before: seq<byte>, a: seq<byte>, b: seq<byte>, after: seq<byte>)
    requires |a| == |b| <= 4
    requires FeedAll(x, before + (a + after)) == FeedAll(x, before + (b + after))
    ensures a == b
  {
    var y := FeedAll(x, before);
    FeedThrough(x, before, a, after, y);
    FeedThrough(x, before, b, after, y);
    FeedAllInjective(FeedAll(y, a), FeedAll(y, b), after);
    BurstDetected(y, a, b);
  }

  lemma FeedThrough(x: bv32, before: seq<byte>, a: seq<byte>, after: seq<byte>, y: bv32)
    requires y == FeedAll(x, before)
    ensures FeedAll(x, before + (a + after)) == FeedAll(FeedAll(y, a), after)
  {
    FeedAllConcat(x, before, a + after);
    FeedAllConcat(y, a, after);
  }

  /** Two sealed records of one length cannot differ in a window of four
      bytes only, wherever the window lies: inside the data, inside the
      checksum or across the two. */
  lemma SealedBurst(r: seq<byte>, s: seq<byte>, at: nat)
    requires |r| == |s| && at + 4 <= |r|
    requires r[..at] == s[..at] && r[at + 4..] == s[at + 4..]
    requires Sealed(r) && Sealed(s)
    ensures r == s
  {
    SealedResidue(r, s);
    assert r == r[..at] + (r[at..at + 4] + r[at + 4..]);
    assert s == r[..at] + (s[at..at + 4] + r[at + 4..]);
    WindowDetected(ALL_ONES, r[..at], r[at..at + 4], s[at..at + 4], r[at + 4..]);
  }

  /** One digit of the check text. */
  lemma DigitFed(c: bv32, k: nat, d: bv32)
    requires k < 9 && Feed(c, CHECK_TEXT[k]) == d
    ensures FeedAll(c, CHECK_TEXT[k..]) == FeedAll(d, CHECK_TEXT[k + 1..])
  {
    assert CHECK_TEXT[k..][1..] == CHECK_TEXT[k + 1..];
  }

  lemma FirstDigits()
    ensures Feed(0xFFFFFFFF, 0x31) == 0x7C231048
    ensures Feed(0x7C231048, 0x32) == 0xB0ACBB32
    ensures Feed(0xB0ACBB32, 0x33) == 0x77B79C2D
  {}

  lemma MiddleDigits()
    ensures Feed(0x77B79C2D, 0x34) == 0x641C1F5C
    ensures Feed(0x641C1F5C, 0x35) == 0x340AC5E3
    ensures Feed(0x340AC5E3, 0x36) == 0xF68D2C9E
  {}

  lemma LastDigits()
    ensures Feed(0xF68D2C9E, 0x37) == 0xAFFC9660
    ensures Feed(0xAFFC9660, 0x38) == 0x651F2550
    ensures Feed(0x651F2550, 0x39) == 0x340BC6D9
  {}

  /** The published check value of CRC-32. */
  lemma CheckValue()
    ensures Checksum(CHECK_TEXT) == 0xCBF43926
  {
    FirstDigits();
    MiddleDigits();
    LastDigits();
    DigitFed(0xFFFFFFFF, 0, 0x7C231048);
    DigitFed(0x7C231048, 1, 0xB0ACBB32);
    DigitFed(0xB0ACBB32, 2, 0x77B79C2D);
    DigitFed(0x77B79C2D, 3, 0x641C1F5C);
    DigitFed(0x641C1F5C, 4, 0x340AC5E3);
    DigitFed(0x340AC5E3, 5, 0xF68D2C9E);
    DigitFed(0xF68D2C9E, 6, 0xAFFC9660);
    DigitFed(0xAFFC9660, 7, 0x651F2550);
    DigitFed(0x651F2550, 8, 0x340BC6D9);
    assert CHECK_TEXT[0..] == CHECK_TEXT && CHECK_TEXT[9..] == [];
  }
}
