/** The CRC-16 of the DFU packets: the client's five shift-and-xor lines a byte,
    against the bit-at-a-time definition with polynomial 0x1021. */
module Crc16 {
  import opened Bits

  const INITIAL: bv32 := 0xFFFF

  // ---- The definition, one bit at a time -----------------------------

  /** Shift the 16-bit register left; fold the polynomial in when the bit that
      left was set. */
  function BitStep(crc: bv32): bv32 {
    if crc & 0x8000 != 0 then ((crc << 1) ^ 0x1021) & 0xFFFF else (crc << 1) & 0xFFFF
  }

  function FourSteps(crc: bv32): bv32 {
    BitStep(BitStep(BitStep(BitStep(crc))))
  }

  function EightSteps(crc: bv32): bv32 {
    FourSteps(FourSteps(crc))
  }

  /** One data byte enters at the top of the register. */
  function Enter(crc: bv32, w: bv32): bv32 {
    crc ^ (w << 8)
  }

  function Feed(crc: bv32, b: byte): bv32 {
    EightSteps(Enter(crc, Wide(b)))
  }

  function FeedAll(crc: bv32, data: seq<byte>): bv32
    decreases data
  {
    if data == [] then crc else FeedAll(Feed(crc, data[0]), data[1..])
  }

  function Checksum(data: seq<byte>): bv32 {
    FeedAll(INITIAL, data)
  }

  // ---- The client's five lines, on JavaScript's 32-bit integers --------

  function Line1(c: bv32): bv32 { ((c >> 8) & 0x00FF) | ((c << 8) & 0xFF00) }
  function Line2(c: bv32, b: bv32): bv32 { c ^ b }
  function Line3(c: bv32): bv32 { c ^ ((c & 0x00FF) >> 4) }
  function Line4(c: bv32): bv32 { c ^ ((c << 8) << 4) }
  function Line5(c: bv32): bv32 { c ^ (((c & 0x00FF) << 4) << 1) }

  function LowLines(c: bv32, b: bv32): bv32 { Line3(Line2(Line1(c), b)) }
  function Masked(c: bv32): bv32 { c & 0xFFFF }
  function HighLines(c: bv32): bv32 { Masked(Line5(Line4(c))) }

  function FiveLines(c: bv32, b: bv32): bv32 {
    HighLines(LowLines(c, b))
  }

  method Compute(data: seq<byte>) returns (crc: bv32)
    ensures crc == Checksum(data)
  {
    crc := INITIAL;
    for i := 0 to |data|
      invariant crc < 0x1_0000
      invariant FeedAll(crc, data[i..]) == Checksum(data)
    {
      FiveLinesAreFeed(crc, data[i]);
      assert data[i..][1..] == data[i + 1..];
      crc := OneByte(crc, data[i]);
    }
  }

  /** The five lines and the mask, one after the other. */
  method OneByte(crc: bv32, b: byte) returns (c: bv32)
    ensures c == FiveLines(crc, Wide(b))
  {
    c := ThreeLines(crc, Wide(b));
    c := TwoLines(c);
  }

  method ThreeLines(crc: bv32, b: bv32) returns (c: bv32)
    ensures c == LowLines(crc, b)
  {
    c := Line1(crc);
    c := Line2(c, b);
    c := Line3(c);
  }

  method TwoLines(crc: bv32) returns (c: bv32)
    ensures c == HighLines(crc)
  {
    c := Line4(crc);
    c := Line5(c);
    c := Masked(c);
  }

  // ---- Four bit steps at once: the bits that leave, folded back in -----

  lemma StepSet(c: bv32)
    requires c < 0x1_0000 && c & 0x8000 != 0
    ensures ((c << 1) ^ 0x1021) & 0xFFFF == ((c << 1) ^ (c >> 15) ^ ((c >> 15) << 5) ^ ((c >> 15) << 12)) & 0xFFFF
  {}

  lemma StepClear(c: bv32)
    requires c < 0x1_0000 && c & 0x8000 == 0
    ensures (c << 1) & 0xFFFF == ((c << 1) ^ (c >> 15) ^ ((c >> 15) << 5) ^ ((c >> 15) << 12)) & 0xFFFF
  {}

  lemma OneStep(c: bv32)
    requires c < 0x1_0000
    ensures BitStep(c) == ((c << 1) ^ (c >> 15) ^ ((c >> 15) << 5) ^ ((c >> 15) << 12)) & 0xFFFF
  {
    if c & 0x8000 != 0 {
      StepSet(c);
    } else {
      StepClear(c);
    }
  }

  lemma StepIsHalfword(c: bv32)
    ensures BitStep(c) < 0x1_0000
  {}

  lemma SecondStep(c: bv32, d: bv32, e: bv32)
    requires c < 0x1_0000
    requires d == ((c << 1) ^ (c >> 15) ^ ((c >> 15) << 5) ^ ((c >> 15) << 12)) & 0xFFFF
    requires e == ((d << 1) ^ (d >> 15) ^ ((d >> 15) << 5) ^ ((d >> 15) << 12)) & 0xFFFF
    ensures e == ((c << 2) ^ (c >> 14) ^ ((c >> 14) << 5) ^ ((c >> 14) << 12)) & 0xFFFF
  {}

  lemma ThirdStep(c: bv32, d: bv32, e: bv32)
    requires c < 0x1_0000
    requires d == ((c << 2) ^ (c >> 14) ^ ((c >> 14) << 5) ^ ((c >> 14) << 12)) & 0xFFFF
    requires e == ((d << 1) ^ (d >> 15) ^ ((d >> 15) << 5) ^ ((d >> 15) << 12)) & 0xFFFF
    ensures e == ((c << 3) ^ (c >> 13) ^ ((c >> 13) << 5) ^ ((c >> 13) << 12)) & 0xFFFF
  {}

  lemma FourthStep(c: bv32, d: bv32, e: bv32)
    requires c < 0x1_0000
    requires d == ((c << 3) ^ (c >> 13) ^ ((c >> 13) << 5) ^ ((c >> 13) << 12)) & 0xFFFF
    requires e == ((d << 1) ^ (d >> 15) ^ ((d >> 15) << 5) ^ ((d >> 15) << 12)) & 0xFFFF
    ensures e == ((c << 4) ^ (c >> 12) ^ ((c >> 12) << 5) ^ ((c >> 12) << 12)) & 0xFFFF
  {}

  lemma FourStepsFold(c: bv32)
    requires c < 0x1_0000
    ensures FourSteps(c) == ((c << 4) ^ (c >> 12) ^ ((c >> 12) << 5) ^ ((c >> 12) << 12)) & 0xFFFF
  {
    var c1 := BitStep(c);
    var c2 := BitStep(c1);
    var c3 := BitStep(c2);
    var c4 := BitStep(c3);
    StepIsHalfword(c);
    StepIsHalfword(c1);
    StepIsHalfword(c2);
    OneStep(c);
    OneStep(c1);
    OneStep(c2);
    OneStep(c3);
    SecondStep(c, c1, c2);
    ThirdStep(c, c2, c3);
    FourthStep(c, c3, c4);
  }

  // ---- Eight bit steps, for h = low byte, g = high byte, x = g ^ data ---

  lemma EnterTop(c: bv32, w: bv32, h: bv32, g: bv32, x: bv32, d: bv32)
    requires c < 0x1_0000 && w < 0x100 && h == c & 0xFF && g == c >> 8 && x == g ^ w
    requires d == c ^ (w << 8)
    ensures d == (x << 8) ^ h && x < 0x100 && h < 0x100 && d < 0x1_0000
  {}

  lemma FirstNibble(x: bv32, h: bv32, d: bv32, e: bv32)
    requires x < 0x100 && h < 0x100 && d == (x << 8) ^ h
    requires e == ((d << 4) ^ (d >> 12) ^ ((d >> 12) << 5) ^ ((d >> 12) << 12)) & 0xFFFF
    ensures e == ((x << 12) ^ (h << 4) ^ (x >> 4) ^ ((x >> 4) << 5) ^ ((x >> 4) << 12)) & 0xFFFF
  {}

  lemma SecondNibble(x: bv32, h: bv32, y: bv32, d: bv32, e: bv32)
    requires x < 0x100 && h < 0x100 && y == x ^ (x >> 4)
    requires d == ((x << 12) ^ (h << 4) ^ (x >> 4) ^ ((x >> 4) << 5) ^ ((x >> 4) << 12)) & 0xFFFF
    requires e == ((d << 4) ^ (d >> 12) ^ ((d >> 12) << 5) ^ ((d >> 12) << 12)) & 0xFFFF
    ensures e == ((h << 8) ^ y ^ (y << 5) ^ (y << 12)) & 0xFFFF
  {}

  lemma EnterFold(c: bv32, w: bv32, h: bv32, g: bv32, x: bv32)
    requires c < 0x1_0000 && w < 0x100 && h == c & 0xFF && g == c >> 8 && x == g ^ w
    ensures Enter(c, w) == (x << 8) ^ h && x < 0x100 && h < 0x100 && Enter(c, w) < 0x1_0000
  {
    EnterTop(c, w, h, g, x, Enter(c, w));
  }

  lemma FirstFourSteps(x: bv32, h: bv32, d: bv32)
    requires x < 0x100 && h < 0x100 && d < 0x1_0000 && d == (x << 8) ^ h
    ensures FourSteps(d) == ((x << 12) ^ (h << 4) ^ (x >> 4) ^ ((x >> 4) << 5) ^ ((x >> 4) << 12)) & 0xFFFF
  {
    FourStepsFold(d);
    FirstNibble(x, h, d, FourSteps(d));
  }

  lemma EnterIsHalfword(c: bv32, w: bv32)
    requires c < 0x1_0000 && w < 0x100
    ensures Enter(c, w) < 0x1_0000
  {}

  lemma FourStepsAreHalfwords(c: bv32)
    ensures FourSteps(c) < 0x1_0000
  {
    StepIsHalfword(BitStep(BitStep(BitStep(c))));
  }

  lemma EightStepsOf(x: bv32, h: bv32, y: bv32, d: bv32)
    requires x < 0x100 && h < 0x100 && d < 0x1_0000 && d == (x << 8) ^ h && y == x ^ (x >> 4)
    ensures EightSteps(d) == ((h << 8) ^ y ^ (y << 5) ^ (y << 12)) & 0xFFFF
  {
    FirstFourSteps(x, h, d);
    FourStepsAreHalfwords(d);
    LastFourSteps(x, h, y, FourSteps(d));
  }

  lemma EightStepsFold(c: bv32, w: bv32, h: bv32, g: bv32, x: bv32, y: bv32)
    requires c < 0x1_0000 && w < 0x100 && h == c & 0xFF && g == c >> 8 && x == g ^ w && y == x ^ (x >> 4)
    ensures EightSteps(Enter(c, w)) == ((h << 8) ^ y ^ (y << 5) ^ (y << 12)) & 0xFFFF
  {
    EnterFold(c, w, h, g, x);
    EightStepsOf(x, h, y, Enter(c, w));
  }

  lemma LastFourSteps(x: bv32, h: bv32, y: bv32, d: bv32)
    requires x < 0x100 && h < 0x100 && y == x ^ (x >> 4) && d < 0x1_0000
    requires d == ((x << 12) ^ (h << 4) ^ (x >> 4) ^ ((x >> 4) << 5) ^ ((x >> 4) << 12)) & 0xFFFF
    ensures FourSteps(d) == ((h << 8) ^ y ^ (y << 5) ^ (y << 12)) & 0xFFFF
  {
    FourStepsFold(d);
    SecondNibble(x, h, y, d, FourSteps(d));
  }

  // ---- The five lines, one after the other ------------------------------

  lemma Line1Swaps(c: bv32, h: bv32, g: bv32)
    requires c < 0x1_0000 && h == c & 0xFF && g == c >> 8
    ensures Line1(c) == (h << 8) ^ g && h < 0x100 && g < 0x100
  {}

  lemma Line2Enters(h: bv32, g: bv32, w: bv32, x: bv32, d: bv32)
    requires h < 0x100 && g < 0x100 && w < 0x100 && d == (h << 8) ^ g && x == g ^ w
    ensures Line2(d, w) == (h << 8) ^ x && x < 0x100
  {
    EnterLow(h, g, w, d, Line2(d, w));
  }

  lemma EnterLow(h: bv32, g: bv32, w: bv32, d: bv32, e: bv32)
    requires h < 0x100 && g < 0x100 && w < 0x100 && d == (h << 8) ^ g && e == d ^ w
    ensures e == (h << 8) ^ (g ^ w) && g ^ w < 0x100
  {}

  lemma FirstTwoLines(c: bv32, w: bv32, h: bv32, g: bv32, x: bv32)
    requires c < 0x1_0000 && w < 0x100 && h == c & 0xFF && g == c >> 8 && x == g ^ w
    ensures Line2(Line1(c), w) == (h << 8) ^ x && x < 0x100 && h < 0x100
  {
    Line1Swaps(c, h, g);
    Line2Enters(h, g, w, x, Line1(c));
  }

  lemma NibbleFold(x: bv32, h: bv32, y: bv32, d: bv32, e: bv32)
    requires x < 0x100 && h < 0x100 && y == x ^ (x >> 4)
    requires d == (h << 8) ^ x && e == d ^ ((d & 0x00FF) >> 4)
    ensures e == (h << 8) ^ y && y < 0x100
  {}

  lemma Line3Folds(x: bv32, h: bv32, y: bv32, d: bv32)
    requires x < 0x100 && h < 0x100 && y == x ^ (x >> 4) && d == (h << 8) ^ x
    ensures Line3(d) == (h << 8) ^ y && y < 0x100
  {
    NibbleFold(x, h, y, d, Line3(d));
  }

  lemma LowLinesFold(c: bv32, w: bv32, h: bv32, g: bv32, x: bv32, y: bv32)
    requires c < 0x1_0000 && w < 0x100 && h == c & 0xFF && g == c >> 8 && x == g ^ w && y == x ^ (x >> 4)
    ensures LowLines(c, w) == (h << 8) ^ y && y < 0x100 && h < 0x100
  {
    FirstTwoLines(c, w, h, g, x);
    Line3Folds(x, h, y, Line2(Line1(c), w));
  }

  lemma WideShift(h: bv32, y: bv32, d: bv32, e: bv32)
    requires d == (h << 8) ^ y && e == d ^ ((d << 8) << 4)
    ensures e == (h << 8) ^ y ^ (h << 20) ^ (y << 12)
  {}

  lemma Line4Folds(h: bv32, y: bv32, d: bv32)
    requires d == (h << 8) ^ y
    ensures Line4(d) == (h << 8) ^ y ^ (h << 20) ^ (y << 12)
  {
    WideShift(h, y, d, Line4(d));
  }

  lemma WideBitsDrop(h: bv32, y: bv32, d: bv32, e: bv32)
    requires h < 0x100 && y < 0x100
    requires d == (h << 8) ^ y ^ (h << 20) ^ (y << 12) && e == d ^ (((d & 0x00FF) << 4) << 1)
    ensures e & 0xFFFF == ((h << 8) ^ y ^ (y << 5) ^ (y << 12)) & 0xFFFF
  {}

  lemma Line5Folds(h: bv32, y: bv32, d: bv32)
    requires h < 0x100 && y < 0x100 && d == (h << 8) ^ y ^ (h << 20) ^ (y << 12)
    ensures Line5(d) & 0xFFFF == ((h << 8) ^ y ^ (y << 5) ^ (y << 12)) & 0xFFFF
  {
    WideBitsDrop(h, y, d, Line5(d));
  }

  lemma HighLinesFold(h: bv32, y: bv32, d: bv32)
    requires h < 0x100 && y < 0x100 && d == (h << 8) ^ y
    ensures HighLines(d) == ((h << 8) ^ y ^ (y << 5) ^ (y << 12)) & 0xFFFF
  {
    Line4Folds(h, y, d);
    Line5Folds(h, y, Line4(d));
  }

  lemma FiveLinesFold(c: bv32, w: bv32, h: bv32, g: bv32, x: bv32, y: bv32)
    requires c < 0x1_0000 && w < 0x100 && h == c & 0xFF && g == c >> 8 && x == g ^ w && y == x ^ (x >> 4)
    ensures FiveLines(c, w) == ((h << 8) ^ y ^ (y << 5) ^ (y << 12)) & 0xFFFF
  {
    LowLinesFold(c, w, h, g, x, y);
    HighLinesFold(h, y, LowLines(c, w));
  }

  lemma BothFolds(c: bv32, w: bv32, h: bv32, g: bv32, x: bv32, y: bv32)
    requires c < 0x1_0000 && w < 0x100 && h == c & 0xFF && g == c >> 8 && x == g ^ w && y == x ^ (x >> 4)
    ensures FiveLines(c, w) == EightSteps(Enter(c, w))
  {
    FiveLinesFold(c, w, h, g, x, y);
    EightStepsFold(c, w, h, g, x, y);
  }

  lemma FiveLinesAreFeed(c: bv32, b: byte)
    requires c < 0x1_0000
    ensures FiveLines(c, Wide(b)) == Feed(c, b) < 0x1_0000
  {
    var w := Wide(b);
    WideIsSmall(b);
    var g := c >> 8;
    var x := g ^ w;
    BothFolds(c, w, c & 0xFF, g, x, x ^ (x >> 4));
    HighLinesAreHalfwords(LowLines(c, w));
  }

  lemma HighLinesAreHalfwords(c: bv32)
    ensures HighLines(c) < 0x1_0000
  {}

  // ---- A wrong byte is noticed ------------------------------------------

  lemma SetStep(c: bv32, e: bv32)
    requires c & 0x8000 != 0 && e == BitStep(c)
    ensures e == ((c << 1) ^ 0x1021) & 0xFFFF
  {}

  lemma ClearStep(c: bv32, e: bv32)
    requires c & 0x8000 == 0 && e == BitStep(c)
    ensures e == (c << 1) & 0xFFFF
  {}

  lemma BothSet(c: bv32, d: bv32, e: bv32)
    requires c < 0x1_0000 && d < 0x1_0000 && c & 0x8000 != 0 && d & 0x8000 != 0
    requires e == ((c << 1) ^ 0x1021) & 0xFFFF && e == ((d << 1) ^ 0x1021) & 0xFFFF
    ensures c == d
  {}

  lemma BothClear(c: bv32, d: bv32, e: bv32)
    requires c < 0x1_0000 && d < 0x1_0000 && c & 0x8000 == 0 && d & 0x8000 == 0
    requires e == (c << 1) & 0xFFFF && e == (d << 1) & 0xFFFF
    ensures c == d
  {}

  lemma LowBitTells(c: bv32, e: bv32)
    ensures e == ((c << 1) ^ 0x1021) & 0xFFFF ==> e & 1 == 1
    ensures e == (c << 1) & 0xFFFF ==> e & 1 == 0
  {}

  lemma SetMeetsSet(c: bv32, d: bv32, e: bv32)
    requires c < 0x1_0000 && d < 0x1_0000 && e == BitStep(c) == BitStep(d)
    requires c & 0x8000 != 0 && d & 0x8000 != 0
    ensures c == d
  {
    SetStep(c, e);
    SetStep(d, e);
    BothSet(c, d, e);
  }

  lemma ClearMeetsClear(c: bv32, d: bv32, e: bv32)
    requires c < 0x1_0000 && d < 0x1_0000 && e == BitStep(c) == BitStep(d)
    requires c & 0x8000 == 0 && d & 0x8000 == 0
    ensures c == d
  {
    ClearStep(c, e);
    ClearStep(d, e);
    BothClear(c, d, e);
  }

  /** The step's low bit says whether the polynomial was folded in. */
  lemma StepLowBit(c: bv32, e: bv32)
    requires e == BitStep(c)
    ensures e & 1 == 1 <==> c & 0x8000 != 0
  {
    LowBitTells(c, e);
    if c & 0x8000 != 0 {
      SetStep(c, e);
    } else {
      ClearStep(c, e);
    }
  }

  lemma StepInjective(c: bv32, d: bv32)
    requires c < 0x1_0000 && d < 0x1_0000 && BitStep(c) == BitStep(d)
    ensures c == d
  {
    var e := BitStep(c);
    StepLowBit(c, e);
    StepLowBit(d, e);
    if c & 0x8000 != 0 {
      SetMeetsSet(c, d, e);
    } else {
      ClearMeetsClear(c, d, e);
    }
  }

  lemma FourStepsInjective(c: bv32, d: bv32)
    requires c < 0x1_0000 && d < 0x1_0000 && FourSteps(c) == FourSteps(d)
    ensures c == d
  {
    var c1, d1 := BitStep(c), BitStep(d);
    var c2, d2 := BitStep(c1), BitStep(d1);
    var c3, d3 := BitStep(c2), BitStep(d2);
    StepIsHalfword(c);
    StepIsHalfword(d);
    StepIsHalfword(c1);
    StepIsHalfword(d1);
    StepIsHalfword(c2);
    StepIsHalfword(d2);
    StepInjective(c3, d3);
    StepInjective(c2, d2);
    StepInjective(c1, d1);
    StepInjective(c, d);
  }

  lemma EightStepsInjective(c: bv32, d: bv32)
    requires c < 0x1_0000 && d < 0x1_0000 && EightSteps(c) == EightSteps(d)
    ensures c == d
  {
    FourStepsAreHalfwords(c);
    FourStepsAreHalfwords(d);
    FourStepsInjective(FourSteps(c), FourSteps(d));
    FourStepsInjective(c, d);
  }

  lemma EnterInjective(c: bv32, d: bv32, u: bv32, w: bv32)
    requires u < 0x100 && w < 0x100
    ensures Enter(c, w) == Enter(d, w) ==> c == d
    ensures Enter(c, u) == Enter(c, w) ==> u == w
  {}

  lemma FeedIsHalfword(c: bv32, b: byte)
    ensures Feed(c, b) < 0x1_0000
  {
    FourStepsAreHalfwords(FourSteps(Enter(c, Wide(b))));
  }

  lemma FeedInjective(c: bv32, d: bv32, b: byte)
    requires c < 0x1_0000 && d < 0x1_0000 && Feed(c, b) == Feed(d, b)
    ensures c == d
  {
    WideIsSmall(b);
    EnterIsHalfword(c, Wide(b));
    EnterIsHalfword(d, Wide(b));
    EightStepsInjective(Enter(c, Wide(b)), Enter(d, Wide(b)));
    EnterInjective(c, d, Wide(b), Wide(b));
  }

  lemma FedByteTold(c: bv32, a: byte, b: byte)
    requires c < 0x1_0000 && Feed(c, a) == Feed(c, b)
    ensures a == b
  {
    WideIsSmall(a);
    WideIsSmall(b);
    EnterIsHalfword(c, Wide(a));
    EnterIsHalfword(c, Wide(b));
    EightStepsInjective(Enter(c, Wide(a)), Enter(c, Wide(b)));
    EnterInjective(c, c, Wide(a), Wide(b));
    WideInjective(a, b);
  }

  lemma {:induction false} FeedAllInjective(c: bv32, d: bv32, data: seq<byte>)
    requires c < 0x1_0000 && d < 0x1_0000 && FeedAll(c, data) == FeedAll(d, data)
    ensures c == d
    decreases data
  {
    if data != [] {
      FeedIsHalfword(c, data[0]);
      FeedIsHalfword(d, data[0]);
      FeedAllInjective(Feed(c, data[0]), Feed(d, data[0]), data[1..]);
      FeedInjective(c, d, data[0]);
    }
  }

  lemma {:induction false} SingleByteTold(c: bv32, a: seq<byte>, b: seq<byte>, at: nat)
    requires c < 0x1_0000 && |a| == |b| && at < |a|
    requires a[..at] == b[..at] && a[at + 1..] == b[at + 1..]
    requires FeedAll(c, a) == FeedAll(c, b)
    ensures a == b
    decreases at
  {
    FeedIsHalfword(c, a[0]);
    FeedIsHalfword(c, b[0]);
    if at == 0 {
      FeedAllInjective(Feed(c, a[0]), Feed(c, b[0]), a[1..]);
      FedByteTold(c, a[0], b[0]);
      assert a == [a[0]] + a[1..] && b == [b[0]] + b[1..];
    } else {
      assert a[0] == a[..at][0] && b[0] == b[..at][0];
      assert a[1..][..at - 1] == a[..at][1..] && b[1..][..at - 1] == b[..at][1..];
      SingleByteTold(Feed(c, a[0]), a[1..], b[1..], at - 1);
      assert a == [a[0]] + a[1..] && b == [b[0]] + b[1..];
    }
  }

  /** Bodies of one length that differ in exactly one byte have different
      checksums. */
  lemma WrongByteDetected(a: seq<byte>, b: seq<byte>, at: nat)
    requires |a| == |b| && at < |a| && a[at] != b[at]
    requires a[..at] == b[..at] && a[at + 1..] == b[at + 1..]
    ensures Checksum(a) != Checksum(b)
  {
    if Checksum(a) == Checksum(b) {
      SingleByteTold(INITIAL, a, b, at);
    }
  }

  lemma {:induction false} FedIsHalfword(c: bv32, data: seq<byte>)
    requires c < 0x1_0000
    ensures FeedAll(c, data) < 0x1_0000
    decreases data
  {
    if data != [] {
      FeedIsHalfword(c, data[0]);
      FedIsHalfword(Feed(c, data[0]), data[1..]);
    }
  }

  lemma ChecksumIsHalfword(data: seq<byte>)
    ensures Checksum(data) < 0x1_0000
  {
    FedIsHalfword(INITIAL, data);
  }
  /** One digit of the check text. */
  lemma DigitFed(c: bv32, k: nat, d: bv32)
    requires k < 9 && Feed(c, CHECK_TEXT[k]) == d
    ensures FeedAll(c, CHECK_TEXT[k..]) == FeedAll(d, CHECK_TEXT[k + 1..])
  {
    assert CHECK_TEXT[k..][1..] == CHECK_TEXT[k + 1..];
  }

  lemma FirstDigits()
    ensures Feed(0xFFFF, 0x31) == 0xC782
    ensures Feed(0xC782, 0x32) == 0x3DBA
    ensures Feed(0x3DBA, 0x33) == 0x5BCE
  {}

  lemma MiddleDigits()
    ensures Feed(0x5BCE, 0x34) == 0x5349
    ensures Feed(0x5349, 0x35) == 0x4560
    ensures Feed(0x4560, 0x36) == 0x2EF4
  {}

  lemma LastDigits()
    ensures Feed(0x2EF4, 0x37) == 0x7718
    ensures Feed(0x7718, 0x38) == 0xA12B
    ensures Feed(0xA12B, 0x39) == 0x29B1
  {}

  /** The published check value of CRC-16/CCITT-FALSE. */
  lemma CheckValue()
    ensures Checksum(CHECK_TEXT) == 0x29B1
  {
    FirstDigits();
    MiddleDigits();
    LastDigits();
    DigitFed(0xFFFF, 0, 0xC782);
    DigitFed(0xC782, 1, 0x3DBA);
    DigitFed(0x3DBA, 2, 0x5BCE);
    DigitFed(0x5BCE, 3, 0x5349);
    DigitFed(0x5349, 4, 0x4560);
    DigitFed(0x4560, 5, 0x2EF4);
    DigitFed(0x2EF4, 6, 0x7718);
    DigitFed(0x7718, 7, 0xA12B);
    DigitFed(0xA12B, 8, 0x29B1);
    assert CHECK_TEXT[0..] == CHECK_TEXT && CHECK_TEXT[9..] == [];
  }
}
