/** How long a LoRa frame is on the air (Semtech AN1200.13), and the deadline the
    receiver sets for a second half. Exact arithmetic over the reals. */
module Airtime {

  const SINGLE_MTU: nat := 255
  const PREAMBLE: nat := 16

  function TwoToThe(n: nat): (p: nat)
    ensures p > 0
  {
    if n == 0 then 1 else 2 * TwoToThe(n - 1)
  }

  /** The settings a stored configuration can hold. */
  predicate Settings(sf: nat, bw: nat, cr: nat) {
    7 <= sf <= 12 && 7800 <= bw <= 500000 && 5 <= cr <= 8
  }

  /** A symbol's duration in milliseconds. */
  function SymbolMs(sf: nat, bw: nat): real
    requires bw > 0
  {
    TwoToThe(sf) as real / bw as real * 1000.0
  }

  /** The quotient, rounded up. */
  function CeilDiv(a: int, d: int): int
    requires d > 0
  {
    -(-a / d)
  }

  lemma CeilDivIsCeiling(a: int, d: int)
    requires d > 0
    ensures (CeilDiv(a, d) - 1) * d < a <= CeilDiv(a, d) * d
  {}

  /** Payload symbols; a symbol of 16 ms or more costs two bits of each group. */
  function PayloadSymbols(sf: nat, bw: nat, cr: nat, bytes: nat): nat
    requires Settings(sf, bw, cr)
  {
    var de := if SymbolMs(sf, bw) >= 16.0 then 1 else 0;
    var n := CeilDiv(8 * bytes - 4 * sf + 28 + 16, 4 * (sf - 2 * de)) * cr;
    if n < 0 then 0 else n
  }

  function AirtimeMs(sf: nat, bw: nat, cr: nat, bytes: nat): real
    requires Settings(sf, bw, cr)
  {
    (PREAMBLE as real + 4.25 + 8.0 + PayloadSymbols(sf, bw, cr, bytes) as real) * SymbolMs(sf, bw)
  }

  /** The airtime as the code keeps it: whole milliseconds. */
  function FrameToaMs(sf: nat, bw: nat, cr: nat, bytes: nat): int
    requires Settings(sf, bw, cr)
  {
    (AirtimeMs(sf, bw, cr, bytes) + 0.5).Floor
  }

  function Clamp(t: int): int {
    if t < 1000 then 1000 else if t > 30000 then 30000 else t
  }

  /** The reassembly deadline for these settings. */
  function Deadline(sf: nat, bw: nat, cr: nat): int
    requires Settings(sf, bw, cr)
  {
    Clamp(2 * FrameToaMs(sf, bw, cr, SINGLE_MTU) + 1000)
  }

  /** The gap between two halves is one full frame's airtime; the deadline is
      meant to leave a second on top of it. */
  predicate LeavesASecond(sf: nat, bw: nat, cr: nat)
    requires Settings(sf, bw, cr)
  {
    Deadline(sf, bw, cr) as real >= AirtimeMs(sf, bw, cr, SINGLE_MTU) + 1000.0
  }

  lemma Powers()
    ensures TwoToThe(7) == 128 && TwoToThe(8) == 256 && TwoToThe(9) == 512
    ensures TwoToThe(10) == 1024 && TwoToThe(11) == 2048 && TwoToThe(12) == 4096
  {
    assert TwoToThe(3) == 8;
    assert TwoToThe(6) == 64;
  }

  lemma ProductBelow(a: real, b: real, c: real, d: real)
    requires 0.0 <= a <= c && 0.0 <= b <= d
    ensures a * b <= c * d
  {
    assert (c - a) * b >= 0.0;
    assert c * (d - b) >= 0.0;
  }

  lemma SignOfFactor(t: real, c: real)
    requires c > 0.0
    ensures t * c >= 0.0 ==> t >= 0.0
    ensures t * c > 0.0 ==> t > 0.0
  {}

  lemma QuotientBelow(p: nat, bw: nat, b: nat)
    requires 0 < b <= bw
    ensures p as real / bw as real <= p as real / b as real
  {
    var x, y := p as real / bw as real, p as real / b as real;
    assert x * bw as real == p as real && y * b as real == p as real;
    ProductBelow(y, b as real, y, bw as real);
    assert (y - x) * bw as real >= 0.0;
    SignOfFactor(y - x, bw as real);
  }

  /** Narrower bands make longer symbols. */
  lemma SymbolBelow(sf: nat, bw: nat, b: nat)
    requires 0 < b <= bw
    ensures 0.0 < SymbolMs(sf, bw) <= SymbolMs(sf, b)
  {
    QuotientBelow(TwoToThe(sf), bw, b);
    var x := TwoToThe(sf) as real / bw as real;
    assert x * bw as real == TwoToThe(sf) as real;
    SignOfFactor(x, bw as real);
  }

  lemma AirtimeIsPositive(sf: nat, bw: nat, cr: nat)
    requires Settings(sf, bw, cr)
    ensures AirtimeMs(sf, bw, cr, SINGLE_MTU) >= 7.0
  {
    Powers();
    SymbolBelow(sf, 500000, bw);
    assert SymbolMs(sf, 500000) >= 0.256;
    ProductBelow(28.0, 0.256, PREAMBLE as real + 4.25 + 8.0 + PayloadSymbols(sf, bw, cr, SINGLE_MTU) as real,
                 SymbolMs(sf, bw));
  }

  /** The deadline: twice a full frame's rounded airtime and a second, at most
      30 s. Its lower bound of a second is never what decides. */
  lemma DeadlineIs(sf: nat, bw: nat, cr: nat)
    requires Settings(sf, bw, cr)
    ensures var t := 2 * FrameToaMs(sf, bw, cr, 255) + 1000;
      Deadline(sf, bw, cr) == (if t > 30000 then 30000 else t) && t > 1000
  {
    AirtimeIsPositive(sf, bw, cr);
  }

  /** The deadline does its job exactly when a full frame takes at most 29 s;
      above that the 30 s cap cuts into the slack. */
  lemma DeadlineSufficesIff(sf: nat, bw: nat, cr: nat)
    requires Settings(sf, bw, cr)
    ensures LeavesASecond(sf, bw, cr) <==> AirtimeMs(sf, bw, cr, SINGLE_MTU) <= 29000.0
  {
    AirtimeIsPositive(sf, bw, cr);
  }

  /** An upper bound on the payload symbols of a full frame, per spreading factor. */
  lemma SymbolsBelow(sf: nat, bw: nat, cr: nat)
    requires Settings(sf, bw, cr)
    ensures PayloadSymbols(sf, bw, cr, SINGLE_MTU)
      <= (if sf == 7 then 824 else if sf == 8 then 688 else if sf == 9 then 592
          else if sf == 10 then 512 else if sf == 11 then 456 else 408)
  {
    var de := if SymbolMs(sf, bw) >= 16.0 then 1 else 0;
    var groups := CeilDiv(8 * 255 - 4 * sf + 28 + 16, 4 * (sf - 2 * de));
    var most := if sf == 7 then 103 else if sf == 8 then 86 else if sf == 9 then 74
                else if sf == 10 then 64 else if sf == 11 then 57 else 51;
    assert groups <= most;
    assert groups * cr <= most * cr <= most * 8;
  }

  lemma AirtimeOf(sf: nat, bw: nat, cr: nat, n: nat, t: real)
    requires Settings(sf, bw, cr) && n == PayloadSymbols(sf, bw, cr, SINGLE_MTU) && t == SymbolMs(sf, bw)
    ensures AirtimeMs(sf, bw, cr, SINGLE_MTU) == (28.25 + n as real) * t
  {}

  lemma SymbolsTimesTick(n: nat, t: real, payload: nat, tick: real, airtime: real)
    requires n <= payload && 0.0 <= t <= tick && airtime == (28.25 + n as real) * t
    ensures airtime <= (28.25 + payload as real) * tick
  {
    ProductBelow(28.25 + n as real, t, 28.25 + payload as real, tick);
  }

  lemma AirtimeBelow(sf: nat, bw: nat, cr: nat, n: nat, t: real, payload: nat, tick: real)
    requires Settings(sf, bw, cr) && n == PayloadSymbols(sf, bw, cr, SINGLE_MTU) && t == SymbolMs(sf, bw)
    requires n <= payload && 0.0 <= t <= tick
    ensures AirtimeMs(sf, bw, cr, SINGLE_MTU) <= (28.25 + payload as real) * tick
  {
    AirtimeOf(sf, bw, cr, n, t);
    SymbolsTimesTick(n, t, payload, tick, AirtimeMs(sf, bw, cr, SINGLE_MTU));
  }

  /** At 62.5 kHz and above every setting gets its second. */
  lemma WideBandsSuffice(sf: nat, bw: nat, cr: nat)
    requires Settings(sf, bw, cr) && bw >= 62500
    ensures LeavesASecond(sf, bw, cr)
  {
    Powers();
    SymbolsBelow(sf, bw, cr);
    DeadlineSufficesIff(sf, bw, cr);
    SymbolBelow(sf, bw, 62500);
    var n, t := PayloadSymbols(sf, bw, cr, SINGLE_MTU), SymbolMs(sf, bw);
    if sf <= 9 {
      AirtimeBelow(sf, bw, cr, n, t, 824, 8.192);
    } else if sf == 10 {
      AirtimeBelow(sf, bw, cr, n, t, 512, 16.384);
    } else if sf == 11 {
      AirtimeBelow(sf, bw, cr, n, t, 456, 32.768);
    } else {
      AirtimeBelow(sf, bw, cr, n, t, 408, 65.536);
    }
  }

  /** Below that the cap can expire a first half before its second can possibly
      arrive: SF12 at 41.7 kHz with coding rate 4/8. */
  lemma NarrowBandCutOff()
    ensures Settings(12, 41700, 8) && !LeavesASecond(12, 41700, 8)
    ensures Deadline(12, 41700, 8) as real < AirtimeMs(12, 41700, 8, SINGLE_MTU)
  {
    Powers();
    assert SymbolMs(12, 41700) >= 98.0;
    assert PayloadSymbols(12, 41700, 8, SINGLE_MTU) == 408;
    ProductBelow(436.0, 98.0, 436.25, SymbolMs(12, 41700));
    DeadlineSufficesIff(12, 41700, 8);
  }

  /** The number of groups is the least one that holds all bits. */
  lemma GroupsHoldAllBits(sf: nat, bw: nat, cr: nat, bytes: nat) returns (groups: int)
    requires Settings(sf, bw, cr) && 8 * bytes + 44 > 4 * sf
    ensures PayloadSymbols(sf, bw, cr, bytes) == groups * cr
    ensures var bits := if TwoToThe(sf) as real * 1000.0 >= 16.0 * bw as real then sf - 2 else sf;
      (groups - 1) * (4 * bits) < 8 * bytes - 4 * sf + 28 + 16 <= groups * (4 * bits)
  {
    var de := if SymbolMs(sf, bw) >= 16.0 then 1 else 0;
    var d := 4 * (sf - 2 * de);
    groups := CeilDiv(8 * bytes - 4 * sf + 28 + 16, d);
    CeilDivIsCeiling(8 * bytes - 4 * sf + 28 + 16, d);
    SlowSymbols(sf, bw);
    PositiveFactor(groups, d);
  }

  lemma PositiveFactor(a: int, d: int)
    requires d > 0 && a * d > 0
    ensures a > 0
  {}

  lemma SlowSymbols(sf: nat, bw: nat)
    requires bw > 0
    ensures SymbolMs(sf, bw) >= 16.0 <==> TwoToThe(sf) as real * 1000.0 >= 16.0 * bw as real
  {
    var x := TwoToThe(sf) as real / bw as real;
    assert x * bw as real == TwoToThe(sf) as real;
    assert (x * 1000.0 - 16.0) * bw as real == TwoToThe(sf) as real * 1000.0 - 16.0 * bw as real;
    SignOfFactor(x * 1000.0 - 16.0, bw as real);
    SignOfFactor(16.0 - x * 1000.0, bw as real);
  }

  /** Three settings in numbers: a 255-byte frame takes 408 ms at SF7, 2361 ms at
      SF10 and 9282 ms at SF12, all at 125 kHz and coding rate 4/5. */
  lemma KnownAirtimes()
    ensures FrameToaMs(7, 125000, 5, 255) == 408 && Deadline(7, 125000, 5) == 1816
    ensures FrameToaMs(10, 125000, 5, 255) == 2361 && Deadline(10, 125000, 5) == 5722
    ensures FrameToaMs(12, 125000, 5, 255) == 9282 && Deadline(12, 125000, 5) == 19564
    ensures Deadline(12, 41700, 8) == 30000
  {
    Powers();
    assert SymbolMs(7, 125000) == 1.024 && PayloadSymbols(7, 125000, 5, 255) == 370;
    assert SymbolMs(10, 125000) == 8.192 && PayloadSymbols(10, 125000, 5, 255) == 260;
    assert SymbolMs(12, 125000) == 32.768 && PayloadSymbols(12, 125000, 5, 255) == 255;
    NarrowBandCutOff();
    DeadlineSufficesIff(12, 41700, 8);
  }
}
