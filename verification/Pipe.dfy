/** The one-line form of the configuration: printed with a separator between
    fields, split again in place by the Bluetooth writer. */
module Pipe {
  import opened Basics
  import opened Bits
  import opened ConfigRecord
  import opened Staging
  import Command
  import Numbers

  const FIELD_COUNT: nat := 20
  const PIPE_BUF_SIZE: nat := 224

  /** The floating-point fields as printed. */
  datatype FloatTexts = FloatTexts(batt: seq<byte>, latitude: seq<byte>, longitude: seq<byte>)

  /** The order of the fields on the line. */
  function KeyAt(i: nat): Key {
    if i == 0 then DisplayName
    else if i == 1 then FreqHz
    else if i == 2 then BwHz
    else if i == 3 then SpreadingFactor
    else if i == 4 then CodingRate
    else if i == 5 then TxpDbm
    else if i == 6 then BattMult
    else if i == 7 then TeleInterval
    else if i == 8 then LxmfInterval
    else if i == 9 then Telemetry
    else if i == 10 then Lxmf
    else if i == 11 then Heartbeat
    else if i == 12 then BtEnabled
    else if i == 13 then BtPin
    else if i == 14 then Latitude
    else if i == 15 then Longitude
    else if i == 16 then Altitude
    else if i == 17 then LogLevel
    else if i == 18 then Collector
    else TxEnabled
  }

  // ---- Printing ------------------------------------------------------------------

  function BoolText(b: bool): seq<byte> {
    if b then T_ONE else T_ZERO
  }

  function HexDigit(n: nat): byte
    requires n < 16
  {
    if n < 10 then 0x30 + n else 0x61 + n - 10
  }

  /** The hash in lower-case hex; an unset one prints as nothing. */
  function HexOf(hash: seq<byte>): seq<byte> {
    if forall i | 0 <= i < |hash| :: hash[i] == 0 then []
    else seq(2 * |hash|, i requires 0 <= i < 2 * |hash| => HexDigit(NibbleAt(hash, i)))
  }

  function FieldText(c: Config, key: Key, texts: FloatTexts): seq<byte> {
    match key
    case DisplayName => Command.CString(c.name)
    case FreqHz => Numbers.Decimal(c.freqHz)
    case BwHz => Numbers.Decimal(c.bwHz)
    case SpreadingFactor => Numbers.Decimal(c.sf)
    case CodingRate => Numbers.Decimal(c.cr)
    case TxpDbm => Numbers.DecimalSigned(c.txpDbm)
    case BattMult => texts.batt
    case TeleInterval => Numbers.Decimal(c.teleMs)
    case LxmfInterval => Numbers.Decimal(c.lxmfMs)
    case Telemetry => BoolText(c.flags.telemetry)
    case Lxmf => BoolText(c.flags.lxmf)
    case Heartbeat => BoolText(c.flags.heartbeat)
    case BtEnabled => BoolText(c.flags.btEnabled)
    case BtPin => Numbers.Decimal(c.btPin)
    case Latitude => texts.latitude
    case Longitude => texts.longitude
    case Altitude => Numbers.DecimalSigned(c.altitude)
    case LogLevel => Numbers.Decimal(c.logLevel)
    case Collector => HexOf(c.collector)
    case TxEnabled => BoolText(!c.flags.txDisabled)
    case _ => []
  }

  /** The twenty texts of a line. */
  function FieldTexts(c: Config, texts: FloatTexts): (ts: seq<seq<byte>>)
    ensures |ts| == FIELD_COUNT
  {
    seq(FIELD_COUNT, i requires 0 <= i < FIELD_COUNT => FieldText(c, KeyAt(i), texts))
  }

  /** The texts from `i` on, a separator between each two. */
  function Joined(ts: seq<seq<byte>>, i: nat): seq<byte>
    decreases |ts| - i
  {
    if i >= |ts| then [] else if i == |ts| - 1 then ts[i] else ts[i] + [SEPARATOR] + Joined(ts, i + 1)
  }

  function Line(c: Config, texts: FloatTexts): seq<byte> {
    Joined(FieldTexts(c, texts), 0)
  }

  // ---- Splitting ---------------------------------------------------------------------

  /** The place of the first separator, or the length. */
  function FirstSeparator(p: seq<byte>): (at: nat)
    ensures at <= |p|
  {
    if p == [] || p[0] == SEPARATOR then 0 else 1 + FirstSeparator(p[1..])
  }

  /** A rejected field leaves the old value. */
  function SetOrKeep(s: Config, key: Key, v: seq<byte>, oracle: Oracle): Config {
    match SetField(s, key, v, oracle)
    case None => s
    case Some(s') => s'
  }

  /** How the field in place `i` of a line is set. */
  type Setter = (Config, nat, seq<byte>) -> Config

  function FieldSetter(oracle: Oracle): Setter {
    (c: Config, i: nat, v: seq<byte>) => SetOrKeep(c, KeyAt(i), v, oracle)
  }

  /** The staging area after the fields of `p` are applied from place `i` on. */
  function Apply(s: Config, p: seq<byte>, i: nat, set_: Setter): Config
    decreases FIELD_COUNT - i
  {
    if i >= FIELD_COUNT then s
    else
      var at := FirstSeparator(p);
      var s' := set_(s, i, p[..at]);
      if at == |p| then s' else Apply(s', p[at + 1..], i + 1, set_)
  }

  /** What a write of `data` makes of the staging area: at most 223 bytes count,
      and only up to a NUL. */
  function Written(s: Config, data: seq<byte>, oracle: Oracle): Config {
    var kept := if |data| < PIPE_BUF_SIZE then data else data[..PIPE_BUF_SIZE - 1];
    Apply(s, Command.CString(kept), 0, FieldSetter(oracle))
  }

  lemma ApplyStep(s: Config, p: seq<byte>, i: nat, set_: Setter, s': Config)
    requires i < FIELD_COUNT && s' == set_(s, i, p[..FirstSeparator(p)])
    ensures var at := FirstSeparator(p);
      Apply(s, p, i, set_) == if at == |p| then s' else Apply(s', p[at + 1..], i + 1, set_)
  {}

  lemma KeptIsFit(s: Config, key: Key, v: seq<byte>, oracle: Oracle)
    requires Fit(s)
    ensures KeepsFit(s, SetOrKeep(s, key, v, oracle))
  {
    if SetField(s, key, v, oracle).Some? {
      SetFieldIsFit(s, key, v, oracle);
    }
  }

  lemma NoNulInPart(p: seq<byte>, a: nat, b: nat)
    requires 0 !in p && a <= b <= |p|
    ensures 0 !in p[a..b]
  {}

  /** What every field set from a C string keeps, a whole line keeps. */
  lemma {:induction false} ApplyKeeps(holds: Config -> bool, s: Config, p: seq<byte>, i: nat, set_: Setter)
    requires holds(s) && 0 !in p
    requires forall c: Config, j, v | holds(c) && 0 !in v :: holds(set_(c, j, v))
    ensures holds(Apply(s, p, i, set_))
    decreases FIELD_COUNT - i
  {
    if i < FIELD_COUNT {
      var at := FirstSeparator(p);
      NoNulInPart(p, 0, at);
      if at < |p| {
        NoNulInPart(p, at + 1, |p|);
        ApplyKeeps(holds, set_(s, i, p[..at]), p[at + 1..], i + 1, set_);
      }
    }
  }

  /** Whatever bytes arrive, the staging area stays fit, at its version. */
  lemma WrittenIsFit(s: Config, data: seq<byte>, oracle: Oracle)
    requires Fit(s)
    ensures KeepsFit(s, Written(s, data, oracle))
  {
    var raw := if |data| < PIPE_BUF_SIZE then data else data[..PIPE_BUF_SIZE - 1];
    Command.CStringEndsAtNul(raw);
    forall c: Config, i, v | KeepsFit(s, c) ensures KeepsFit(s, FieldSetter(oracle)(c, i, v)) {
      KeptIsFit(c, KeyAt(i), v, oracle);
    }
    ApplyKeeps(c => KeepsFit(s, c), s, Command.CString(raw), 0, FieldSetter(oracle));
  }

  // ---- Configurations that print faithfully --------------------------------------------

  predicate Interval(ms: nat) {
    ms == 0 || MIN_INTERVAL_MS <= ms <= MAX_INTERVAL_MS
  }

  /** What setting fields from the defaults can reach. */
  predicate Printable(c: Config) {
    && Representable(c) && RadioValid(c) && Interval(c.teleMs) && Interval(c.lxmfMs)
    && c.btPin <= 999999 && -100000 <= c.altitude <= 100000 && c.logLevel <= 2
    && Named(c.name)
  }

  predicate Named(name: seq<byte>) {
    |Command.CString(name)| < NAME_SIZE && NameText(Command.CString(name)) && name == NameBuffer(Command.CString(name))
  }

  lemma BufferIsNamed(text: seq<byte>)
    requires NameText(text) && 0 !in text
    ensures Named(NameBuffer(text)) && Command.CString(NameBuffer(text)) == text
  {
    CStringOfBuffer(text, NameBuffer(text), NAME_SIZE - |text|);
  }

  lemma {:induction false} CStringOfBuffer(text: seq<byte>, s: seq<byte>, n: nat)
    requires 0 !in text && n > 0 && s == text + Zeros(n)
    ensures Command.CString(s) == text
  {
    if text == [] {
      assert s[0] == 0;
    } else {
      assert s[0] == text[0] && text[0] in text;
      assert s[1..] == text[1..] + Zeros(n);
      CStringOfBuffer(text[1..], s[1..], n);
      assert text == [text[0]] + text[1..];
    }
  }

  lemma UnsignedIsPrintable(c: Config, key: Key, v: seq<byte>)
    requires Printable(c) && SetUnsigned(c, key, v).Some?
    ensures Printable(SetUnsigned(c, key, v).value)
  {}

  lemma SignedIsPrintable(c: Config, key: Key, v: seq<byte>)
    requires Printable(c) && SetSigned(c, key, v).Some?
    ensures Printable(SetSigned(c, key, v).value)
  {}

  lemma FloatIsPrintable(c: Config, key: Key, r: Reading)
    requires Printable(c) && SetFloat(c, key, r).Some?
    ensures Printable(SetFloat(c, key, r).value)
  {}

  /** Setting any field, from any C string, keeps it so. */
  lemma SetFieldIsPrintable(c: Config, key: Key, v: seq<byte>, oracle: Oracle)
    requires Printable(c) && 0 !in v && SetField(c, key, v, oracle).Some?
    ensures Printable(SetField(c, key, v, oracle).value)
  {
    if IsFlag(key) {
    } else if key.DisplayName? {
      BufferIsNamed(v);
    } else if key.Collector? {
    } else if key.BattMult? || key.Latitude? || key.Longitude? || key.UnknownKey? {
      FloatIsPrintable(c, key, oracle(key, v));
    } else if key.FreqHz? || key.BwHz? || key.BtPin? || key.TeleInterval? || key.LxmfInterval? {
      UnsignedIsPrintable(c, key, v);
    } else {
      SignedIsPrintable(c, key, v);
    }
  }

  // ---- Each field is read back ---------------------------------------------------------

  predicate IsFloat(key: Key) {
    key.BattMult? || key.Latitude? || key.Longitude?
  }

  /** The field is the same in both; the floating-point ones are left aside. */
  predicate Agrees(s: Config, c: Config, key: Key) {
    match key
    case DisplayName => s.name == c.name
    case FreqHz => s.freqHz == c.freqHz
    case BwHz => s.bwHz == c.bwHz
    case SpreadingFactor => s.sf == c.sf
    case CodingRate => s.cr == c.cr
    case TxpDbm => s.txpDbm == c.txpDbm
    case TeleInterval => s.teleMs == c.teleMs
    case LxmfInterval => s.lxmfMs == c.lxmfMs
    case Telemetry => s.flags.telemetry == c.flags.telemetry
    case Lxmf => s.flags.lxmf == c.flags.lxmf
    case Heartbeat => s.flags.heartbeat == c.flags.heartbeat
    case BtEnabled => s.flags.btEnabled == c.flags.btEnabled
    case TxEnabled => s.flags.txDisabled == c.flags.txDisabled
    case LxmfCommands => s.flags.cmdsDisabled == c.flags.cmdsDisabled
    case BtPin => s.btPin == c.btPin
    case Altitude => s.altitude == c.altitude
    case LogLevel => s.logLevel == c.logLevel
    case Collector => s.collector == c.collector
    case _ => true
  }

  lemma HexDigitReads(n: nat)
    requires n < 16
    ensures HexVal(HexDigit(n)) == n
  {}

  function NibbleAt(hash: seq<byte>, i: nat): nat
    requires i / 2 < |hash|
  {
    if i % 2 == 0 then hash[i / 2] / 16 else hash[i / 2] % 16
  }

  lemma HexReads(hash: seq<byte>, v: seq<byte>)
    requires |hash| == 16 && |v| == 32 && forall i | 0 <= i < 32 :: v[i] == HexDigit(NibbleAt(hash, i))
    ensures HexText(v) && forall i | 0 <= i < 16 :: HexPair(v, i) == hash[i]
  {
    forall i | 0 <= i < 32 ensures HexVal(v[i]) == NibbleAt(hash, i) < 16 {
      HexDigitReads(NibbleAt(hash, i));
    }
    forall i | 0 <= i < 16 ensures HexPair(v, i) == hash[i] {
      EvenOdd(i);
      assert HexVal(v[2 * i]) == NibbleAt(hash, 2 * i) && HexVal(v[2 * i + 1]) == NibbleAt(hash, 2 * i + 1);
    }
  }

  lemma EvenOdd(i: nat)
    ensures 2 * i % 2 == 0 && 2 * i / 2 == i && (2 * i + 1) % 2 == 1 && (2 * i + 1) / 2 == i
  {}

  /** The printed hash reads back; an unset one comes back as the empty text that
      clears it. */
  lemma CollectorReads(hash: seq<byte>)
    requires |hash| == 16
    ensures ParseCollector(HexOf(hash)) == Some(hash)
  {
    var v := HexOf(hash);
    if forall i | 0 <= i < |hash| :: hash[i] == 0 {
      assert hash == Zeros(16);
    } else {
      HexReads(hash, v);
      assert seq(16, i requires 0 <= i < 16 => HexPair(v, i)) == hash;
    }
  }

  lemma UnsignedInReads(n: nat, low: nat, high: nat)
    requires low <= n <= high < 0x1_0000_0000
    ensures UnsignedIn(Numbers.Decimal(n), low, high) == Some(n)
  {
    Numbers.UnsignedRoundTrip(n);
  }

  lemma IntervalReads(n: nat)
    requires Interval(n)
    ensures IntervalIn(Numbers.Decimal(n)) == Some(n)
  {
    UnsignedInReads(n, 0, MAX_INTERVAL_MS);
  }

  lemma UnsignedFieldReads(s: Config, c: Config, key: Key, texts: FloatTexts)
    requires Printable(c)
    requires key.FreqHz? || key.BwHz? || key.BtPin? || key.TeleInterval? || key.LxmfInterval?
    ensures var r := SetUnsigned(s, key, FieldText(c, key, texts)); r.Some? && Agrees(r.value, c, key)
  {
    match key
    case FreqHz => UnsignedInReads(c.freqHz, 100000000, 1100000000);
    case BwHz => UnsignedInReads(c.bwHz, 7800, 500000);
    case BtPin => UnsignedInReads(c.btPin, 0, 999999);
    case TeleInterval => IntervalReads(c.teleMs);
    case _ => IntervalReads(c.lxmfMs);
  }

  lemma SignedFieldReads(s: Config, c: Config, key: Key, texts: FloatTexts)
    requires Printable(c)
    requires key.SpreadingFactor? || key.CodingRate? || key.TxpDbm? || key.Altitude? || key.LogLevel?
    ensures var r := SetSigned(s, key, FieldText(c, key, texts)); r.Some? && Agrees(r.value, c, key)
  {
    match key
    case SpreadingFactor => Numbers.SignedRoundTrip(c.sf);
    case CodingRate => Numbers.SignedRoundTrip(c.cr);
    case TxpDbm => Numbers.SignedRoundTrip(c.txpDbm);
    case Altitude => Numbers.SignedRoundTrip(c.altitude);
    case _ => Numbers.SignedRoundTrip(c.logLevel);
  }

  lemma FlagFieldReads(s: Config, c: Config, key: Key, texts: FloatTexts)
    requires IsFlag(key) && !key.LxmfCommands?
    ensures var r := SetFlag(s, key, FieldText(c, key, texts)); r.Some? && Agrees(r.value, c, key)
  {}

  /** What is printed for a field sets that field to the same value. */
  lemma FieldReads(s: Config, c: Config, i: nat, texts: FloatTexts, oracle: Oracle)
    requires Printable(c) && i < FIELD_COUNT
    ensures Agrees(SetOrKeep(s, KeyAt(i), FieldText(c, KeyAt(i), texts), oracle), c, KeyAt(i))
  {
    var key := KeyAt(i);
    if IsFlag(key) {
      FlagFieldReads(s, c, key, texts);
    } else if key.Collector? {
      CollectorReads(c.collector);
    } else if key.FreqHz? || key.BwHz? || key.BtPin? || key.TeleInterval? || key.LxmfInterval? {
      UnsignedFieldReads(s, c, key, texts);
    } else if !key.DisplayName? && !IsFloat(key) {
      SignedFieldReads(s, c, key, texts);
    }
  }

  // ---- The line is split where it was joined ------------------------------------------------

  predicate Plain(text: seq<byte>) {
    SEPARATOR !in text && 0 !in text
  }

  /** The float texts hold no separator and are no wider than their formats: six
      decimals of at most 180 degrees, and four decimals of a multiplier, which a
      calibration can make as large as 10000. */
  predicate PlainTexts(texts: FloatTexts) {
    && Plain(texts.batt) && |texts.batt| <= 16
    && Plain(texts.latitude) && |texts.latitude| <= 10
    && Plain(texts.longitude) && |texts.longitude| <= 11
  }

  lemma {:induction false} SeparatorAfter(text: seq<byte>, rest: seq<byte>)
    requires SEPARATOR !in text
    ensures FirstSeparator(text + [SEPARATOR] + rest) == |text|
    ensures FirstSeparator(text) == |text|
  {
    var all := text + [SEPARATOR] + rest;
    if text == [] {
      assert all[0] == SEPARATOR;
    } else {
      assert all[0] == text[0] && text[0] in text;
      assert all[1..] == text[1..] + [SEPARATOR] + rest;
      SeparatorAfter(text[1..], rest);
    }
  }

  lemma HexIsPlain(hash: seq<byte>)
    ensures Plain(HexOf(hash))
  {}

  lemma NameIsPlain(c: Config)
    requires Printable(c)
    ensures Plain(Command.CString(c.name))
  {
    Command.CStringEndsAtNul(c.name);
  }

  lemma FieldIsPlain(c: Config, i: nat, texts: FloatTexts)
    requires Printable(c) && PlainTexts(texts) && i < FIELD_COUNT
    ensures Plain(FieldText(c, KeyAt(i), texts))
  {
    match KeyAt(i)
    case DisplayName => NameIsPlain(c);
    case FreqHz => Numbers.DecimalIsPlain(c.freqHz);
    case BwHz => Numbers.DecimalIsPlain(c.bwHz);
    case SpreadingFactor => Numbers.DecimalIsPlain(c.sf);
    case CodingRate => Numbers.DecimalIsPlain(c.cr);
    case TxpDbm => Numbers.DecimalIsPlain(c.txpDbm);
    case TeleInterval => Numbers.DecimalIsPlain(c.teleMs);
    case LxmfInterval => Numbers.DecimalIsPlain(c.lxmfMs);
    case BtPin => Numbers.DecimalIsPlain(c.btPin);
    case Altitude => Numbers.DecimalIsPlain(c.altitude);
    case LogLevel => Numbers.DecimalIsPlain(c.logLevel);
    case Collector => HexIsPlain(c.collector);
    case _ =>
  }

  function Widest(i: nat): nat {
    if i == 0 then 31
    else if i == 1 then 10
    else if i == 2 || i == 13 then 6
    else if i == 3 || i == 5 then 2
    else if i == 6 then 16
    else if i == 16 then 7
    else if i == 7 || i == 8 then 9
    else if i == 14 then 10
    else if i == 15 then 11
    else if i == 18 then 32
    else 1
  }

  lemma FieldWidth(c: Config, i: nat, texts: FloatTexts)
    requires Printable(c) && PlainTexts(texts) && i < FIELD_COUNT
    ensures |FieldText(c, KeyAt(i), texts)| <= Widest(i)
  {
    Numbers.Tens();
    match KeyAt(i)
    case FreqHz => Numbers.DecimalLength(c.freqHz, 10);
    case BwHz => Numbers.DecimalLength(c.bwHz, 6);
    case SpreadingFactor => Numbers.DecimalLength(c.sf, 2);
    case CodingRate => Numbers.DecimalLength(c.cr, 1);
    case TxpDbm => TwoWide(c.txpDbm);
    case TeleInterval => Numbers.DecimalLength(c.teleMs, 9);
    case LxmfInterval => Numbers.DecimalLength(c.lxmfMs, 9);
    case BtPin => Numbers.DecimalLength(c.btPin, 6);
    case Altitude => SevenWide(c.altitude);
    case LogLevel => Numbers.DecimalLength(c.logLevel, 1);
    case _ =>
  }

  lemma TwoWide(v: int)
    requires -9 <= v <= 22
    ensures |Numbers.DecimalSigned(v)| <= 2
  {
    Numbers.Tens();
    if v < 0 {
      Numbers.DecimalLength(-v, 1);
    } else {
      Numbers.DecimalLength(v, 2);
    }
  }

  lemma SevenWide(v: int)
    requires -100000 <= v <= 100000
    ensures |Numbers.DecimalSigned(v)| <= 7
  {
    Numbers.Tens();
    Numbers.DecimalLength(if v < 0 then -v else v, 6);
  }

  /** The most the fields from `i` on can take, separators included. */
  function WidestFrom(i: nat): nat
    decreases FIELD_COUNT - i
  {
    if i >= FIELD_COUNT then 0
    else if i == FIELD_COUNT - 1 then Widest(i)
    else Widest(i) + 1 + WidestFrom(i + 1)
  }

  /** What is known of the texts of a line. */
  ghost predicate TextsFit(ts: seq<seq<byte>>) {
    |ts| == FIELD_COUNT && forall i | 0 <= i < FIELD_COUNT :: Plain(ts[i]) && |ts[i]| <= Widest(i)
  }

  lemma FieldTextsFit(c: Config, texts: FloatTexts)
    requires Printable(c) && PlainTexts(texts)
    ensures TextsFit(FieldTexts(c, texts))
  {
    forall i | 0 <= i < FIELD_COUNT
      ensures Plain(FieldTexts(c, texts)[i]) && |FieldTexts(c, texts)[i]| <= Widest(i)
    {
      FieldWidth(c, i, texts);
      FieldIsPlain(c, i, texts);
    }
  }

  lemma {:induction false} LineWidth(ts: seq<seq<byte>>, i: nat)
    requires TextsFit(ts) && i < FIELD_COUNT
    ensures |Joined(ts, i)| <= WidestFrom(i) && 0 !in Joined(ts, i)
    decreases FIELD_COUNT - i
  {
    if i < FIELD_COUNT - 1 {
      LineWidth(ts, i + 1);
    }
  }

  lemma WidestLine()
    ensures WidestFrom(0) == 177
  {
    assert WidestFrom(16) == 44;
    assert WidestFrom(12) == 76;
    assert WidestFrom(8) == 92;
    assert WidestFrom(4) == 124;
  }

  // ---- The fields in order -------------------------------------------------------------

  /** A flag as a digit. */
  function Digit(b: bool): seq<byte> {
    [if b then '1' as int else '0' as int]
  }

  /** What stands in each of the twenty places of a line. */
  lemma FieldsInOrder(c: Config, texts: FloatTexts)
    ensures FieldTexts(c, texts)
      == [Command.CString(c.name), Numbers.Decimal(c.freqHz), Numbers.Decimal(c.bwHz), Numbers.Decimal(c.sf),
          Numbers.Decimal(c.cr), Numbers.DecimalSigned(c.txpDbm), texts.batt, Numbers.Decimal(c.teleMs),
          Numbers.Decimal(c.lxmfMs), Digit(c.flags.telemetry), Digit(c.flags.lxmf), Digit(c.flags.heartbeat),
          Digit(c.flags.btEnabled), Numbers.Decimal(c.btPin), texts.latitude, texts.longitude,
          Numbers.DecimalSigned(c.altitude), Numbers.Decimal(c.logLevel), HexOf(c.collector),
          Digit(!c.flags.txDisabled)]
  {
    hide Command.CString, Numbers.Decimal, Numbers.DecimalSigned, HexOf;
  }

  /** A line with a field in front sets that field, or leaves it if its text is
      rejected, and then is taken as the rest of the line in the next place. */
  lemma FieldThenRest(s: Config, v: seq<byte>, rest: seq<byte>, i: nat, oracle: Oracle)
    requires i < 20 && '|' as int !in v
    ensures var r := SetField(s, KeyAt(i), v, oracle);
      var s' := if r.Some? then r.value else s;
      && Apply(s, v, i, FieldSetter(oracle)) == s'
      && Apply(s, v + ['|' as int] + rest, i, FieldSetter(oracle)) == Apply(s', rest, i + 1, FieldSetter(oracle))
  {
    SeparatorAfter(v, rest);
    var all := v + ['|' as int] + rest;
    assert all[..|v|] == v && all[|v| + 1..] == rest && v[..|v|] == v;
  }

  /** Behind the twentieth field nothing is looked at, nor behind a NUL, nor what
      lies beyond the first 223 bytes of a write. */
  lemma WhatCounts(s: Config, data: seq<byte>, oracle: Oracle)
    ensures Apply(s, data, 20, FieldSetter(oracle)) == s
    ensures |data| > 223 ==> Written(s, data, oracle) == Written(s, data[..223], oracle)
    ensures |data| <= 223 ==> Written(s, data, oracle) == Written(s, Command.CString(data), oracle)
    ensures |data| <= 223 && 0 !in data ==> Written(s, data, oracle) == Apply(s, data, 0, FieldSetter(oracle))
  {
    if |data| > 223 {
      assert data[..223] == data[..PIPE_BUF_SIZE - 1];
    }
    Command.CStringEndsAtNul(data);
    Command.WholeString(Command.CString(data));
    if 0 !in data {
      Command.WholeString(data);
    }
  }

  // ---- The whole line ------------------------------------------------------------------

  /** The first `i` fields agree. */
  predicate Done(s: Config, c: Config, i: nat) {
    forall j | 0 <= j < i && j < FIELD_COUNT :: Agrees(s, c, KeyAt(j))
  }

  /** At most the field `key` differs. */
  predicate SameBut(s: Config, s': Config, key: Key) {
    Without(s', key) == Without(s, key)
  }

  lemma KeepsOthers(s: Config, s': Config, c: Config, key: Key, other: Key)
    requires SameBut(s, s', key) && key != other && Agrees(s, c, other)
    ensures Agrees(s', c, other)
  {
    if IsFlag(key) {
      FlagKeepsOthers(s, s', c, key, other);
    } else {
      match key
      case DisplayName =>
      case FreqHz =>
      case BwHz =>
      case SpreadingFactor =>
      case CodingRate =>
      case TxpDbm =>
      case BattMult =>
      case TeleInterval =>
      case LxmfInterval =>
      case BtPin =>
      case Latitude =>
      case Longitude =>
      case Altitude =>
      case LogLevel =>
      case Collector =>
      case UnknownKey =>
    }
  }

  lemma FlagKeepsOthers(s: Config, s': Config, c: Config, key: Key, other: Key)
    requires SameBut(s, s', key) && IsFlag(key) && key != other && Agrees(s, c, other)
    ensures Agrees(s', c, other)
  {
    var f, f' := s.flags, s'.flags;
    assert WithFlag(f', key, false) == WithFlag(f, key, false);
    assert s'.(flags := f) == s;
  }

  lemma KeepsCommands(s: Config, s': Config, key: Key)
    requires SameBut(s, s', key) && !key.LxmfCommands?
    ensures s'.flags.cmdsDisabled == s.flags.cmdsDisabled
  {
    KeepsOthers(s, s', s, key, LxmfCommands);
  }

  lemma KeysDiffer(i: nat, j: nat)
    requires j < i < FIELD_COUNT
    ensures KeyAt(j) != KeyAt(i)
  {}

  lemma OnlyThatOne(s: Config, key: Key, v: seq<byte>, oracle: Oracle, s': Config)
    requires s' == SetOrKeep(s, key, v, oracle)
    ensures SameBut(s, s', key)
  {
    if SetField(s, key, v, oracle).Some? {
      OnlyThatField(s, key, v, oracle);
    }
  }

  lemma StepAgrees(s: Config, s': Config, c: Config, i: nat)
    requires i < FIELD_COUNT && Done(s, c, i) && SameBut(s, s', KeyAt(i)) && Agrees(s', c, KeyAt(i))
    ensures Done(s', c, i + 1) && s'.flags.cmdsDisabled == s.flags.cmdsDisabled
  {
    KeepsCommands(s, s', KeyAt(i));
    forall j | 0 <= j < i + 1 && j < FIELD_COUNT ensures Agrees(s', c, KeyAt(j)) {
      if j < i {
        KeysDiffer(i, j);
        KeepsOthers(s, s', c, KeyAt(i), KeyAt(j));
      }
    }
  }

  lemma OneMoreField(s: Config, c: Config, i: nat, texts: FloatTexts, v: seq<byte>, oracle: Oracle, s': Config)
    requires Printable(c) && i < FIELD_COUNT && Done(s, c, i)
    requires v == FieldTexts(c, texts)[i] && s' == SetOrKeep(s, KeyAt(i), v, oracle)
    ensures Done(s', c, i + 1) && s'.flags.cmdsDisabled == s.flags.cmdsDisabled
  {
    FieldReads(s, c, i, texts, oracle);
    OnlyThatOne(s, KeyAt(i), v, oracle, s');
    StepAgrees(s, s', c, i);
  }

  lemma ApplyOne(s: Config, p: seq<byte>, i: nat, set_: Setter, v: seq<byte>, rest: seq<byte>)
    requires i < FIELD_COUNT && SEPARATOR !in v && p == v + [SEPARATOR] + rest
    ensures Apply(s, p, i, set_) == Apply(set_(s, i, v), rest, i + 1, set_)
  {
    SeparatorAfter(v, rest);
    assert p[..|v|] == v && p[|v| + 1..] == rest;
  }

  lemma ApplyLast(s: Config, v: seq<byte>, i: nat, set_: Setter)
    requires i < FIELD_COUNT && SEPARATOR !in v
    ensures Apply(s, v, i, set_) == set_(s, i, v)
  {
    SeparatorAfter(v, []);
    assert v[..|v|] == v;
  }

  lemma {:induction false} ApplyLine(s: Config, c: Config, i: nat, texts: FloatTexts, ts: seq<seq<byte>>,
                                     oracle: Oracle)
    requires Printable(c) && i < FIELD_COUNT && Done(s, c, i)
    requires ts == FieldTexts(c, texts) && TextsFit(ts)
    ensures var s' := Apply(s, Joined(ts, i), i, FieldSetter(oracle));
      Done(s', c, FIELD_COUNT) && s'.flags.cmdsDisabled == s.flags.cmdsDisabled
    decreases FIELD_COUNT - i
  {
    var s' := SetOrKeep(s, KeyAt(i), ts[i], oracle);
    OneMoreField(s, c, i, texts, ts[i], oracle, s');
    if i == FIELD_COUNT - 1 {
      ApplyLast(s, ts[i], i, FieldSetter(oracle));
    } else {
      ApplyOne(s, Joined(ts, i), i, FieldSetter(oracle), ts[i], Joined(ts, i + 1));
      ApplyLine(s', c, i + 1, texts, ts, oracle);
    }
  }

  /** Everything the line carries exactly. */
  predicate Carried(s: Config, c: Config) {
    && s.name == c.name && s.freqHz == c.freqHz && s.bwHz == c.bwHz && s.sf == c.sf && s.cr == c.cr
    && s.txpDbm == c.txpDbm && s.teleMs == c.teleMs && s.lxmfMs == c.lxmfMs && s.btPin == c.btPin
    && s.altitude == c.altitude && s.logLevel == c.logLevel && s.collector == c.collector
    && s.flags.telemetry == c.flags.telemetry && s.flags.lxmf == c.flags.lxmf
    && s.flags.heartbeat == c.flags.heartbeat && s.flags.btEnabled == c.flags.btEnabled
    && s.flags.txDisabled == c.flags.txDisabled
  }

  /** The printed line fits the buffer, and writing it over any staging record
      brings across the name, every integer field, the five flags it carries and
      the collector; the flag it does not carry stays. */
  lemma LineRoundTrip(s: Config, c: Config, texts: FloatTexts, oracle: Oracle)
    requires Printable(c) && PlainTexts(texts)
    ensures |Line(c, texts)| <= 177 < PIPE_BUF_SIZE - 1
    ensures var s' := Written(s, Line(c, texts), oracle);
      Carried(s', c) && s'.flags.cmdsDisabled == s.flags.cmdsDisabled
  {
    var ts := FieldTexts(c, texts);
    FieldTextsFit(c, texts);
    LineWidth(ts, 0);
    WidestLine();
    Command.WholeString(Line(c, texts));
    ApplyLine(s, c, 0, texts, ts, oracle);
    AllAgree(Apply(s, Line(c, texts), 0, FieldSetter(oracle)), c);
  }

  lemma AgreesAt(s: Config, c: Config, i: nat, key: Key)
    requires Done(s, c, FIELD_COUNT) && i < FIELD_COUNT && key == KeyAt(i)
    ensures Agrees(s, c, key)
  {}

  lemma RadioAgrees(s: Config, c: Config)
    requires Done(s, c, FIELD_COUNT)
    ensures s.name == c.name && s.freqHz == c.freqHz && s.bwHz == c.bwHz && s.sf == c.sf && s.cr == c.cr
    ensures s.txpDbm == c.txpDbm
  {
    AgreesAt(s, c, 0, DisplayName);
    AgreesAt(s, c, 1, FreqHz);
    AgreesAt(s, c, 2, BwHz);
    AgreesAt(s, c, 3, SpreadingFactor);
    AgreesAt(s, c, 4, CodingRate);
    AgreesAt(s, c, 5, TxpDbm);
  }

  lemma FlagsAgree(s: Config, c: Config)
    requires Done(s, c, FIELD_COUNT)
    ensures s.flags.telemetry == c.flags.telemetry && s.flags.lxmf == c.flags.lxmf
    ensures s.flags.heartbeat == c.flags.heartbeat && s.flags.btEnabled == c.flags.btEnabled
    ensures s.flags.txDisabled == c.flags.txDisabled
  {
    AgreesAt(s, c, 9, Telemetry);
    AgreesAt(s, c, 10, Lxmf);
    AgreesAt(s, c, 11, Heartbeat);
    AgreesAt(s, c, 12, BtEnabled);
    AgreesAt(s, c, 19, TxEnabled);
  }

  lemma RestAgrees(s: Config, c: Config)
    requires Done(s, c, FIELD_COUNT)
    ensures s.teleMs == c.teleMs && s.lxmfMs == c.lxmfMs && s.btPin == c.btPin
    ensures s.altitude == c.altitude && s.logLevel == c.logLevel && s.collector == c.collector
  {
    AgreesAt(s, c, 7, TeleInterval);
    AgreesAt(s, c, 8, LxmfInterval);
    AgreesAt(s, c, 13, BtPin);
    AgreesAt(s, c, 16, Altitude);
    AgreesAt(s, c, 17, LogLevel);
    AgreesAt(s, c, 18, Collector);
  }

  lemma AllAgree(s: Config, c: Config)
    requires Done(s, c, FIELD_COUNT)
    ensures Carried(s, c)
  {
    RadioAgrees(s, c);
    FlagsAgree(s, c);
    RestAgrees(s, c);
  }

  // ---- Runs of edits --------------------------------------------------------------------

  lemma KeptPrintable(s: Config, key: Key, v: seq<byte>, oracle: Oracle)
    requires Printable(s) && 0 !in v
    ensures Printable(SetOrKeep(s, key, v, oracle))
  {
    if SetField(s, key, v, oracle).Some? {
      SetFieldIsPrintable(s, key, v, oracle);
    }
  }

  /** Writing a line keeps a configuration printable, whatever the line holds. */
  lemma WrittenIsPrintable(s: Config, data: seq<byte>, oracle: Oracle)
    requires Printable(s)
    ensures Printable(Written(s, data, oracle))
  {
    var raw := if |data| < PIPE_BUF_SIZE then data else data[..PIPE_BUF_SIZE - 1];
    Command.CStringEndsAtNul(raw);
    forall c: Config, i, v | Printable(c) && 0 !in v ensures Printable(FieldSetter(oracle)(c, i, v)) {
      KeptPrintable(c, KeyAt(i), v, oracle);
    }
    ApplyKeeps(c => Printable(c), s, Command.CString(raw), 0, FieldSetter(oracle));
  }

  // ---- The printer -------------------------------------------------------------------------

  /** The hash, digit by digit, unless every byte is zero. */
  method PrintCollectorHex(hash: seq<byte>) returns (out: seq<byte>)
    ensures out == HexOf(hash)
  {
    var allZero := true;
    for i := 0 to |hash|
      invariant allZero <==> forall k | 0 <= k < i :: hash[k] == 0
    {
      if hash[i] != 0 {
        allZero := false;
        break;
      }
    }
    out := [];
    if allZero {
      return;
    }
    for i := 0 to |hash|
      invariant |out| == 2 * i && forall k | 0 <= k < 2 * i :: out[k] == HexDigit(NibbleAt(hash, k))
    {
      EvenOdd(i);
      out := out + [HexDigit(hash[i] / 16)];
      out := out + [HexDigit(hash[i] % 16)];
    }
  }

  lemma JoinedStep(ts: seq<seq<byte>>, i: nat, head: seq<byte>)
    requires i + 1 < |ts|
    ensures head + Joined(ts, i) == head + ts[i] + [SEPARATOR] + Joined(ts, i + 1)
  {
    assert Joined(ts, i) == ts[i] + [SEPARATOR] + Joined(ts, i + 1);
  }

  /** The line, field by field, a separator after each but the last. */
  method PrintFields(c: Config, texts: FloatTexts) returns (line: seq<byte>)
    ensures line == Line(c, texts)
  {
    ghost var ts := FieldTexts(c, texts);
    line := [];
    for i := 0 to 20
      invariant i < 20 ==> line + Joined(ts, i) == Line(c, texts)
      invariant i == 20 ==> line == Line(c, texts)
    {
      var text;
      if KeyAt(i) == Collector {
        text := PrintCollectorHex(c.collector);
      } else {
        text := FieldText(c, KeyAt(i), texts);
      }
      assert text == ts[i];
      if i < 19 {
        JoinedStep(ts, i, line);
        line := line + text;
        line := line + [0x7c];
      } else {
        line := line + text;
      }
    }
  }
}
