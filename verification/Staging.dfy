/** The staged configuration: setting one field from text, and the commands that
    reseed, calibrate and commit it. */
module Staging {
  import opened Basics
  import opened Bits
  import opened ConfigRecord
  import opened ConfigLoad
  import opened ConfigStore
  import Numbers

  datatype Key =
    | DisplayName | FreqHz | BwHz | SpreadingFactor | CodingRate | TxpDbm | BattMult
    | TeleInterval | LxmfInterval | Telemetry | Lxmf | Heartbeat | BtEnabled | TxEnabled | LxmfCommands
    | BtPin | Latitude | Longitude | Altitude | LogLevel | Collector | UnknownKey

  type Word32 = x: nat | x < 0x1_0000_0000
  type Int32 = x: int | -0x8000_0000 <= x < 0x8000_0000

  /** What the floating-point parser made of a text: nothing, a multiplier and
      whether it compares inside (0, 10], or a position in microdegrees. */
  datatype Reading = NotANumber | Multiplier(bits: Word32, inRange: bool) | Microdegrees(udeg: Int32)

  type Oracle = (Key, seq<byte>) -> Reading

  const NAME_SIZE: nat := 32
  const SEPARATOR: byte := 0x7c
  const MIN_INTERVAL_MS: nat := 10000
  const MAX_INTERVAL_MS: nat := 604800000

  // ---- Texts -----------------------------------------------------------------------

  const T_ONE: seq<byte> := [0x31]
  const T_TRUE: seq<byte> := [0x74, 0x72, 0x75, 0x65]
  const T_ON: seq<byte> := [0x6f, 0x6e]
  const T_YES: seq<byte> := [0x79, 0x65, 0x73]
  const T_ZERO: seq<byte> := [0x30]
  const T_FALSE: seq<byte> := [0x66, 0x61, 0x6c, 0x73, 0x65]
  const T_OFF: seq<byte> := [0x6f, 0x66, 0x66]
  const T_NO: seq<byte> := [0x6e, 0x6f]
  const T_NONE: seq<byte> := [0x6e, 0x6f, 0x6e, 0x65]
  const T_CLEAR: seq<byte> := [0x63, 0x6c, 0x65, 0x61, 0x72]

  function ParseBool(v: seq<byte>): Option<bool> {
    if v == T_ONE || v == T_TRUE || v == T_ON || v == T_YES then Some(true)
    else if v == T_ZERO || v == T_FALSE || v == T_OFF || v == T_NO then Some(false)
    else None
  }

  /** A name in its buffer: the text and zeros behind it. */
  function NameBuffer(text: seq<byte>): (s: seq<byte>)
    requires |text| <= NAME_SIZE
    ensures |s| == NAME_SIZE
  {
    text + Zeros(NAME_SIZE - |text|)
  }

  predicate NameText(text: seq<byte>) {
    0 < |text| < NAME_SIZE && SEPARATOR !in text
  }

  /** The value of a hex digit, or 16. */
  function HexVal(c: byte): nat {
    if 0x30 <= c <= 0x39 then c - 0x30
    else if 0x61 <= c <= 0x66 then c - 0x61 + 10
    else if 0x41 <= c <= 0x46 then c - 0x41 + 10
    else 16
  }

  predicate HexText(v: seq<byte>) {
    forall i | 0 <= i < |v| :: HexVal(v[i]) < 16
  }

  function HexPair(v: seq<byte>, i: nat): byte
    requires HexText(v) && 2 * i + 1 < |v|
  {
    16 * HexVal(v[2 * i]) + HexVal(v[2 * i + 1])
  }

  function ParseCollector(v: seq<byte>): Option<seq<byte>> {
    if v == [] || v == T_NONE || v == T_OFF || v == T_CLEAR then Some(Zeros(16))
    else if |v| != 32 || !HexText(v) then None
    else Some(seq(16, i requires 0 <= i < 16 => HexPair(v, i)))
  }

  function UnsignedIn(v: seq<byte>, low: nat, high: nat): Option<nat> {
    match Numbers.ParseUnsigned(v)
    case None => None
    case Some(n) => if low <= n <= high then Some(n) else None
  }

  function SignedIn(v: seq<byte>, low: int, high: int): Option<int> {
    match Numbers.ParseSigned(v)
    case None => None
    case Some(n) => if low <= n <= high then Some(n) else None
  }

  /** A periodic task's interval: off, or between ten seconds and seven days. */
  function IntervalIn(v: seq<byte>): Option<nat> {
    match UnsignedIn(v, 0, MAX_INTERVAL_MS)
    case None => None
    case Some(n) => if n == 0 || n >= MIN_INTERVAL_MS then Some(n) else None
  }

  // ---- One field ---------------------------------------------------------------------

  predicate IsFlag(key: Key) {
    key.Telemetry? || key.Lxmf? || key.Heartbeat? || key.BtEnabled? || key.TxEnabled? || key.LxmfCommands?
  }

  /** The two inhibit flags are stored inverted. */
  function WithFlag(f: Flags, key: Key, on: bool): Flags
    requires IsFlag(key)
  {
    match key
    case Telemetry => f.(telemetry := on)
    case Lxmf => f.(lxmf := on)
    case Heartbeat => f.(heartbeat := on)
    case BtEnabled => f.(btEnabled := on)
    case TxEnabled => f.(txDisabled := !on)
    case LxmfCommands => f.(cmdsDisabled := !on)
  }

  function SetFlag(c: Config, key: Key, v: seq<byte>): Option<Config>
    requires IsFlag(key)
  {
    match ParseBool(v)
    case None => None
    case Some(on) => Some(c.(flags := WithFlag(c.flags, key, on)))
  }

  /** The unsigned fields. */
  function SetUnsigned(c: Config, key: Key, v: seq<byte>): Option<Config> {
    var n := match key
      case FreqHz => UnsignedIn(v, 100000000, 1100000000)
      case BwHz => UnsignedIn(v, 7800, 500000)
      case BtPin => UnsignedIn(v, 0, 999999)
      case _ => IntervalIn(v);
    if n.None? then None
    else
      match key
      case FreqHz => Some(c.(freqHz := n.value))
      case BwHz => Some(c.(bwHz := n.value))
      case BtPin => Some(c.(btPin := n.value))
      case TeleInterval => Some(c.(teleMs := n.value))
      case LxmfInterval => Some(c.(lxmfMs := n.value))
      case _ => None
  }

  /** The signed fields. */
  function SetSigned(c: Config, key: Key, v: seq<byte>): Option<Config> {
    var n := match key
      case SpreadingFactor => SignedIn(v, 7, 12)
      case CodingRate => SignedIn(v, 5, 8)
      case TxpDbm => SignedIn(v, -9, 22)
      case Altitude => SignedIn(v, -100000, 100000)
      case LogLevel => SignedIn(v, 0, 2)
      case _ => None;
    if n.None? then None
    else
      match key
      case SpreadingFactor => Some(c.(sf := n.value))
      case CodingRate => Some(c.(cr := n.value))
      case TxpDbm => Some(c.(txpDbm := n.value))
      case Altitude => Some(c.(altitude := n.value))
      case LogLevel => Some(c.(logLevel := n.value))
      case _ => None
  }

  /** The floating-point fields, as the parser read them. */
  function SetFloat(c: Config, key: Key, r: Reading): Option<Config> {
    match key
    case BattMult => if r.Multiplier? && r.inRange then Some(c.(battMult := r.bits)) else None
    case Latitude =>
      if r.Microdegrees? && -90000000 <= r.udeg <= 90000000 then Some(c.(latitude := r.udeg)) else None
    case Longitude =>
      if r.Microdegrees? && -180000000 <= r.udeg <= 180000000 then Some(c.(longitude := r.udeg)) else None
    case _ => None
  }

  /** The configuration with one field set from text, or None. */
  function SetField(c: Config, key: Key, v: seq<byte>, oracle: Oracle): Option<Config> {
    if IsFlag(key) then SetFlag(c, key, v)
    else
      match key
      case DisplayName => if NameText(v) then Some(c.(name := NameBuffer(v))) else None
      case Collector =>
        (match ParseCollector(v)
         case None => None
         case Some(hash) => Some(c.(collector := hash)))
      case FreqHz => SetUnsigned(c, key, v)
      case BwHz => SetUnsigned(c, key, v)
      case BtPin => SetUnsigned(c, key, v)
      case TeleInterval => SetUnsigned(c, key, v)
      case LxmfInterval => SetUnsigned(c, key, v)
      case SpreadingFactor => SetSigned(c, key, v)
      case CodingRate => SetSigned(c, key, v)
      case TxpDbm => SetSigned(c, key, v)
      case Altitude => SetSigned(c, key, v)
      case LogLevel => SetSigned(c, key, v)
      case _ => SetFloat(c, key, oracle(key, v))
  }

  // ---- What setting a field keeps ------------------------------------------------------

  /** What the staging area always holds. */
  predicate Fit(c: Config) {
    Representable(c) && Validate(c)
  }

  /** ... when the firmware did not load a record with an older version number. */
  predicate Sound(c: Config) {
    Fit(c) && c.version == 3
  }

  /** What an edit keeps of a fit configuration. */
  predicate KeepsFit(c: Config, c': Config) {
    Fit(c') && c'.version == c.version && (PlaceValid(c) ==> PlaceValid(c'))
  }

  /** The configuration with one field blotted out. */
  function Without(c: Config, key: Key): Config {
    match key
    case DisplayName => c.(name := [])
    case FreqHz => c.(freqHz := 0)
    case BwHz => c.(bwHz := 0)
    case SpreadingFactor => c.(sf := 0)
    case CodingRate => c.(cr := 0)
    case TxpDbm => c.(txpDbm := 0)
    case BattMult => c.(battMult := 0)
    case TeleInterval => c.(teleMs := 0)
    case LxmfInterval => c.(lxmfMs := 0)
    case BtPin => c.(btPin := 0)
    case Latitude => c.(latitude := 0)
    case Longitude => c.(longitude := 0)
    case Altitude => c.(altitude := 0)
    case LogLevel => c.(logLevel := 0)
    case Collector => c.(collector := [])
    case UnknownKey => c
    case _ => c.(flags := WithFlag(c.flags, key, false))
  }

  /** A field that is set is the only one that changes. */
  lemma OnlyThatField(c: Config, key: Key, v: seq<byte>, oracle: Oracle)
    requires SetField(c, key, v, oracle).Some?
    ensures Without(SetField(c, key, v, oracle).value, key) == Without(c, key)
  {}

  lemma UnsignedIsFit(c: Config, key: Key, v: seq<byte>)
    requires Fit(c) && SetUnsigned(c, key, v).Some?
    ensures KeepsFit(c, SetUnsigned(c, key, v).value)
  {}

  lemma SignedIsFit(c: Config, key: Key, v: seq<byte>)
    requires Fit(c) && SetSigned(c, key, v).Some?
    ensures KeepsFit(c, SetSigned(c, key, v).value)
  {}

  lemma FloatIsFit(c: Config, key: Key, r: Reading)
    requires Fit(c) && SetFloat(c, key, r).Some?
    ensures KeepsFit(c, SetFloat(c, key, r).value)
  {}

  lemma NameIsTerminated(text: seq<byte>)
    requires |text| < NAME_SIZE
    ensures Terminated(NameBuffer(text))
  {
    assert NameBuffer(text)[|text|] == 0;
  }

  /** No text whatever makes the staging area invalid, or changes its version. */
  lemma SetFieldIsFit(c: Config, key: Key, v: seq<byte>, oracle: Oracle)
    requires Fit(c) && SetField(c, key, v, oracle).Some?
    ensures KeepsFit(c, SetField(c, key, v, oracle).value)
  {
    if IsFlag(key) {
    } else if key.DisplayName? {
      NameIsTerminated(v);
    } else if key.Collector? {
    } else if key.BattMult? || key.Latitude? || key.Longitude? || key.UnknownKey? {
      FloatIsFit(c, key, oracle(key, v));
    } else if key.FreqHz? || key.BwHz? || key.BtPin? || key.TeleInterval? || key.LxmfInterval? {
      UnsignedIsFit(c, key, v);
    } else {
      SignedIsFit(c, key, v);
    }
  }

  // ---- What each text sets ----------------------------------------------------------------

  /** `v` is the text `s`, character by character. */
  predicate Is(v: seq<byte>, s: string) {
    |v| == |s| && forall i | 0 <= i < |s| :: v[i] == s[i] as int
  }

  predicate SaysOn(v: seq<byte>) {
    Is(v, "1") || Is(v, "true") || Is(v, "on") || Is(v, "yes")
  }

  predicate SaysOff(v: seq<byte>) {
    Is(v, "0") || Is(v, "false") || Is(v, "off") || Is(v, "no")
  }

  lemma FlagWords(v: seq<byte>)
    ensures ParseBool(v) == if SaysOn(v) then Some(true) else if SaysOff(v) then Some(false) else None
  {
    hide SaysOn, SaysOff, ParseBool;
    OnWords(v);
    OffWords(v);
    WordsApart(v);
  }

  lemma OnWords(v: seq<byte>)
    ensures SaysOn(v) <==> ParseBool(v).Some? && ParseBool(v).value
  {
    assert Is(v, "1") <==> v == T_ONE;
    assert Is(v, "true") <==> v == T_TRUE;
    assert Is(v, "on") <==> v == T_ON;
    assert Is(v, "yes") <==> v == T_YES;
  }

  lemma OffWords(v: seq<byte>)
    ensures SaysOff(v) <==> ParseBool(v).Some? && !ParseBool(v).value
  {
    assert Is(v, "0") <==> v == T_ZERO;
    assert Is(v, "false") <==> v == T_FALSE;
    assert Is(v, "off") <==> v == T_OFF;
    assert Is(v, "no") <==> v == T_NO;
  }

  lemma WordsApart(v: seq<byte>)
    ensures SaysOn(v) ==> !SaysOff(v)
  {
    OnWords(v);
    OffWords(v);
  }

  /** Each flag is switched on by four words, off by four others, and by nothing
      else; the two that are stored as inhibits are cleared by "on". */
  lemma FlagIsSet(c: Config, v: seq<byte>, oracle: Oracle)
    ensures var f := c.flags;
      && (SaysOn(v) ==>
          && SetField(c, Telemetry, v, oracle) == Some(c.(flags := f.(telemetry := true)))
          && SetField(c, Lxmf, v, oracle) == Some(c.(flags := f.(lxmf := true)))
          && SetField(c, Heartbeat, v, oracle) == Some(c.(flags := f.(heartbeat := true)))
          && SetField(c, BtEnabled, v, oracle) == Some(c.(flags := f.(btEnabled := true)))
          && SetField(c, TxEnabled, v, oracle) == Some(c.(flags := f.(txDisabled := false)))
          && SetField(c, LxmfCommands, v, oracle) == Some(c.(flags := f.(cmdsDisabled := false))))
      && (SaysOff(v) ==>
          && SetField(c, Telemetry, v, oracle) == Some(c.(flags := f.(telemetry := false)))
          && SetField(c, Lxmf, v, oracle) == Some(c.(flags := f.(lxmf := false)))
          && SetField(c, Heartbeat, v, oracle) == Some(c.(flags := f.(heartbeat := false)))
          && SetField(c, BtEnabled, v, oracle) == Some(c.(flags := f.(btEnabled := false)))
          && SetField(c, TxEnabled, v, oracle) == Some(c.(flags := f.(txDisabled := true)))
          && SetField(c, LxmfCommands, v, oracle) == Some(c.(flags := f.(cmdsDisabled := true))))
    ensures !SaysOn(v) && !SaysOff(v) ==>
      forall key: Key | IsFlag(key) :: SetField(c, key, v, oracle).None?
  {
    hide SaysOn, SaysOff, ParseBool;
    FlagWords(v);
    WordsApart(v);
  }

  /** The digits of a hash, of either case. */
  lemma HexDigits(c: byte)
    ensures forall n | 0 <= n < 16 :: HexVal(c) == n <==>
      c == "0123456789abcdef"[n] as int || c == "0123456789ABCDEF"[n] as int
  {}

  /** The collector is cleared by three words or an empty text, set by 32 hex
      digits, two to a byte and the high one first, and by nothing else. */
  lemma CollectorIsSet(c: Config, v: seq<byte>, oracle: Oracle)
    ensures var r := SetField(c, Collector, v, oracle);
      && (Is(v, "none") || Is(v, "off") || Is(v, "clear") || v == [] ==> r == Some(c.(collector := Zeros(16))))
      && (r.Some? ==> || Is(v, "none") || Is(v, "off") || Is(v, "clear") || v == []
                      || (|v| == 32 && forall i | 0 <= i < 32 :: HexVal(v[i]) < 16))
      && (|v| == 32 && (forall i | 0 <= i < 32 :: HexVal(v[i]) < 16) ==>
            r.Some? && |r.value.collector| == 16 && r.value == c.(collector := r.value.collector)
            && forall i | 0 <= i < 16 :: r.value.collector[i] == 16 * HexVal(v[2 * i]) + HexVal(v[2 * i + 1]))
  {
    assert Is(v, "none") <==> v == T_NONE;
    assert Is(v, "off") <==> v == T_OFF;
    assert Is(v, "clear") <==> v == T_CLEAR;
  }

  /** A name of one to 31 characters, none of them a separator, is taken, with
      zeros behind it. */
  lemma NameIsSet(c: Config, v: seq<byte>, oracle: Oracle)
    ensures SetField(c, DisplayName, v, oracle)
      == if 0 < |v| <= 31 && '|' as int !in v then Some(c.(name := v + Zeros(32 - |v|))) else None
  {}

  /** An interval is off, or between ten seconds and seven days. */
  lemma IntervalIsSet(c: Config, v: seq<byte>, oracle: Oracle)
    ensures var n := Numbers.ParseUnsigned(v);
      var fits := n.Some? && (n.value == 0 || 10000 <= n.value <= 7 * 24 * 3600000);
      && SetField(c, TeleInterval, v, oracle) == (if fits then Some(c.(teleMs := n.value)) else None)
      && SetField(c, LxmfInterval, v, oracle) == (if fits then Some(c.(lxmfMs := n.value)) else None)
  {}

  /** The log level is 0, 1 or 2; a multiplier is one that compares inside its
      range. */
  lemma LevelIsSet(c: Config, v: seq<byte>, oracle: Oracle)
    ensures var n := Numbers.ParseSigned(v);
      SetField(c, LogLevel, v, oracle) == if n.Some? && 0 <= n.value <= 2 then Some(c.(logLevel := n.value)) else None
    ensures var r := oracle(BattMult, v);
      SetField(c, BattMult, v, oracle) == if r.Multiplier? && r.inRange then Some(c.(battMult := r.bits)) else None
    ensures SetField(c, UnknownKey, v, oracle) == None
  {}

  // ---- The ranges are the validator's ---------------------------------------------------

  /** The numeric fields the validator checks. */
  predicate IsChecked(key: Key) {
    || key.FreqHz? || key.BwHz? || key.BtPin? || key.SpreadingFactor? || key.CodingRate? || key.TxpDbm?
    || key.Altitude? || key.Latitude? || key.Longitude?
  }

  /** The number a text stands for, as the parser of its field reads it. */
  function Read(key: Key, v: seq<byte>, oracle: Oracle): Option<int>
    requires IsChecked(key)
  {
    if key.Latitude? || key.Longitude? then
      (match oracle(key, v)
       case Microdegrees(udeg) => Some(udeg)
       case _ => None)
    else if key.FreqHz? || key.BwHz? || key.BtPin? then
      (match Numbers.ParseUnsigned(v)
       case None => None
       case Some(n) => Some(n))
    else Numbers.ParseSigned(v)
  }

  /** The configuration with that number in the field, if the field can hold it. */
  function Put(c: Config, key: Key, n: int): Option<Config>
    requires IsChecked(key)
  {
    match key
    case FreqHz => if n >= 0 then Some(c.(freqHz := n)) else None
    case BwHz => if n >= 0 then Some(c.(bwHz := n)) else None
    case BtPin => if n >= 0 then Some(c.(btPin := n)) else None
    case SpreadingFactor => if 0 <= n < 256 then Some(c.(sf := n)) else None
    case CodingRate => if 0 <= n < 256 then Some(c.(cr := n)) else None
    case TxpDbm => Some(c.(txpDbm := n))
    case Altitude => Some(c.(altitude := n))
    case Latitude => Some(c.(latitude := n))
    case Longitude => Some(c.(longitude := n))
  }

  function Validated(c: Option<Config>): Option<Config> {
    if c.Some? && Validate(c.value) then c else None
  }

  /** A numeric field is set exactly when its text reads as a number that the
      validator lets pass in that field of a sound configuration, whichever that
      is, and then to that number, whatever the other fields hold. */
  lemma RangeMatches(c: Config, sound: Config, key: Key, v: seq<byte>, oracle: Oracle)
    requires Sound(sound) && IsChecked(key)
    ensures var n := Read(key, v, oracle);
      SetField(c, key, v, oracle)
      == if n.Some? && Validated(Put(sound, key, n.value)).Some? then Put(c, key, n.value) else None
  {
    if key.FreqHz? || key.BwHz? || key.BtPin? {
      UnsignedMatches(c, sound, key, v, Numbers.ParseUnsigned(v));
    } else if !key.Latitude? && !key.Longitude? {
      SignedMatches(c, sound, key, v, Numbers.ParseSigned(v));
    } else {
      PlaceMatches(c, sound, key, oracle(key, v));
    }
  }

  lemma UnsignedMatches(c: Config, sound: Config, key: Key, v: seq<byte>, n: Option<nat>)
    requires Sound(sound) && n == Numbers.ParseUnsigned(v) && (key.FreqHz? || key.BwHz? || key.BtPin?)
    ensures SetUnsigned(c, key, v)
      == if n.Some? && Validated(Put(sound, key, n.value)).Some? then Put(c, key, n.value) else None
  {}

  lemma SignedMatches(c: Config, sound: Config, key: Key, v: seq<byte>, n: Option<int>)
    requires Sound(sound) && n == Numbers.ParseSigned(v)
    requires key.SpreadingFactor? || key.CodingRate? || key.TxpDbm? || key.Altitude?
    ensures SetSigned(c, key, v)
      == if n.Some? && Validated(Put(sound, key, n.value)).Some? then Put(c, key, n.value) else None
  {}

  lemma PlaceMatches(c: Config, sound: Config, key: Key, r: Reading)
    requires Sound(sound) && (key.Latitude? || key.Longitude?)
    ensures SetFloat(c, key, r)
      == if r.Microdegrees? && Validated(Put(sound, key, r.udeg)).Some? then Put(c, key, r.udeg) else None
  {}
}
