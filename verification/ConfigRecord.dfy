/** The stored configuration: its 96-byte record, the two older layouts, and the
    checks a record passes before it is believed. */
module ConfigRecord {
  import opened Bits

  const RECORD_SIZE: nat := 96
  const V1_SIZE: nat := 64
  const V2_SIZE: nat := 80
  const SHARED_PREFIX: nat := 76
  const CRC_COVERED: nat := 92

  datatype Config = Config(
    version: nat, logLevel: byte, reserved: byte,
    freqHz: nat, bwHz: nat, sf: byte, cr: byte, txpDbm: int, flags: Flags,
    battMult: nat,      // the bits of a float
    teleMs: nat, lxmfMs: nat,
    btPin: nat, latitude: int, longitude: int, altitude: int,
    name: seq<byte>, collector: seq<byte>, crc: seq<byte>)

  predicate Unsigned32(v: nat) {
    v < 0x1_0000_0000
  }

  predicate Signed32(v: int) {
    -0x8000_0000 <= v < 0x8000_0000
  }

  /** The values the struct's fields can hold. */
  predicate Representable(c: Config) {
    && c.version < 0x1_0000 && Unsigned32(c.freqHz) && Unsigned32(c.bwHz) && -128 <= c.txpDbm < 128
    && Unsigned32(c.battMult) && Unsigned32(c.teleMs) && Unsigned32(c.lxmfMs) && Unsigned32(c.btPin)
    && Signed32(c.latitude) && Signed32(c.longitude) && Signed32(c.altitude)
    && |c.name| == 32 && |c.collector| == 16 && |c.crc| == 4 && c.flags.high < 4
  }

  // ---- Two's complement ------------------------------------------------------------

  function Raw8(v: int): byte
    requires -128 <= v < 128
  {
    if v < 0 then v + 0x100 else v
  }

  function Signed8(b: byte): int {
    if b < 0x80 then b else b as int - 0x100
  }

  function Raw32(v: int): nat
    requires Signed32(v)
  {
    if v < 0 then v + 0x1_0000_0000 else v
  }

  function FromRaw32(v: nat): int {
    if v < 0x8000_0000 then v else v - 0x1_0000_0000
  }

  // ---- Flag bits ----------------------------------------------------------------------

  /** The flag byte, bit 0 first; the last two stand for "disabled". */
  datatype Flags = Flags(telemetry: bool, lxmf: bool, heartbeat: bool, btEnabled: bool,
                         txDisabled: bool, cmdsDisabled: bool, high: nat)

  function Bit(b: bool): nat {
    if b then 1 else 0
  }

  function FlagByte(f: Flags): byte
    requires f.high < 4
  {
    Bit(f.telemetry) + 2 * Bit(f.lxmf) + 4 * Bit(f.heartbeat) + 8 * Bit(f.btEnabled)
    + 16 * Bit(f.txDisabled) + 32 * Bit(f.cmdsDisabled) + 64 * f.high
  }

  function FlagsOf(b: byte): Flags {
    Flags(b % 2 == 1, b / 2 % 2 == 1, b / 4 % 2 == 1, b / 8 % 2 == 1, b / 16 % 2 == 1, b / 32 % 2 == 1, b / 64)
  }

  lemma LowBit(b: bool, rest: nat)
    ensures (Bit(b) + 2 * rest) % 2 == Bit(b) && (Bit(b) + 2 * rest) / 2 == rest
  {}

  lemma FlagsRead(f: Flags)
    requires f.high < 4
    ensures FlagsOf(FlagByte(f)) == f
  {
    var r5 := Bit(f.cmdsDisabled) + 2 * f.high;
    var r4 := Bit(f.txDisabled) + 2 * r5;
    var r3 := Bit(f.btEnabled) + 2 * r4;
    var r2 := Bit(f.heartbeat) + 2 * r3;
    var r1 := Bit(f.lxmf) + 2 * r2;
    LowBit(f.telemetry, r1);
    LowBit(f.lxmf, r2);
    LowBit(f.heartbeat, r3);
    LowBit(f.btEnabled, r4);
    LowBit(f.txDisabled, r5);
    LowBit(f.cmdsDisabled, f.high);
    Halves(FlagByte(f), r1, r2, r3, r4, r5, f.high);
  }

  /** Dividing by a power of two is halving again and again. */
  lemma Halves(b: byte, r1: nat, r2: nat, r3: nat, r4: nat, r5: nat, r6: nat)
    requires b / 2 == r1 && r1 / 2 == r2 && r2 / 2 == r3 && r3 / 2 == r4 && r4 / 2 == r5 && r5 / 2 == r6
    ensures b / 4 == r2 && b / 8 == r3 && b / 16 == r4 && b / 32 == r5 && b / 64 == r6
  {}

  lemma HalfAndBit(n: nat, half: nat)
    requires half == n / 2
    ensures Bit(n % 2 == 1) + 2 * half == n
  {}

  lemma BitsAddUp(b: byte, r1: nat, r2: nat, r3: nat, r4: nat, r5: nat, r6: nat)
    requires b / 2 == r1 && b / 4 == r2 && b / 8 == r3 && b / 16 == r4 && b / 32 == r5 && b / 64 == r6 && r6 < 4
    requires Bit(b % 2 == 1) + 2 * r1 == b && Bit(r1 % 2 == 1) + 2 * r2 == r1 && Bit(r2 % 2 == 1) + 2 * r3 == r2
    requires Bit(r3 % 2 == 1) + 2 * r4 == r3 && Bit(r4 % 2 == 1) + 2 * r5 == r4 && Bit(r5 % 2 == 1) + 2 * r6 == r5
    ensures FlagsOf(b).high < 4 && FlagByte(FlagsOf(b)) == b
  {}

  lemma FlagsWrite(b: byte)
    ensures FlagsOf(b).high < 4 && FlagByte(FlagsOf(b)) == b
  {
    var r1 := b / 2;
    var r2 := r1 / 2;
    var r3 := r2 / 2;
    var r4 := r3 / 2;
    var r5 := r4 / 2;
    var r6 := r5 / 2;
    Halves(b, r1, r2, r3, r4, r5, r6);
    HalfAndBit(b, r1);
    HalfAndBit(r1, r2);
    HalfAndBit(r2, r3);
    HalfAndBit(r3, r4);
    HalfAndBit(r4, r5);
    HalfAndBit(r5, r6);
    BitsAddUp(b, r1, r2, r3, r4, r5, r6);
  }

  // ---- Validation -------------------------------------------------------------------

  predicate Terminated(name: seq<byte>) {
    0 in name
  }

  predicate RadioValid(c: Config) {
    && 7 <= c.sf <= 12 && 5 <= c.cr <= 8 && -9 <= c.txpDbm <= 22
    && 100000000 <= c.freqHz <= 1100000000 && 7800 <= c.bwHz <= 500000
  }

  /** The fields that only exist from version 2 on. */
  predicate PlaceValid(c: Config) {
    && c.btPin <= 999999 && -90000000 <= c.latitude <= 90000000
    && -180000000 <= c.longitude <= 180000000 && -100000 <= c.altitude <= 100000
  }

  predicate Validate(c: Config) {
    && (c.version == 1 || c.version == 2 || c.version == 3) && RadioValid(c)
    && (c.version >= 2 ==> PlaceValid(c))
    && Terminated(c.name)
  }

  // ---- The 96-byte record ---------------------------------------------------------------

  /** Byte `i` of the packed struct. */
  function RecordByte(c: Config, i: nat): byte
    requires Representable(c) && i < 96
  {
    if i < 2 then LeByte(2, c.version, i)
    else if i == 2 then c.logLevel
    else if i == 3 then c.reserved
    else if i < 8 then LeByte(4, c.freqHz, i - 4)
    else if i < 12 then LeByte(4, c.bwHz, i - 8)
    else if i == 12 then c.sf
    else if i == 13 then c.cr
    else if i == 14 then Raw8(c.txpDbm)
    else if i == 15 then FlagByte(c.flags)
    else if i < 20 then LeByte(4, c.battMult, i - 16)
    else if i < 24 then LeByte(4, c.teleMs, i - 20)
    else if i < 28 then LeByte(4, c.lxmfMs, i - 24)
    else if i < 32 then LeByte(4, c.btPin, i - 28)
    else if i < 36 then LeByte(4, Raw32(c.latitude), i - 32)
    else if i < 40 then LeByte(4, Raw32(c.longitude), i - 36)
    else if i < 44 then LeByte(4, Raw32(c.altitude), i - 40)
    else if i < 76 then c.name[i - 44]
    else if i < 92 then c.collector[i - 76]
    else c.crc[i - 92]
  }

  function Encode(c: Config): (s: seq<byte>)
    requires Representable(c)
    ensures |s| == 96
  {
    seq(96, i requires 0 <= i < 96 => RecordByte(c, i))
  }

  function Word(s: seq<byte>, p: nat): nat
    requires p + 4 <= |s|
  {
    LeAt(s, p, 4)
  }

  function Decode(s: seq<byte>): Config
    requires |s| == 96
  {
    Config(LeAt(s, 0, 2), s[2], s[3], Word(s, 4), Word(s, 8), s[12], s[13], Signed8(s[14]), FlagsOf(s[15]),
           Word(s, 16), Word(s, 20), Word(s, 24), Word(s, 28),
           FromRaw32(Word(s, 32)), FromRaw32(Word(s, 36)), FromRaw32(Word(s, 40)),
           s[44..76], s[76..92], s[92..96])
  }

  lemma FieldReads(s: seq<byte>, p: nat, n: nat, v: nat)
    requires p + n <= |s| && (n == 2 || n == 4) && v < Range(n) && s[p..p + n] == Le(n, v)
    ensures LeAt(s, p, n) == v
  {
    LeReads(s, p, n, v);
  }

  lemma WordReads(c: Config, s: seq<byte>, p: nat, v: nat)
    requires Representable(c) && s == Encode(c) && p + 4 <= 96 && Unsigned32(v)
    requires RecordByte(c, p) == LeByte(4, v, 0) && RecordByte(c, p + 1) == LeByte(4, v, 1)
    requires RecordByte(c, p + 2) == LeByte(4, v, 2) && RecordByte(c, p + 3) == LeByte(4, v, 3)
    ensures Word(s, p) == v
  {
    forall i | 0 <= i < 4 ensures s[p..p + 4][i] == Le(4, v)[i] {
      assert s[p..p + 4][i] == s[p + i] == RecordByte(c, p + i);
      assert i == 0 || i == 1 || i == 2 || i == 3;
    }
    Ranges();
    FieldReads(s, p, 4, v);
  }

  lemma VersionReads(c: Config, s: seq<byte>)
    requires Representable(c) && s == Encode(c)
    ensures LeAt(s, 0, 2) == c.version
  {
    forall i | 0 <= i < 2 ensures s[0..2][i] == Le(2, c.version)[i] {
      assert s[0..2][i] == s[i];
    }
    Ranges();
    FieldReads(s, 0, 2, c.version);
  }

  lemma SliceReads(c: Config, s: seq<byte>)
    requires Representable(c) && s == Encode(c)
    ensures s[44..76] == c.name && s[76..92] == c.collector && s[92..96] == c.crc
  {}

  lemma SmallFieldsRead(c: Config, s: seq<byte>)
    requires Representable(c) && s == Encode(c)
    ensures s[2] == c.logLevel && s[3] == c.reserved && s[12] == c.sf && s[13] == c.cr
    ensures Signed8(s[14]) == c.txpDbm && FlagsOf(s[15]) == c.flags
  {
    FlagsRead(c.flags);
  }

  lemma PlacesRead(c: Config, s: seq<byte>)
    requires Representable(c) && s == Encode(c)
    ensures FromRaw32(Word(s, 32)) == c.latitude && FromRaw32(Word(s, 36)) == c.longitude
    ensures FromRaw32(Word(s, 40)) == c.altitude
  {
    WordReads(c, s, 32, Raw32(c.latitude));
    WordReads(c, s, 36, Raw32(c.longitude));
    WordReads(c, s, 40, Raw32(c.altitude));
  }

  lemma WordsRead(c: Config, s: seq<byte>)
    requires Representable(c) && s == Encode(c)
    ensures Word(s, 4) == c.freqHz && Word(s, 8) == c.bwHz && Word(s, 16) == c.battMult
    ensures Word(s, 20) == c.teleMs && Word(s, 24) == c.lxmfMs && Word(s, 28) == c.btPin
  {
    WordReads(c, s, 4, c.freqHz);
    WordReads(c, s, 8, c.bwHz);
    WordReads(c, s, 16, c.battMult);
    WordReads(c, s, 20, c.teleMs);
    WordReads(c, s, 24, c.lxmfMs);
    WordReads(c, s, 28, c.btPin);
  }

  /** A configuration survives its record. */
  lemma RecordRoundTrip(c: Config)
    requires Representable(c)
    ensures Decode(Encode(c)) == c
  {
    var s := Encode(c);
    VersionReads(c, s);
    SmallFieldsRead(c, s);
    WordsRead(c, s);
    PlacesRead(c, s);
    SliceReads(c, s);
  }

  lemma WordWrites(s: seq<byte>, p: nat, k: nat)
    requires p + 4 <= |s| && k < 4
    ensures Unsigned32(Word(s, p)) && LeByte(4, Word(s, p), k) == s[p + k]
  {
    LeRewrites(s, p, 4);
    Ranges();
    assert Le(4, Word(s, p))[k] == s[p..p + 4][k];
  }

  lemma VersionWrites(s: seq<byte>, k: nat)
    requires 2 <= |s| && k < 2
    ensures LeAt(s, 0, 2) < 0x1_0000 && LeByte(2, LeAt(s, 0, 2), k) == s[k]
  {
    LeRewrites(s, 0, 2);
    Ranges();
    assert Le(2, LeAt(s, 0, 2))[k] == s[0..2][k];
  }

  lemma DecodedIsRepresentable(s: seq<byte>)
    requires |s| == 96
    ensures Representable(Decode(s))
  {
    VersionWrites(s, 0);
    WordWrites(s, 4, 0);
    WordWrites(s, 8, 0);
    WordWrites(s, 16, 0);
    WordWrites(s, 20, 0);
    WordWrites(s, 24, 0);
    WordWrites(s, 28, 0);
    WordWrites(s, 32, 0);
    WordWrites(s, 36, 0);
    WordWrites(s, 40, 0);
    FlagsWrite(s[15]);
  }

  lemma WordBack(s: seq<byte>, i: nat, p: nat, v: nat)
    requires |s| == 96 && p <= i < p + 4 && p + 4 <= 96 && v == Word(s, p)
    ensures LeByte(4, v, i - p) == s[i]
  {
    WordWrites(s, p, i - p);
  }

  lemma PlaceBack(s: seq<byte>, i: nat, p: nat, v: int)
    requires |s| == 96 && p <= i < p + 4 && p + 4 <= 96 && v == FromRaw32(Word(s, p))
    ensures Signed32(v) && LeByte(4, Raw32(v), i - p) == s[i]
  {
    WordWrites(s, p, i - p);
  }

  lemma ByteBack(s: seq<byte>, c: Config, i: nat)
    requires |s| == 96 && c == Decode(s) && Representable(c) && i < 96
    ensures RecordByte(c, i) == s[i]
  {
    if i < 2 {
      VersionWrites(s, i);
    } else if 4 <= i < 8 {
      WordBack(s, i, 4, c.freqHz);
    } else if 8 <= i < 12 {
      WordBack(s, i, 8, c.bwHz);
    } else if i == 15 {
      FlagsWrite(s[15]);
    } else if 16 <= i < 20 {
      WordBack(s, i, 16, c.battMult);
    } else if 20 <= i < 24 {
      WordBack(s, i, 20, c.teleMs);
    } else if 24 <= i < 28 {
      WordBack(s, i, 24, c.lxmfMs);
    } else if 28 <= i < 32 {
      WordBack(s, i, 28, c.btPin);
    } else if 32 <= i < 36 {
      PlaceBack(s, i, 32, c.latitude);
    } else if 36 <= i < 40 {
      PlaceBack(s, i, 36, c.longitude);
    } else if 40 <= i < 44 {
      PlaceBack(s, i, 40, c.altitude);
    }
  }

  /** Every record of 96 bytes is some configuration's. */
  lemma RecordIsOnto(s: seq<byte>)
    requires |s| == 96
    ensures Representable(Decode(s)) && Encode(Decode(s)) == s
  {
    DecodedIsRepresentable(s);
    forall i | 0 <= i < 96 ensures RecordByte(Decode(s), i) == s[i] {
      ByteBack(s, Decode(s), i);
    }
  }

  lemma SignedWordReads(c: Config, s: seq<byte>, p: nat, v: int)
    requires Representable(c) && s == Encode(c) && p + 4 <= 96 && Signed32(v)
    requires RecordByte(c, p) == LeByte(4, Raw32(v), 0) && RecordByte(c, p + 1) == LeByte(4, Raw32(v), 1)
    requires RecordByte(c, p + 2) == LeByte(4, Raw32(v), 2) && RecordByte(c, p + 3) == LeByte(4, Raw32(v), 3)
    ensures LeAt(s, p, 4) == v % 0x1_0000_0000
  {
    WordReads(c, s, p, Raw32(v));
  }

  lemma LatitudeReads(c: Config, s: seq<byte>)
    requires Representable(c) && s == Encode(c)
    ensures LeAt(s, 32, 4) == c.latitude % 0x1_0000_0000
  {
    SignedWordReads(c, s, 32, c.latitude);
  }

  lemma LongitudeReads(c: Config, s: seq<byte>)
    requires Representable(c) && s == Encode(c)
    ensures LeAt(s, 36, 4) == c.longitude % 0x1_0000_0000
  {
    SignedWordReads(c, s, 36, c.longitude);
  }

  lemma AltitudeReads(c: Config, s: seq<byte>)
    requires Representable(c) && s == Encode(c)
    ensures LeAt(s, 40, 4) == c.altitude % 0x1_0000_0000
  {
    SignedWordReads(c, s, 40, c.altitude);
  }

  lemma PowerReads(c: Config, s: seq<byte>)
    requires Representable(c) && s == Encode(c)
    ensures s[14] as int == c.txpDbm % 256
  {}

  /** The record's layout: which bytes hold which field, lowest byte first. */
  lemma Layout(c: Config, s: seq<byte>)
    requires Representable(c) && s == Encode(c)
    ensures LeAt(s, 0, 2) == c.version && s[2] == c.logLevel && s[3] == c.reserved
    ensures LeAt(s, 4, 4) == c.freqHz && LeAt(s, 8, 4) == c.bwHz && s[12] == c.sf && s[13] == c.cr
    ensures s[14] as int == c.txpDbm % 256 && s[15] == FlagByte(c.flags)
    ensures LeAt(s, 16, 4) == c.battMult && LeAt(s, 20, 4) == c.teleMs && LeAt(s, 24, 4) == c.lxmfMs
    ensures LeAt(s, 28, 4) == c.btPin && LeAt(s, 32, 4) == c.latitude % 0x1_0000_0000
    ensures LeAt(s, 36, 4) == c.longitude % 0x1_0000_0000 && LeAt(s, 40, 4) == c.altitude % 0x1_0000_0000
    ensures s[44..76] == c.name && s[76..92] == c.collector && s[92..96] == c.crc
  {
    hide Encode, LeAt, RecordByte;
    VersionReads(c, s);
    BytesRead(c, s);
    WordsRead(c, s);
    PowerReads(c, s);
    LatitudeReads(c, s);
    LongitudeReads(c, s);
    AltitudeReads(c, s);
    SliceReads(c, s);
  }

  lemma BytesRead(c: Config, s: seq<byte>)
    requires Representable(c) && s == Encode(c)
    ensures s[2] == c.logLevel && s[3] == c.reserved && s[12] == c.sf && s[13] == c.cr && s[15] == FlagByte(c.flags)
  {}

  /** The bits of the flag byte, from the lowest: telemetry, LXMF, heartbeat,
      Bluetooth, transmission inhibited, commands inhibited. */
  lemma FlagBits(f: Flags)
    requires f.high < 4
    ensures var b := FlagByte(f);
      && (b % 2 == 1 <==> f.telemetry) && (b / 2 % 2 == 1 <==> f.lxmf) && (b / 4 % 2 == 1 <==> f.heartbeat)
      && (b / 8 % 2 == 1 <==> f.btEnabled) && (b / 16 % 2 == 1 <==> f.txDisabled)
      && (b / 32 % 2 == 1 <==> f.cmdsDisabled)
  {
    FlagsRead(f);
  }
}
