/** What a stored file of each age loads as, and what saving writes. */
module ConfigLoad {
  import opened Basics
  import opened Bits
  import opened ConfigRecord
  import Crc32

  function CrcByte(data: seq<byte>, i: nat): byte
    requires i < 4
  {
    Crc32.WordBytes(Crc32.WORD_SIZE, Crc32.Checksum(data))[i]
  }

  /** The checksum of `data` as the four bytes of a crc32 field. */
  function CrcOf(data: seq<byte>): (s: seq<byte>)
    ensures |s| == 4
  {
    seq(4, i requires 0 <= i < 4 => CrcByte(data, i))
  }

  method ComputeCrc(data: seq<byte>) returns (s: seq<byte>)
    ensures s == CrcOf(data)
  {
    var crc := Crc32.Compute(data);
    s := Crc32.WordBytes(Crc32.WORD_SIZE, crc);
  }

  /** The file is some bytes and their checksum. */
  predicate Intact(data: seq<byte>) {
    |data| >= 4 && data[|data| - 4..] == CrcOf(data[..|data| - 4])
  }

  /** The configuration with a fresh checksum over its record. */
  function Stamped(c: Config): Config
    requires Representable(c)
  {
    c.(crc := CrcOf(Encode(c)[..CRC_COVERED]))
  }

  /** What saving writes: version 3, freshly stamped. */
  function SavedForm(c: Config): Config
    requires Representable(c)
  {
    Stamped(c.(version := 3))
  }

  /** The fields of a version-1 file; what it lacked is zero, and log_level gets
      its normal default. */
  function FromV1(s: seq<byte>): Config
    requires |s| == V1_SIZE
  {
    Config(LeAt(s, 0, 2), 1, 0, Word(s, 4), Word(s, 8), s[12], s[13], Signed8(s[14]), FlagsOf(s[15]),
           Word(s, 16), Word(s, 20), Word(s, 24), 0, 0, 0, 0, s[28..60], Zeros(16), Zeros(4))
  }

  /** A version-2 file in the version-3 layout. */
  function Widened(s: seq<byte>): (r: seq<byte>)
    requires |s| == V2_SIZE
    ensures |r| == RECORD_SIZE
  {
    s[..SHARED_PREFIX] + Zeros(20)
  }

  function MigratedV1(c: Config): Config {
    c.(btPin := 0, latitude := 0, longitude := 0, altitude := 0, flags := c.flags.(btEnabled := false), version := 3,
       crc := Zeros(4))
  }

  lemma V1IsRepresentable(s: seq<byte>)
    requires |s| == V1_SIZE
    ensures Representable(FromV1(s))
  {
    VersionWrites(s, 0);
    WordWrites(s, 4, 0);
    WordWrites(s, 8, 0);
    WordWrites(s, 16, 0);
    WordWrites(s, 20, 0);
    WordWrites(s, 24, 0);
    FlagsWrite(s[15]);
  }

  datatype Loaded = Loaded(config: Config, migrated: bool)

  function LoadV1(data: seq<byte>): Option<Loaded>
    requires |data| == V1_SIZE
  {
    var t := FromV1(data);
    if !Intact(data) || !Validate(t) then None
    else
      V1IsRepresentable(data);
      Some(Loaded(Stamped(MigratedV1(t)), true))
  }

  function LoadV2(data: seq<byte>): Option<Loaded>
    requires |data| == V2_SIZE
  {
    var t := Decode(Widened(data)).(version := 3);
    if !Intact(data) || !Validate(t) then None
    else
      DecodedIsRepresentable(Widened(data));
      Some(Loaded(Stamped(t), true))
  }

  function LoadV3(data: seq<byte>): Option<Loaded>
    requires |data| == RECORD_SIZE
  {
    var t := Decode(data);
    if !Intact(data) || !Validate(t) then None else Some(Loaded(t, false))
  }

  /** What a file loads as; its size tells its age. */
  function LoadBytes(data: seq<byte>): Option<Loaded> {
    if |data| == V1_SIZE then LoadV1(data)
    else if |data| == V2_SIZE then LoadV2(data)
    else if |data| == RECORD_SIZE then LoadV3(data)
    else None
  }

  // ---- The code ------------------------------------------------------------------

  /** The range checks in order, then the search for the name's terminator. */
  method CheckFields(c: Config) returns (ok: bool)
    ensures ok == Validate(c)
  {
    if c.version != 1 && c.version != 2 && c.version != 3 {
      return false;
    }
    if !RadioValid(c) || (c.version >= 2 && !PlaceValid(c)) {
      return false;
    }
    for i := 0 to |c.name|
      invariant 0 !in c.name[..i]
    {
      if c.name[i] == 0 {
        return true;
      }
    }
    return false;
  }

  method CheckCrc(data: seq<byte>) returns (ok: bool)
    requires |data| >= 4
    ensures ok == Intact(data)
  {
    var actual := ComputeCrc(data[..|data| - 4]);
    ok := data[|data| - 4..] == actual;
  }

  method Stamp(c: Config) returns (r: Config)
    requires Representable(c)
    ensures r == Stamped(c)
  {
    var crc := ComputeCrc(Encode(c)[..CRC_COVERED]);
    r := c.(crc := crc);
  }

  method BuildRecord(c: Config) returns (record: seq<byte>)
    requires Representable(c)
    ensures Representable(SavedForm(c)) && record == Encode(SavedForm(c))
  {
    var tmp := c.(version := 3);
    var stamped := Stamp(tmp);
    StampedRecord(tmp);
    record := Encode(stamped);
  }

  /** The three load paths, told apart by size. */
  method ReadFile(data: seq<byte>) returns (r: Option<Loaded>)
    ensures r == LoadBytes(data)
  {
    if |data| != V1_SIZE && |data| != V2_SIZE && |data| != RECORD_SIZE {
      return None;
    }
    var ok := CheckCrc(data);
    if !ok {
      return None;
    }
    var tmp: Config;
    if |data| == V1_SIZE {
      tmp := FromV1(data);
    } else if |data| == V2_SIZE {
      tmp := Decode(Widened(data)).(version := 3);
    } else {
      tmp := Decode(data);
    }
    ok := CheckFields(tmp);
    if !ok {
      return None;
    }
    if |data| == V1_SIZE {
      V1IsRepresentable(data);
      tmp := Stamp(MigratedV1(tmp));
    } else if |data| == V2_SIZE {
      DecodedIsRepresentable(Widened(data));
      tmp := Stamp(tmp);
    }
    return Some(Loaded(tmp, |data| != RECORD_SIZE));
  }

  // ---- Saving and loading back -------------------------------------------------------

  lemma StampedRecord(c: Config)
    requires Representable(c)
    ensures Representable(Stamped(c)) && Intact(Encode(Stamped(c)))
    ensures Encode(Stamped(c))[..CRC_COVERED] == Encode(c)[..CRC_COVERED]
  {
    var s, t := Encode(c), Encode(Stamped(c));
    assert t[..CRC_COVERED] == s[..CRC_COVERED] by {
      forall i | 0 <= i < CRC_COVERED ensures t[i] == s[i] {
        assert RecordByte(Stamped(c), i) == RecordByte(c, i);
      }
    }
    SliceReads(Stamped(c), t);
    assert t[92..96] == t[92..];
  }

  /** A stamped record loads as itself exactly when it validates. */
  lemma StampedLoads(c: Config)
    requires Representable(c)
    ensures Representable(Stamped(c))
    ensures LoadBytes(Encode(Stamped(c))) == if Validate(c) then Some(Loaded(Stamped(c), false)) else None
  {
    StampedRecord(c);
    RecordRoundTrip(Stamped(c));
  }

  /** Loading what was saved gives the configuration back with version 3 and a
      fresh checksum, just when it validates as version 3. */
  lemma LoadAfterSave(c: Config)
    requires Representable(c)
    ensures Representable(SavedForm(c))
    ensures LoadBytes(Encode(SavedForm(c)))
      == if Validate(c.(version := 3)) then Some(Loaded(SavedForm(c), false)) else None
  {
    StampedLoads(c.(version := 3));
  }

  /** What save accepts load takes back, unless it was a version-1 record whose
      younger fields are out of range; save does not look at those. */
  lemma SavedIsLoadedIff(c: Config)
    requires Representable(c) && Validate(c)
    ensures Representable(SavedForm(c))
    ensures LoadBytes(Encode(SavedForm(c))).Some? <==> c.version >= 2 || PlaceValid(c)
  {
    LoadAfterSave(c);
  }

  /** Such a record exists: saved without complaint, refused at the next boot. */
  lemma SavedButRefused(c: Config)
    requires Representable(c) && Validate(c) && c.version == 1
    ensures var d := c.(btPin := 1000000);
      && Representable(d) && Validate(d) && Representable(SavedForm(d)) && LoadBytes(Encode(SavedForm(d))).None?
  {
    SavedIsLoadedIff(c.(btPin := 1000000));
  }

  // ---- Migrations ------------------------------------------------------------------------

  /** A migrated configuration is a valid, stamped version-3 record, and loading
      that record takes the plain path and gives the same configuration. */
  lemma MigratedLoadsAgain(data: seq<byte>)
    requires LoadBytes(data).Some? && LoadBytes(data).value.migrated
    ensures var c := LoadBytes(data).value.config;
      && Representable(c) && Validate(c) && c.version == 3
      && LoadBytes(Encode(c)) == Some(Loaded(c, false))
  {
    if |data| == V1_SIZE {
      V1IsRepresentable(data);
      StampedLoads(MigratedV1(FromV1(data)));
    } else {
      DecodedIsRepresentable(Widened(data));
      StampedLoads(Decode(Widened(data)).(version := 3));
    }
  }

  lemma V1Byte(s: seq<byte>, c: Config, i: nat)
    requires |s| == V1_SIZE && c == FromV1(s) && Representable(c) && 4 <= i < 28 && i != 15
    ensures RecordByte(c, i) == s[i]
  {
    if i < 8 {
      WordWrites(s, 4, i - 4);
    } else if i < 12 {
      WordWrites(s, 8, i - 8);
    } else if 16 <= i < 20 {
      WordWrites(s, 16, i - 16);
    } else if 20 <= i < 24 {
      WordWrites(s, 20, i - 20);
    } else if 24 <= i {
      WordWrites(s, 24, i - 24);
    }
  }

  /** Migrating a version-1 file keeps every byte of its radio, battery and
      interval fields, its name and all flags but Bluetooth's; the rest is
      reset: version 3, log level 1, and zeros. */
  lemma V1Preserved(data: seq<byte>)
    requires |data| == V1_SIZE && LoadBytes(data).Some?
    ensures var c := LoadBytes(data).value.config;
      && Representable(c)
      && (forall i | 4 <= i < 28 && i != 15 :: Encode(c)[i] == data[i])
      && Encode(c)[44..76] == data[28..60]
      && c.flags == FlagsOf(data[15]).(btEnabled := false)
      && c.version == 3 && c.logLevel == 1 && c.reserved == 0
      && c.btPin == 0 && c.latitude == 0 && c.longitude == 0 && c.altitude == 0 && c.collector == Zeros(16)
  {
    V1IsRepresentable(data);
    var t, c := FromV1(data), LoadBytes(data).value.config;
    StampedRecord(MigratedV1(t));
    forall i | 4 <= i < 28 && i != 15 ensures Encode(c)[i] == data[i] {
      V1Byte(data, t, i);
      assert RecordByte(c, i) == RecordByte(t, i);
    }
    SliceReads(c, Encode(c));
  }

  /** Migrating a version-2 file keeps all 74 bytes behind its version number;
      the collector starts unset. */
  lemma V2Preserved(data: seq<byte>)
    requires |data| == V2_SIZE && LoadBytes(data).Some?
    ensures var c := LoadBytes(data).value.config;
      && Representable(c) && c.version == 3 && c.collector == Zeros(16)
      && (forall i | 2 <= i < SHARED_PREFIX :: Encode(c)[i] == data[i])
  {
    var w := Widened(data);
    DecodedIsRepresentable(w);
    var t, c := Decode(w), LoadBytes(data).value.config;
    StampedRecord(t.(version := 3));
    forall i | 2 <= i < SHARED_PREFIX ensures Encode(c)[i] == data[i] {
      ByteBack(w, t, i);
      assert RecordByte(c, i) == RecordByte(t, i);
    }
    assert w[76..92] == Zeros(16);
  }

  // ---- Exactly which files load ----------------------------------------------------------

  /** The radio fields of a file, which are in one place in every version. */
  predicate RadioInRange(data: seq<byte>)
    requires |data| >= 15
  {
    && 100000000 <= LeAt(data, 4, 4) <= 1100000000 && 7800 <= LeAt(data, 8, 4) <= 500000
    && 7 <= data[12] <= 12 && 5 <= data[13] <= 8 && (data[14] <= 22 || data[14] >= 247)
  }

  /** The PIN and the position, in the two younger layouts. */
  predicate PlaceInRange(data: seq<byte>)
    requires |data| >= 44
  {
    && LeAt(data, 28, 4) <= 999999 && Around(LeAt(data, 32, 4), 90000000)
    && Around(LeAt(data, 36, 4), 180000000) && Around(LeAt(data, 40, 4), 100000)
  }

  /** The word, in two's complement, is at most `most` away from zero. */
  predicate Around(word: nat, most: nat) {
    word <= most || 0x1_0000_0000 - most <= word < 0x1_0000_0000
  }

  predicate KnownVersion(data: seq<byte>)
    requires |data| >= 2
  {
    1 <= LeAt(data, 0, 2) <= 3
  }

  lemma AroundIs(s: seq<byte>, p: nat, most: nat)
    requires p + 4 <= |s| && most < 0x8000_0000
    ensures 0 - most <= FromRaw32(Word(s, p)) <= most <==> Around(LeAt(s, p, 4), most)
  {
    LeRewrites(s, p, 4);
    Ranges();
  }

  /** A 64-byte file loads just when it ends in its own checksum, has a version
      from 1 to 3, radio fields in range, and a NUL in its name. */
  lemma V1LoadsIff(data: seq<byte>)
    requires |data| == 64
    ensures LoadBytes(data).Some? <==>
      Crc32.Sealed(data) && KnownVersion(data) && RadioInRange(data) && 0 in data[28..60]
  {
    hide LeAt, Intact, Crc32.Sealed;
    IntactIsSealed(data);
  }

  /** An 80-byte file loads just when it ends in its own checksum, has radio
      fields, PIN and position in range, and a NUL in its name; its version
      number is not looked at. */
  lemma V2LoadsIff(data: seq<byte>)
    requires |data| == 80
    ensures LoadBytes(data).Some? <==>
      Crc32.Sealed(data) && RadioInRange(data) && PlaceInRange(data) && 0 in data[44..76]
  {
    hide LeAt, FromRaw32, Intact, Crc32.Sealed;
    IntactIsSealed(data);
    var w := Widened(data);
    SameField(data, 4);
    SameField(data, 8);
    SameField(data, 28);
    SameField(data, 32);
    SameField(data, 36);
    SameField(data, 40);
    AroundIs(w, 32, 90000000);
    AroundIs(w, 36, 180000000);
    AroundIs(w, 40, 100000);
    assert w[44..76] == data[44..76];
  }

  lemma SameField(s: seq<byte>, p: nat)
    requires |s| == V2_SIZE && p + 4 <= SHARED_PREFIX
    ensures LeAt(s, p, 4) == LeAt(Widened(s), p, 4)
  {
    var t := Widened(s);
    SliceOfSlice(s, 0, SHARED_PREFIX, p, p + 4);
    assert t[p..p + 4] == t[..SHARED_PREFIX][p..p + 4] == s[p..p + 4];
    LeRewrites(s, p, 4);
    LeReads(t, p, 4, LeAt(s, p, 4));
  }

  /** A 96-byte file loads just when it ends in its own checksum, has a version
      from 1 to 3, radio fields in range, PIN and position too unless it says
      version 1, and a NUL in its name. Files of other sizes never load. */
  lemma V3LoadsIff(data: seq<byte>)
    requires |data| == 96
    ensures LoadBytes(data).Some? <==>
      && Crc32.Sealed(data) && KnownVersion(data) && RadioInRange(data)
      && (LeAt(data, 0, 2) >= 2 ==> PlaceInRange(data)) && 0 in data[44..76]
  {
    hide Decode, Validate, Intact, Crc32.Sealed, KnownVersion, RadioInRange, PlaceInRange, LeAt;
    IntactIsSealed(data);
    V3FieldsIff(data);
  }

  lemma V3FieldsIff(data: seq<byte>)
    requires |data| == 96
    ensures Validate(Decode(data)) <==>
      && KnownVersion(data) && RadioInRange(data)
      && (LeAt(data, 0, 2) >= 2 ==> PlaceInRange(data)) && 0 in data[44..76]
  {
    hide LeAt, FromRaw32;
    AroundIs(data, 32, 90000000);
    AroundIs(data, 36, 180000000);
    AroundIs(data, 40, 100000);
  }

  lemma OtherSizesNeverLoad(data: seq<byte>)
    requires |data| != 64 && |data| != 80 && |data| != 96
    ensures LoadBytes(data).None?
  {}

  // ---- What the checksum rules out ---------------------------------------------------

  lemma IntactIsSealed(data: seq<byte>)
    ensures Intact(data) <==> Crc32.Sealed(data)
  {
    if |data| >= 4 {
      var w := Crc32.WordBytes(Crc32.WORD_SIZE, Crc32.Checksum(data[..|data| - 4]));
      assert CrcOf(data[..|data| - 4]) == w;
    }
  }

  /** Two different 96-byte records that differ only inside a window of four
      consecutive bytes, wherever it lies, are not both loaded. */
  lemma BurstIsRefused(r: seq<byte>, s: seq<byte>, at: nat)
    requires |r| == RECORD_SIZE && |s| == RECORD_SIZE && at + 4 <= RECORD_SIZE && r != s
    requires r[..at] == s[..at] && r[at + 4..] == s[at + 4..]
    ensures LoadBytes(r).None? || LoadBytes(s).None?
  {
    if Intact(r) && Intact(s) {
      IntactIsSealed(r);
      IntactIsSealed(s);
      Crc32.SealedBurst(r, s, at);
    }
  }
}
