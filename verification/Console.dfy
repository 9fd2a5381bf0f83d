/** The staging area in use: console and Bluetooth commands over it, from boot to
    commit. */
module Console {
  import opened Basics
  import opened Bits
  import opened ConfigRecord
  import opened ConfigLoad
  import opened ConfigStore
  import opened Staging
  import Command
  import Numbers
  import Pipe

  // ---- Defaults ----------------------------------------------------------------

  /** A board header's constants. */
  datatype Board = Board(freqHz: nat, bwHz: nat, sf: byte, cr: byte, txpDbm: int, battMult: nat)

  predicate BoardValid(b: Board) {
    && 7 <= b.sf <= 12 && 5 <= b.cr <= 8 && -9 <= b.txpDbm <= 22 && Unsigned32(b.battMult)
    && 100000000 <= b.freqHz <= 1100000000 && 7800 <= b.bwHz <= 500000
  }

  function UpperHexDigit(n: nat): byte
    requires n < 16
  {
    if n < 10 then 0x30 + n else 0x41 + n - 10
  }

  /** The low `n` hex digits of `v`. */
  function UpperHex(n: nat, v: nat): (s: seq<byte>)
    ensures |s| == n && forall i | 0 <= i < n :: 0x30 <= s[i] <= 0x46
  {
    if n == 0 then [] else UpperHex(n - 1, v / 16) + [UpperHexDigit(v % 16)]
  }

  /** "Rptr-" and twelve hex digits of the chip's id. */
  function DeviceName(id0: Word32, id1: Word32): (s: seq<byte>)
    ensures |s| == 17
  {
    [0x52, 0x70, 0x74, 0x72, 0x2d] + UpperHex(4, id1) + UpperHex(8, id0)
  }

  function Defaults(b: Board, id0: Word32, id1: Word32): Config {
    Config(3, 1, 0, b.freqHz, b.bwHz, b.sf, b.cr, b.txpDbm, Flags(true, true, true, false, true, false, 0), b.battMult,
           10800000, 1800000, 0, 0, 0, 0, NameBuffer(DeviceName(id0, id1)), Zeros(16), Zeros(4))
  }

  lemma DeviceNameIsPlain(id0: Word32, id1: Word32)
    ensures NameText(DeviceName(id0, id1)) && 0 !in DeviceName(id0, id1)
  {}

  /** A fresh board's configuration is valid, prints faithfully, and does not
      transmit. */
  lemma DefaultsAreSound(b: Board, id0: Word32, id1: Word32)
    requires BoardValid(b)
    ensures Sound(Defaults(b, id0, id1)) && Pipe.Printable(Defaults(b, id0, id1))
    ensures Defaults(b, id0, id1).flags.txDisabled
  {
    DeviceNameIsPlain(id0, id1);
    NameIsTerminated(DeviceName(id0, id1));
    Pipe.BufferIsNamed(DeviceName(id0, id1));
  }

  /** The rest of a fresh board's configuration: log level normal, telemetry every
      three hours and presence every half hour, both armed like the heartbeat;
      Bluetooth off, remote commands on; no position, PIN or collector. */
  lemma DefaultValues(b: Board, id0: Word32, id1: Word32)
    ensures var c := Defaults(b, id0, id1);
      && c.version == 3 && c.logLevel == 1 && c.teleMs == 3 * 3600000 && c.lxmfMs == 30 * 60000
      && c.freqHz == b.freqHz && c.bwHz == b.bwHz && c.sf == b.sf && c.cr == b.cr && c.txpDbm == b.txpDbm
      && c.battMult == b.battMult && c.flags.telemetry && c.flags.lxmf && c.flags.heartbeat
      && !c.flags.btEnabled && c.flags.txDisabled && !c.flags.cmdsDisabled && c.flags.high == 0
      && c.btPin == 0 && c.latitude == 0 && c.longitude == 0 && c.altitude == 0 && c.reserved == 0
      && c.name == DeviceName(id0, id1) + Zeros(15) && c.collector == Zeros(16) && c.crc == Zeros(4)
  {}

  /** The number a row of upper-case hex digits stands for. */
  function HexNumber(s: seq<byte>): nat {
    if s == [] then 0
    else
      var c := s[|s| - 1];
      16 * HexNumber(s[..|s| - 1])
      + if 0x30 <= c <= 0x39 then c - 0x30 else if 0x41 <= c <= 0x46 then c - 0x41 + 10 else 0
  }

  lemma {:induction false} HexReadsBack(n: nat, v: nat)
    ensures HexNumber(UpperHex(n, v)) == v % HexRange(n)
  {
    if n > 0 {
      HexReadsBack(n - 1, v / 16);
      var s := UpperHex(n, v);
      assert s[..n - 1] == UpperHex(n - 1, v / 16) && s[n - 1] == UpperHexDigit(v % 16);
      SixteenMod(v, HexRange(n - 1));
    }
  }

  function HexRange(n: nat): (r: nat)
    ensures r > 0
  {
    if n == 0 then 1 else 16 * HexRange(n - 1)
  }

  lemma SixteenMod(v: nat, r: nat)
    requires r > 0
    ensures 16 * (v / 16 % r) + v % 16 == v % (16 * r)
  {
    var q, m := v / 16 / r, v / 16 % r;
    assert v / 16 == q * r + m;
    Multiple(q, r);
    assert v == 16 * r * q + (16 * m + v % 16);
    Remainder(v, 16 * r, q, 16 * m + v % 16);
  }

  lemma Multiple(q: nat, r: nat)
    ensures 16 * (q * r) == 16 * r * q
  {}

  lemma Remainder(v: nat, d: nat, q: nat, m: nat)
    requires d > 0 && v == d * q + m && m < d
    ensures v % d == m
  {
    var k := v / d;
    assert v == d * k + v % d;
    Apart(d, q, k);
    Apart(d, k, q);
  }

  lemma Apart(d: nat, a: nat, b: nat)
    ensures a > b ==> d * a >= d * b + d
  {
    if a > b {
      assert d * a == d * b + d * (a - b);
      assert d * (a - b) == d + d * (a - b - 1);
    }
  }

  /** Boards get different default names just when their chip ids differ in the
      48 bits the name shows, four digits of one word and eight of the other. */
  lemma NamesDifferIff(a0: Word32, a1: Word32, b0: Word32, b1: Word32)
    ensures DeviceName(a0, a1)[..5] == ['R' as int, 'p' as int, 't' as int, 'r' as int, '-' as int]
    ensures HexNumber(DeviceName(a0, a1)[5..9]) == a1 % 0x1_0000 && HexNumber(DeviceName(a0, a1)[9..]) == a0
    ensures DeviceName(a0, a1) == DeviceName(b0, b1) <==> a0 == b0 && a1 % 0x1_0000 == b1 % 0x1_0000
  {
    NameShows(a0, a1);
    NameShows(b0, b1);
    HexRanges();
    if a0 == b0 && a1 % 0x1_0000 == b1 % 0x1_0000 {
      LowDigitsOnly(4, a1);
      LowDigitsOnly(4, b1);
    }
  }

  lemma NameShows(id0: Word32, id1: Word32)
    ensures var name := DeviceName(id0, id1);
      && name[5..9] == UpperHex(4, id1) && name[9..] == UpperHex(8, id0)
      && HexNumber(name[5..9]) == id1 % 0x1_0000 && HexNumber(name[9..]) == id0
  {
    hide HexNumber, UpperHex, HexRange;
    var name := DeviceName(id0, id1);
    assert name[5..9] == UpperHex(4, id1) && name[9..] == UpperHex(8, id0);
    HexReadsBack(4, id1);
    HexReadsBack(8, id0);
    HexRanges();
  }

  lemma HexRanges()
    ensures HexRange(4) == 0x1_0000 && HexRange(8) == 0x1_0000_0000
  {
    assert HexRange(4) == 0x1_0000;
    assert HexRange(6) == 0x100_0000;
  }

  lemma {:induction false} LowDigitsOnly(n: nat, v: nat)
    ensures UpperHex(n, v) == UpperHex(n, v % HexRange(n))
  {
    if n > 0 {
      var r := HexRange(n - 1);
      SixteenMod(v, r);
      LowDigitsOnly(n - 1, v / 16);
      var m := v % (16 * r);
      assert m == 16 * (v / 16 % r) + v % 16;
      assert m / 16 == v / 16 % r && m % 16 == v % 16;
    }
  }

  /** So is what a migration loads ... */
  lemma MigratedIsSound(data: seq<byte>)
    requires LoadBytes(data).Some? && LoadBytes(data).value.migrated
    ensures Sound(LoadBytes(data).value.config)
  {
    MigratedLoadsAgain(data);
  }

  /** ... and what a save of a sound configuration loads as: itself, restamped. */
  lemma SavedIsSound(c: Config)
    requires Sound(c)
    ensures SavedForm(c) == Stamped(c) && Sound(Stamped(c))
    ensures LoadBytes(RecordOf(c)) == Some(Loaded(Stamped(c), false))
  {
    assert c.(version := 3) == c;
    StampedRecord(c);
    StampedLoads(c);
  }

  // ---- Commands ------------------------------------------------------------------

  /** What an operator can do to the staging area. */
  datatype Action =
    | Set(key: Key, value: seq<byte>)
    | Reset
    | Revert
    | Calibrate(measured: seq<byte>, raw: nat)
    | WritePipe(data: seq<byte>)

  /** The bits of the float that dividing measured millivolts by a battery reading
      gives. */
  type Divide = (int, nat) -> Word32

  datatype Context = Context(live: Config, board: Board, id0: Word32, id1: Word32, divide: Divide, oracle: Oracle)

  /** A calibration stages the measured voltage over the reading. */
  function Calibrated(s: Config, measured: seq<byte>, raw: nat, divide: Divide): Config {
    match SignedIn(measured, 500, 10000)
    case None => s
    case Some(mv) => if raw == 0 then s else s.(battMult := divide(mv, raw))
  }

  function Act(s: Config, a: Action, x: Context): Config {
    match a
    case Set(key, value) => if value == [] then s else Pipe.SetOrKeep(s, key, value, x.oracle)
    case Reset => Defaults(x.board, x.id0, x.id1)
    case Revert => x.live
    case Calibrate(measured, raw) => Calibrated(s, measured, raw, x.divide)
    case WritePipe(data) => Pipe.Written(s, data, x.oracle)
  }

  function ActAll(s: Config, actions: seq<Action>, x: Context): Config {
    if actions == [] then s else Act(ActAll(s, actions[..|actions| - 1], x), actions[|actions| - 1], x)
  }

  /** Edits keep staging fit; and version 3, or younger fields in range, if the
      configuration the firmware runs on has them. */
  predicate KeepsFitUnder(c: Config, c': Config, live: Config) {
    && Fit(c') && (c.version == 3 && live.version == 3 ==> c'.version == 3)
    && (PlaceValid(c) && PlaceValid(live) ==> PlaceValid(c'))
  }

  lemma ActIsFit(s: Config, a: Action, x: Context)
    requires Fit(s) && Fit(x.live) && BoardValid(x.board)
    ensures KeepsFitUnder(s, Act(s, a, x), x.live)
  {
    match a
    case Set(key, value) =>
      Pipe.KeptIsFit(s, key, value, x.oracle);
    case Reset => DefaultsAreSound(x.board, x.id0, x.id1);
    case Revert =>
    case Calibrate(measured, raw) =>
    case WritePipe(data) => Pipe.WrittenIsFit(s, data, x.oracle);
  }

  lemma {:induction false} StagingStaysFit(s: Config, actions: seq<Action>, x: Context)
    requires Fit(s) && Fit(x.live) && BoardValid(x.board)
    ensures KeepsFitUnder(s, ActAll(s, actions, x), x.live)
  {
    if actions != [] {
      StagingStaysFit(s, actions[..|actions| - 1], x);
      ActIsFit(ActAll(s, actions[..|actions| - 1], x), actions[|actions| - 1], x);
    }
  }

  /** Every sequence of console and Bluetooth edits leaves the staging area valid,
      so that commit's check never fails; at version 3, if it and the running
      configuration are; and what is then saved loads back. */
  lemma StagingStaysSound(s: Config, actions: seq<Action>, x: Context)
    requires Fit(s) && Fit(x.live) && BoardValid(x.board)
    ensures Fit(ActAll(s, actions, x))
    ensures Sound(s) && Sound(x.live) ==> var c := ActAll(s, actions, x);
      Sound(c) && LoadBytes(RecordOf(c)) == Some(Loaded(Stamped(c), false))
    ensures PlaceValid(s) && PlaceValid(x.live) ==> var c := ActAll(s, actions, x);
      Savable(c) && LoadBytes(RecordOf(c)) == Some(Loaded(SavedForm(c), false))
  {
    StagingStaysFit(s, actions, x);
    var c := ActAll(s, actions, x);
    if Sound(c) {
      SavedIsSound(c);
    }
    LoadAfterSave(c);
  }

  /** A console value is a C string. */
  predicate Typed(a: Action) {
    a.Set? ==> 0 !in a.value
  }

  /** From the defaults, every sequence of edits leaves a configuration that prints
      faithfully. */
  lemma {:induction false} ReachableIsPrintable(actions: seq<Action>, x: Context)
    requires BoardValid(x.board) && Pipe.Printable(x.live) && forall k | 0 <= k < |actions| :: Typed(actions[k])
    ensures Pipe.Printable(ActAll(Defaults(x.board, x.id0, x.id1), actions, x))
  {
    DefaultsAreSound(x.board, x.id0, x.id1);
    if actions != [] {
      var last := |actions| - 1;
      ReachableIsPrintable(actions[..last], x);
      ActIsPrintable(ActAll(Defaults(x.board, x.id0, x.id1), actions[..last], x), actions[last], x);
    }
  }

  lemma ActIsPrintable(s: Config, a: Action, x: Context)
    requires Pipe.Printable(s) && Pipe.Printable(x.live) && BoardValid(x.board) && Typed(a)
    ensures Pipe.Printable(Act(s, a, x))
  {
    match a
    case Set(key, value) =>
      if SetField(s, key, value, x.oracle).Some? {
        Pipe.SetFieldIsPrintable(s, key, value, x.oracle);
      }
    case Reset => DefaultsAreSound(x.board, x.id0, x.id1);
    case Revert =>
    case Calibrate(_, _) =>
    case WritePipe(data) => Pipe.WrittenIsPrintable(s, data, x.oracle);
  }

  /** A printable configuration is still one after a save and a load. */
  lemma SavedIsPrintable(c: Config)
    requires Pipe.Printable(c)
    ensures Representable(SavedForm(c)) && Pipe.Printable(SavedForm(c))
  {
    LoadAfterSave(c);
  }

  /** From the defaults, whatever sequence of edits is made, the printed line fits
      its buffer, and written over any staging area it brings the configuration
      across: the name, every integer field, the five flags it carries and the
      collector; the sixth flag stays. */
  lemma ReachableLineRoundTrip(actions: seq<Action>, x: Context, s: Config, texts: Pipe.FloatTexts, oracle: Oracle)
    requires BoardValid(x.board) && Pipe.Printable(x.live) && forall k | 0 <= k < |actions| :: Typed(actions[k])
    requires Pipe.PlainTexts(texts)
    ensures var c := ActAll(Defaults(x.board, x.id0, x.id1), actions, x);
      var s' := Pipe.Written(s, Pipe.Line(c, texts), oracle);
      && |Pipe.Line(c, texts)| <= 177 < Pipe.PIPE_BUF_SIZE - 1
      && Pipe.Carried(s', c) && s'.flags.cmdsDisabled == s.flags.cmdsDisabled
  {
    ReachableIsPrintable(actions, x);
    Pipe.LineRoundTrip(s, ActAll(Defaults(x.board, x.id0, x.id1), actions, x), texts, oracle);
  }

  // ---- C strings in a buffer ------------------------------------------------------

  /** Ending a C string early, and what is behind the cut. */
  lemma {:induction false} CutString(s: seq<byte>, k: nat)
    requires k < |Command.CString(s)|
    ensures Command.CString(s[k := 0]) == Command.CString(s)[..k]
    ensures Command.CString(s[k + 1..]) == Command.CString(s)[k + 1..]
  {
    if k == 0 {
      assert s[0 := 0][0] == 0;
      assert Command.CString(s) == [s[0]] + Command.CString(s[1..]);
    } else {
      CutString(s[1..], k - 1);
      assert s[k := 0][1..] == s[1..][k - 1 := 0] && s[k := 0][0] == s[0];
      assert s[1..][k..] == s[k + 1..];
      assert Command.CString(s) == [s[0]] + Command.CString(s[1..]);
    }
  }

  lemma StringStep(s: seq<byte>, rest: seq<byte>)
    requires s != [] && s[0] != 0 && rest == s[1..]
    ensures Command.CString(s) == [s[0]] + Command.CString(rest)
    ensures 0 in s ==> 0 in rest
  {
    assert s == [s[0]] + rest;
  }

  lemma SeparatorStep(s: seq<byte>, rest: seq<byte>)
    requires s != [] && s[0] != SEPARATOR && s == [s[0]] + rest
    ensures Pipe.FirstSeparator(s) == 1 + Pipe.FirstSeparator(rest)
  {
    assert s[1..] == rest;
  }

  /** The first separator or terminator at or after `p`. */
  method FindSeparator(buf: array<byte>, p: nat) returns (at: nat)
    requires p < buf.Length && 0 in buf[p..]
    ensures p <= at < buf.Length && at - p == Pipe.FirstSeparator(Command.CString(buf[p..]))
    ensures (at - p < |Command.CString(buf[p..])| && buf[at] == SEPARATOR)
            || (at - p == |Command.CString(buf[p..])| && buf[at] == 0)
  {
    at := p;
    while buf[at] != 0 && buf[at] != SEPARATOR
      invariant p <= at < buf.Length && 0 in buf[at..]
      invariant Pipe.FirstSeparator(Command.CString(buf[p..]))
        == at - p + Pipe.FirstSeparator(Command.CString(buf[at..]))
      invariant |Command.CString(buf[p..])| == at - p + |Command.CString(buf[at..])|
      decreases buf.Length - at
    {
      StringStep(buf[at..], buf[at + 1..]);
      SeparatorStep(Command.CString(buf[at..]), Command.CString(buf[at + 1..]));
      at := at + 1;
    }
    ghost var tail := buf[at..];
    assert tail[0] == buf[at];
  }

  /** The C string at `p`. */
  method StringAt(buf: array<byte>, p: nat) returns (s: seq<byte>)
    requires p < buf.Length && 0 in buf[p..]
    ensures s == Command.CString(buf[p..])
  {
    s := [];
    var at := p;
    while buf[at] != 0
      invariant p <= at < buf.Length && 0 in buf[at..]
      invariant Command.CString(buf[p..]) == s + Command.CString(buf[at..])
      decreases buf.Length - at
    {
      StringStep(buf[at..], buf[at + 1..]);
      s := s + [buf[at]];
      at := at + 1;
    }
    assert buf[at..][0] == 0;
  }

  /** Cuts off the field at `p` in place. */
  method TakeField(buf: array<byte>, p: nat, n: nat) returns (value: seq<byte>, found: bool, next: nat)
    requires p <= n < buf.Length && buf[n] == 0
    modifies buf
    ensures var text := old(Command.CString(buf[p..]));
      var at := Pipe.FirstSeparator(text);
      && value == text[..at] && (found <==> at < |text|) && next == p + at && buf[n] == 0
      && (found ==> next < n && Command.CString(buf[next + 1..]) == text[at + 1..])
  {
    ghost var was := buf[p..];
    assert was[n - p] == 0;
    next := FindSeparator(buf, p);
    StringStopsAt(was, n - p);
    found := buf[next] == SEPARATOR;
    if found {
      CutString(was, next - p);
      buf[next] := 0;
      assert buf[p..] == was[next - p := 0] && buf[next + 1..] == was[next - p + 1..];
    }
    assert buf[p..][next - p] == 0;
    value := StringAt(buf, p);
    assert !found ==> Command.CString(was)[..next - p] == Command.CString(was);
  }

  /** The mutable, NUL-terminated copy: what does not fit is cut off. */
  method CopyLine(data: seq<byte>) returns (buf: array<byte>, n: nat)
    ensures fresh(buf) && n < buf.Length && buf[n] == 0
    ensures Command.CString(buf[..])
      == Command.CString(if |data| < Pipe.PIPE_BUF_SIZE then data else data[..Pipe.PIPE_BUF_SIZE - 1])
  {
    buf := new byte[224];
    n := if |data| < 223 then |data| else 223;
    for k := 0 to n
      invariant buf[..k] == data[..k]
    {
      buf[k] := data[k];
    }
    buf[n] := 0;
    assert buf[..n] == data[..n] && buf[..] == data[..n] + [0] + buf[n + 1..];
    StringThenNul(data[..n], buf[n + 1..], buf[..]);
    assert |data| < 224 ==> data[..n] == data;
  }

  // ---- The device -------------------------------------------------------------------

  datatype CommitResult = Committed | ValidationFailed | SaveFailed

  class Device {
    var staging: Config
    const live: Config
    const board: Board
    const id0: Word32
    const id1: Word32
    const divide: Divide
    const flash: Flash

    /** The console starts from the configuration the firmware runs on. */
    constructor (live: Config, board: Board, id0: Word32, id1: Word32, divide: Divide, flash: Flash)
      requires Fit(live) && BoardValid(board)
      ensures Valid() && staging == live && this.live == live && this.flash == flash && this.board == board
      ensures this.id0 == id0 && this.id1 == id1 && this.divide == divide
    {
      this.live, this.board, this.id0, this.id1, this.divide, this.flash := live, board, id0, id1, divide, flash;
      staging := live;
    }

    ghost predicate Valid()
      reads this
    {
      Fit(staging) && Fit(live) && BoardValid(board)
    }

    ghost function Under(oracle: Oracle): Context {
      Context(live, board, id0, id1, divide, oracle)
    }

    /** A rejected value changes nothing; an accepted one nothing but its field. */
    method ConfigSet(key: Key, value: seq<byte>, oracle: Oracle) returns (ok: bool)
      requires Valid()
      modifies this`staging
      ensures Valid() && staging == Act(old(staging), Set(key, value), Under(oracle))
      ensures ok <==> value != [] && SetField(old(staging), key, value, oracle).Some?
      ensures ok ==> SetField(old(staging), key, value, oracle) == Some(staging)
      ensures !ok ==> staging == old(staging)
      ensures Without(staging, key) == Without(old(staging), key)
    {
      if value == [] {
        return false;
      }
      var r := SetField(staging, key, value, oracle);
      if r.None? {
        return false;
      }
      OnlyThatField(staging, key, value, oracle);
      SetFieldIsFit(staging, key, value, oracle);
      staging := r.value;
      return true;
    }

    method ConfigReset(oracle: Oracle)
      requires Valid()
      modifies this`staging
      ensures Valid() && staging == Act(old(staging), Reset, Under(oracle)) == Defaults(board, id0, id1)
    {
      DefaultsAreSound(board, id0, id1);
      staging := Defaults(board, id0, id1);
    }

    method ConfigRevert(oracle: Oracle)
      requires Valid()
      modifies this`staging
      ensures Valid() && staging == Act(old(staging), Revert, Under(oracle)) == live
    {
      staging := live;
    }

    method CalibrateBattery(measured: seq<byte>, raw: nat, oracle: Oracle)
      requires Valid()
      modifies this`staging
      ensures Valid() && staging == Act(old(staging), Calibrate(measured, raw), Under(oracle))
      ensures Without(staging, BattMult) == Without(old(staging), BattMult)
      ensures var mv := Numbers.ParseSigned(measured);
        staging.battMult
          == if mv.Some? && 500 <= mv.value <= 10000 && raw > 0 then divide(mv.value, raw) else old(staging).battMult
    {
      var mv := Numbers.ParseSigned(measured);
      if mv.None? || mv.value < 500 || mv.value > 10000 || raw == 0 {
        return;
      }
      staging := staging.(battMult := divide(mv.value, raw));
    }

    /** The Bluetooth write: copied, then split in place field by field. */
    method OnConfigWrite(data: seq<byte>, oracle: Oracle)
      requires Valid()
      modifies this`staging
      ensures Valid() && staging == Act(old(staging), WritePipe(data), Under(oracle))
      ensures staging == Pipe.Written(old(staging), data, oracle)
    {
      var buf, n := CopyLine(data);
      Pipe.WrittenIsFit(staging, data, oracle);
      SplitFields(buf, n, oracle);
    }

    /** Each field in turn is cut off and set; a rejected one keeps its old value. */
    method SplitFields(buf: array<byte>, n: nat, oracle: Oracle)
      requires n < buf.Length && buf[n] == 0
      modifies this`staging, buf
      ensures staging == Pipe.Apply(old(staging), old(Command.CString(buf[..])), 0, Pipe.FieldSetter(oracle))
    {
      ghost var final := Pipe.Apply(staging, Command.CString(buf[..]), 0, Pipe.FieldSetter(oracle));
      assert buf[0..] == buf[..];
      SplitFrom(buf, n, oracle, final);
    }

    method SplitFrom(buf: array<byte>, n: nat, oracle: Oracle, ghost final: Config)
      requires Owed(staging, buf, 0, n, 0, oracle, final)
      modifies this`staging, buf
      ensures staging == final
    {
      hide Owed;
      var p: nat, i: nat := 0, 0;
      while i < 20
        invariant i <= 20 && Owed(staging, buf, p, n, i, oracle, final)
        decreases 20 - i
      {
        var found, next := ApplyField(buf, p, n, i, oracle, final);
        if !found {
          return;
        }
        p := next + 1;
        i := i + 1;
      }
      NothingOwed(buf, p, n, oracle, final);
    }

    /** The fields from `p` on, set from place `i` on, make `final` of `s`. */
    ghost predicate Owed(s: Config, buf: array<byte>, p: nat, n: nat, i: nat, oracle: Oracle, final: Config)
      reads buf
    {
      && p <= n < buf.Length && buf[n] == 0
      && Pipe.Apply(s, Command.CString(buf[p..]), i, Pipe.FieldSetter(oracle)) == final
    }

    lemma NothingOwed(buf: array<byte>, p: nat, n: nat, oracle: Oracle, final: Config)
      requires Owed(staging, buf, p, n, 20, oracle, final)
      ensures staging == final
    {}

    /** Cuts off and sets field `i`. */
    method ApplyField(buf: array<byte>, p: nat, n: nat, i: nat, oracle: Oracle, ghost final: Config)
      returns (found: bool, next: nat)
      requires i < 20 && Owed(staging, buf, p, n, i, oracle, final)
      modifies this`staging, buf
      ensures if found then Owed(staging, buf, next + 1, n, i + 1, oracle, final) else staging == final
    {
      ghost var text := Command.CString(buf[p..]);
      ghost var before := staging;
      var value;
      value, found, next := TakeField(buf, p, n);
      SetOne(i, value, oracle);
      Pipe.ApplyStep(before, text, i, Pipe.FieldSetter(oracle), staging);
    }

    method SetOne(i: nat, value: seq<byte>, oracle: Oracle)
      modifies this`staging
      ensures staging == Pipe.SetOrKeep(old(staging), Pipe.KeyAt(i), value, oracle)
    {
      var r := SetField(staging, Pipe.KeyAt(i), value, oracle);
      if r.Some? {
        staging := r.value;
      }
    }

    /** Validation never stops a commit. A save that succeeds leaves a live record
        that loads as the staging area at version 3 with a fresh checksum, unless
        that was a version-1 configuration with younger fields out of range. */
    method Commit(answers: Answers) returns (r: CommitResult)
      requires Valid() && flash.Valid() && Running(flash.Now().pc)
      modifies flash
      ensures Valid() && flash.Valid() && old(flash.trace) <= flash.trace && r != ValidationFailed
      ensures r == Committed <==>
        answers.count == 96 && answers.content == Some(RecordOf(staging)) && answers.rename != Refused
      ensures r == Committed ==> flash.live == Some(RecordOf(staging))
      ensures LoadBytes(RecordOf(staging))
        == if PlaceValid(staging) then Some(Loaded(SavedForm(staging), false)) else None
      ensures Sound(staging) ==> SavedForm(staging) == Stamped(staging) && PlaceValid(staging)
      ensures r != Committed ==> flash.live == old(flash.live)
    {
      var valid := CheckFields(staging);
      if !valid {
        return ValidationFailed;
      }
      var ok := flash.Save(staging, answers);
      LoadAfterSave(staging);
      if staging.version == 3 {
        SavedIsSound(staging);
      }
      r := if ok then Committed else SaveFailed;
    }
  }

  lemma {:induction false} StringThenNul(s: seq<byte>, rest: seq<byte>, all: seq<byte>)
    requires all == s + [0] + rest
    ensures Command.CString(all) == Command.CString(s)
  {
    if s == [] {
      assert all[0] == 0;
    } else {
      assert all[0] == s[0] && all[1..] == s[1..] + [0] + rest;
      StringThenNul(s[1..], rest, all[1..]);
    }
  }

  lemma {:induction false} StringStopsAt(s: seq<byte>, k: nat)
    requires k < |s| && s[k] == 0
    ensures |Command.CString(s)| <= k
  {
    if k > 0 && s[0] != 0 {
      StringStopsAt(s[1..], k - 1);
    }
  }
}
