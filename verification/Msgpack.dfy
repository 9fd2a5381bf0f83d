/** The MessagePack writer and reader as they run: a growing buffer and a moving
    cursor, tied to the formats and to what the skipper accepts. */
module Msgpack {
  import opened Bits
  import opened MsgpackFormat
  import opened MsgpackReader
  import opened MsgpackSkip

  // ---- What the writer is given ---------------------------------------------

  /** A value to encode; a map lists its keys and values alternating. */
  datatype Value =
    | Nil
    | Bool(b: bool)
    | Num(v: int)
    | Float(bits: nat)
    | Text(s: seq<byte>)
    | Blob(s: seq<byte>)
    | List(elements: seq<Value>)
    | Dict(entries: seq<Value>)

  /** The argument ranges of the emitters: 64-bit numbers, 32-bit sizes. */
  predicate InRange(v: Value) {
    match v
    case Nil => true
    case Bool(_) => true
    case Num(n) => -0x8000_0000_0000_0000 <= n < 0x1_0000_0000_0000_0000
    case Float(bits) => bits < 0x1_0000_0000_0000_0000
    case Text(s) => |s| < 0x1_0000_0000
    case Blob(s) => |s| < 0x1_0000_0000
    case List(vs) => |vs| < 0x1_0000_0000 && AllInRange(vs)
    case Dict(vs) => |vs| % 2 == 0 && |vs| / 2 < 0x1_0000_0000 && AllInRange(vs)
  }

  predicate AllInRange(vs: seq<Value>) {
    forall k | 0 <= k < |vs| :: InRange(vs[k])
  }

  function UnsignedWire(v: nat): Wire
    requires v < 0x1_0000_0000_0000_0000
  {
    if v < 0x80 then Plain(v)
    else if v < 0x100 then Fixed(0xcc, Be(1, v))
    else if v < 0x1_0000 then Fixed(0xcd, Be(2, v))
    else if v < 0x1_0000_0000 then Fixed(0xce, Be(4, v))
    else Fixed(0xcf, Be(8, v))
  }

  function NegativeWire(v: int): Wire
    requires -0x8000_0000_0000_0000 <= v < 0
  {
    if v >= -32 then Plain(v + 0x100)
    else if v >= -0x80 then Fixed(0xd0, Be(1, v + 0x100))
    else if v >= -0x8000 then Fixed(0xd1, Be(2, v + 0x1_0000))
    else if v >= -0x8000_0000 then Fixed(0xd2, Be(4, v + 0x1_0000_0000))
    else Fixed(0xd3, Be(8, v + 0x1_0000_0000_0000_0000))
  }

  function TextWire(s: seq<byte>): Wire {
    if |s| < 32 then FixStr(s)
    else Sized(if |s| < 0x100 then 0xd9 else if |s| < 0x1_0000 then 0xda else 0xdb, s)
  }

  function BlobWire(s: seq<byte>): Wire {
    Sized(if |s| < 0x100 then 0xc4 else if |s| < 0x1_0000 then 0xc5 else 0xc6, s)
  }

  /** The width of a container's count: the smallest that holds it. */
  function CountWidth(n: nat): nat {
    if n < 16 then 0 else if n < 0x1_0000 then 2 else 4
  }

  /** The format the writer chooses for each value. */
  function ToWire(v: Value): Wire
    requires InRange(v)
  {
    match v
    case Nil => Plain(0xc0)
    case Bool(b) => Plain(if b then 0xc3 else 0xc2)
    case Num(n) => if n >= 0 then UnsignedWire(n) else NegativeWire(n)
    case Float(bits) => Fixed(0xcb, Be(8, bits))
    case Text(s) => TextWire(s)
    case Blob(s) => BlobWire(s)
    case List(vs) => Array(CountWidth(|vs|), ToWires(vs))
    case Dict(vs) => Map(CountWidth(|vs| / 2), ToWires(vs))
  }

  function ToWires(vs: seq<Value>): (ws: seq<Wire>)
    requires AllInRange(vs)
    ensures |ws| == |vs|
  {
    if vs == [] then [] else [ToWire(vs[0])] + ToWires(vs[1..])
  }

  lemma LeavesAreWellFormed(v: Value)
    requires InRange(v) && !v.List? && !v.Dict?
    ensures WellFormed(ToWire(v)) && Height(ToWire(v)) == 0
  {}

  /** The writer emits only well-formed encodings. */
  lemma {:induction false} WritesWellFormed(v: Value)
    requires InRange(v)
    ensures WellFormed(ToWire(v))
    decreases v, 0
  {
    match v
    case List(vs) => AllWriteWellFormed(vs);
    case Dict(vs) => AllWriteWellFormed(vs);
    case _ => LeavesAreWellFormed(v);
  }

  lemma {:induction false} AllWriteWellFormed(vs: seq<Value>)
    requires AllInRange(vs)
    ensures AllWellFormed(ToWires(vs))
    decreases vs, 1
  {
    if vs != [] {
      WritesWellFormed(vs[0]);
      AllWriteWellFormed(vs[1..]);
    }
  }

  /** The bytes of a value. */
  function Encoded(v: Value): seq<byte>
    requires InRange(v)
  {
    WritesWellFormed(v);
    Flat(ToWire(v))
  }

  function EncodedAll(vs: seq<Value>): seq<byte>
    requires AllInRange(vs)
  {
    if vs == [] then [] else Encoded(vs[0]) + EncodedAll(vs[1..])
  }

  lemma {:induction false} AllAreFlat(vs: seq<Value>)
    requires AllInRange(vs)
    ensures AllWellFormed(ToWires(vs)) && EncodedAll(vs) == FlatAll(ToWires(vs))
  {
    AllWriteWellFormed(vs);
    if vs != [] {
      AllAreFlat(vs[1..]);
      assert ToWires(vs)[1..] == ToWires(vs[1..]);
    }
  }

  /** A container is its header call, then its elements in order. */
  lemma ListIsHeaderThenElements(vs: seq<Value>)
    requires InRange(List(vs))
    ensures Encoded(List(vs)) == ArrayHead(CountWidth(|vs|), |vs|) + EncodedAll(vs)
  {
    AllAreFlat(vs);
    ArrayIsHeadThenKids(CountWidth(|vs|), ToWires(vs));
  }

  lemma DictIsHeaderThenEntries(vs: seq<Value>)
    requires InRange(Dict(vs))
    ensures Encoded(Dict(vs)) == MapHead(CountWidth(|vs| / 2), |vs| / 2) + EncodedAll(vs)
  {
    AllAreFlat(vs);
    MapIsHeadThenKids(CountWidth(|vs| / 2), ToWires(vs));
  }

  lemma ArrayIsHeadThenKids(width: nat, ws: seq<Wire>)
    requires WellFormed(Array(width, ws))
    ensures Flat(Array(width, ws)) == ArrayHead(width, |ws|) + FlatAll(ws)
  {}

  lemma MapIsHeadThenKids(width: nat, ws: seq<Wire>)
    requires WellFormed(Map(width, ws))
    ensures Flat(Map(width, ws)) == MapHead(width, |ws| / 2) + FlatAll(ws)
  {}

  /** How deep the deepest element sits below the value. */
  function Nesting(v: Value): nat {
    match v
    case List(vs) => NestingAll(vs)
    case Dict(vs) => NestingAll(vs)
    case _ => 0
  }

  function NestingAll(vs: seq<Value>): nat {
    if vs == [] then 0 else Max(1 + Nesting(vs[0]), NestingAll(vs[1..]))
  }

  lemma {:induction false} NestingIsHeight(v: Value)
    requires InRange(v)
    ensures Height(ToWire(v)) == Nesting(v)
    decreases v, 0
  {
    match v
    case List(vs) => AllNestingIsHeight(vs);
    case Dict(vs) => AllNestingIsHeight(vs);
    case _ => LeavesAreWellFormed(v);
  }

  lemma {:induction false} AllNestingIsHeight(vs: seq<Value>)
    requires AllInRange(vs)
    ensures HeightAll(ToWires(vs)) == NestingAll(vs)
    decreases vs, 1
  {
    if vs != [] {
      NestingIsHeight(vs[0]);
      AllNestingIsHeight(vs[1..]);
      assert ToWires(vs)[1..] == ToWires(vs[1..]);
    }
  }

  /** Whatever the writer emitted, wherever it stands in a buffer, is skipped
      exactly when it nests at most eight deep. */
  lemma WrittenIsSkipped(v: Value, data: seq<byte>, p: nat)
    requires InRange(v) && At(data, p, Encoded(v)) && |data| < ADDRESS_SPACE
    ensures SkipDepth(data, p, 0) == if Nesting(v) <= 8 then Reached(p + |Encoded(v)|) else Failed
  {
    WritesWellFormed(v);
    NestingIsHeight(v);
    SkipTree(ToWire(v), data, p, 0);
  }

  // ---- Read back what was written ---------------------------------------------

  lemma FixedReads(data: seq<byte>, p: nat, tag: byte, width: nat, v: nat)
    requires v < Range(width) && At(data, p, [tag] + Be(width, v))
    ensures p + 1 + width <= |data| && data[p] == tag && BeAt(data, p + 1, width) == v
  {
    AtSplit(data, p, [tag], Be(width, v));
    AtFirst(data, p, [tag]);
    BeReads(data, p + 1, width, v);
  }

  lemma UnsignedReads(n: nat, data: seq<byte>, p: nat)
    requires n < 0x1_0000_0000_0000_0000 && At(data, p, Flat(UnsignedWire(n)))
    ensures ReadNumber(data, p) == Reading(Integral(n), p + |Flat(UnsignedWire(n))|)
  {
    Ranges();
    AtFirst(data, p, Flat(UnsignedWire(n)));
    if 0x80 <= n < 0x100 {
      FixedReads(data, p, 0xcc, 1, n);
    } else if 0x100 <= n < 0x1_0000 {
      FixedReads(data, p, 0xcd, 2, n);
    } else if 0x1_0000 <= n < 0x1_0000_0000 {
      FixedReads(data, p, 0xce, 4, n);
    } else if n >= 0x1_0000_0000 {
      FixedReads(data, p, 0xcf, 8, n);
    }
  }

  lemma NegativeReads(n: int, data: seq<byte>, p: nat)
    requires -0x8000_0000_0000_0000 <= n < 0 && At(data, p, Flat(NegativeWire(n)))
    ensures ReadNumber(data, p) == Reading(Integral(n), p + |Flat(NegativeWire(n))|)
  {
    Ranges();
    AtFirst(data, p, Flat(NegativeWire(n)));
    if -0x80 <= n < -32 {
      FixedReads(data, p, 0xd0, 1, n + 0x100);
    } else if -0x8000 <= n < -0x80 {
      FixedReads(data, p, 0xd1, 2, n + 0x1_0000);
    } else if -0x8000_0000 <= n < -0x8000 {
      FixedReads(data, p, 0xd2, 4, n + 0x1_0000_0000);
    } else if n < -0x8000_0000 {
      FixedReads(data, p, 0xd3, 8, n + 0x1_0000_0000_0000_0000);
    }
  }

  /** Every integer the writer takes is read back, signs and widths included. */
  lemma NumberRoundTrip(n: int, data: seq<byte>, p: nat)
    requires InRange(Num(n)) && At(data, p, Encoded(Num(n)))
    ensures ReadNumber(data, p) == Reading(Integral(n), p + |Encoded(Num(n))|)
  {
    if n >= 0 {
      UnsignedReads(n, data, p);
    } else {
      NegativeReads(n, data, p);
    }
  }

  /** So is every double, bit by bit. */
  lemma FloatRoundTrip(bits: nat, data: seq<byte>, p: nat)
    requires InRange(Float(bits)) && At(data, p, Encoded(Float(bits)))
    ensures ReadNumber(data, p) == Reading(Double(bits), p + 9)
  {
    Ranges();
    FixedReads(data, p, 0xcb, 8, bits);
  }

  lemma SizedReads(data: seq<byte>, p: nat, tag: byte, body: seq<byte>)
    requires SizedWidth(tag) > 0 && |body| < Limit(SizedWidth(tag)) && At(data, p, FlatSized(tag, body))
    ensures ReadBytes(data, p) == Reading(body, p + |FlatSized(tag, body)|)
  {
    AtSplit(data, p, [tag] + Be(SizedWidth(tag), |body|), body);
    FieldReads(data, p, tag, SizedWidth(tag), |body|);
    AtSlice(data, p + 1 + SizedWidth(tag), body);
  }

  lemma ShortReads(data: seq<byte>, p: nat, body: seq<byte>)
    requires |body| < 32 && At(data, p, [0xa0 + |body|] + body)
    ensures ReadBytes(data, p) == Reading(body, p + 1 + |body|)
  {
    AtSplit(data, p, [0xa0 + |body|], body);
    AtFirst(data, p, [0xa0 + |body|]);
    AtSlice(data, p + 1, body);
  }

  /** A text or a blob of any size is read back whole. */
  lemma BytesRoundTrip(v: Value, data: seq<byte>, p: nat)
    requires (v.Text? || v.Blob?) && InRange(v) && At(data, p, Encoded(v))
    ensures ReadBytes(data, p) == Reading(v.s, p + |Encoded(v)|)
  {
    WritesWellFormed(v);
    var w := ToWire(v);
    if w.FixStr? {
      ShortReads(data, p, v.s);
    } else {
      SizedReads(data, p, w.tag, v.s);
    }
  }

  /** A list's header yields its count and leaves the cursor at its elements. */
  lemma ArrayHeaderRoundTrip(vs: seq<Value>, data: seq<byte>, p: nat)
    requires InRange(List(vs)) && At(data, p, Encoded(List(vs)))
    ensures var r := ReadArrayHeader(data, p);
      && r.Reading? && r.value == |vs| && At(data, r.at, EncodedAll(vs))
      && r.at + |EncodedAll(vs)| == p + |Encoded(List(vs))|
  {
    var n, width := |vs|, CountWidth(|vs|);
    ListIsHeaderThenElements(vs);
    AtSplit(data, p, ArrayHead(width, n), EncodedAll(vs));
    if width > 0 {
      FieldReads(data, p, if width == 2 then 0xdc else 0xdd, width, n);
    } else {
      AtFirst(data, p, ArrayHead(width, n));
    }
  }

  // ---- The formats, byte by byte --------------------------------------------------

  /** What the writer emits for a number: the shortest of its formats. */
  lemma NumberBytes(n: int)
    requires InRange(Num(n))
    ensures 0 <= n < 128 ==> Encoded(Num(n)) == [n]
    ensures 128 <= n < 256 ==> Encoded(Num(n)) == [0xcc, n]
    ensures 256 <= n < 65536 ==> Encoded(Num(n)) == [0xcd, n / 256, n % 256]
    ensures 65536 <= n < 0x1_0000_0000 ==> Encoded(Num(n)) == [0xce] + Be(4, n)
    ensures 0x1_0000_0000 <= n ==> Encoded(Num(n)) == [0xcf] + Be(8, n)
    ensures -32 <= n < 0 ==> Encoded(Num(n)) == [n + 256]
    ensures -128 <= n < -32 ==> Encoded(Num(n)) == [0xd0, n + 256]
    ensures -32768 <= n < -128 ==> Encoded(Num(n)) == [0xd1, (n + 65536) / 256, n % 256]
    ensures -0x8000_0000 <= n < -32768 ==> Encoded(Num(n)) == [0xd2] + Be(4, n + 0x1_0000_0000)
    ensures n < -0x8000_0000 ==> Encoded(Num(n)) == [0xd3] + Be(8, n + 0x1_0000_0000_0000_0000)
  {
    if 256 <= n < 65536 {
      TwoBytes(n);
    } else if -32768 <= n < -128 {
      TwoBytes(n + 65536);
    } else if 128 <= n < 256 {
      OneByte(n);
    } else if -128 <= n < -32 {
      OneByte(n + 256);
    }
  }

  lemma OneByte(v: byte)
    ensures Be(1, v) == [v]
  {}

  /** ... and for everything else that has no elements. */
  lemma ScalarBytes(v: Value)
    requires InRange(v)
    ensures v == Nil ==> Encoded(v) == [0xc0]
    ensures v.Bool? ==> Encoded(v) == [if v.b then 0xc3 else 0xc2]
    ensures v.Float? ==> Encoded(v) == [0xcb] + Be(8, v.bits)
    ensures v.Text? ==> Encoded(v) == TextHead(|v.s|) + v.s
    ensures v.Blob? ==> Encoded(v) == BlobHead(|v.s|) + v.s
  {
    if v.Text? || v.Blob? {
      TwoBytes(|v.s|);
      OneByte(|v.s| % 256);
    }
  }

  function TextHead(n: nat): seq<byte> {
    if n < 32 then [0xa0 + n]
    else if n < 256 then [0xd9, n]
    else if n < 65536 then [0xda, n / 256, n % 256]
    else [0xdb] + Be(4, n)
  }

  function BlobHead(n: nat): seq<byte> {
    if n < 256 then [0xc4, n]
    else if n < 65536 then [0xc5, n / 256, n % 256]
    else [0xc6] + Be(4, n)
  }

  function CountHead(few: nat, many: nat, n: nat): seq<byte>
    requires few < 0xf0 && many < 0xff
  {
    if n < 16 then [few + n]
    else if n < 65536 then [many, n / 256, n % 256]
    else [many + 1] + Be(4, n)
  }

  /** The counts in front of a list's elements and a map's entries. */
  lemma ContainerBytes(vs: seq<Value>)
    requires |vs| < 0x1_0000_0000 && AllInRange(vs)
    ensures Encoded(List(vs)) == CountHead(0x90, 0xdc, |vs|) + EncodedAll(vs)
    ensures |vs| % 2 == 0 ==> Encoded(Dict(vs)) == CountHead(0x80, 0xde, |vs| / 2) + EncodedAll(vs)
  {
    ListIsHeaderThenElements(vs);
    CountBytes(|vs|);
    if |vs| % 2 == 0 {
      DictIsHeaderThenEntries(vs);
      CountBytes(|vs| / 2);
    }
  }

  lemma CountBytes(n: nat)
    requires n < 0x1_0000_0000
    ensures ArrayHead(CountWidth(n), n) == CountHead(0x90, 0xdc, n)
    ensures MapHead(CountWidth(n), n) == CountHead(0x80, 0xde, n)
  {
    TwoBytes(n);
  }

  /** The encodings of a number: in any format wide enough, signed or not. */
  predicate NumberFormat(v: Numeric, s: seq<byte>) {
    match v
    case Integral(n) =>
      || (0 <= n < 128 && s == [n]) || (-32 <= n < 0 && s == [n + 256])
      || (0 <= n < 0x100 && s == [0xcc] + Be(1, n)) || (-0x80 <= n < 0x80 && s == [0xd0] + Be(1, n % 0x100))
      || (0 <= n < 0x1_0000 && s == [0xcd] + Be(2, n)) || (-0x8000 <= n < 0x8000 && s == [0xd1] + Be(2, n % 0x1_0000))
      || (0 <= n < 0x1_0000_0000 && s == [0xce] + Be(4, n))
      || (-0x8000_0000 <= n < 0x8000_0000 && s == [0xd2] + Be(4, n % 0x1_0000_0000))
      || (0 <= n < 0x1_0000_0000_0000_0000 && s == [0xcf] + Be(8, n))
      || (-0x8000_0000_0000_0000 <= n < 0x8000_0000_0000_0000 && s == [0xd3] + Be(8, n % 0x1_0000_0000_0000_0000))
    case Double(bits) => bits < 0x1_0000_0000_0000_0000 && s == [0xcb] + Be(8, bits)
    case Single(bits) => bits < 0x1_0000_0000 && s == [0xca] + Be(4, bits)
  }

  /** Exactly the encodings of numbers are read as numbers. */
  lemma NumberReadsIff(data: seq<byte>, p: nat, v: Numeric, q: nat)
    requires p <= |data|
    ensures ReadNumber(data, p) == Reading(v, q) <==> p <= q <= |data| && NumberFormat(v, data[p..q])
  {
    if ReadNumber(data, p) == Reading(v, q) {
      NumberWasFormat(data, p);
    }
    if p <= q <= |data| && NumberFormat(v, data[p..q]) {
      FormatReads(data, p, v, q);
    }
  }

  lemma NumberWasFormat(data: seq<byte>, p: nat)
    requires p <= |data| && ReadNumber(data, p).Reading?
    ensures var r := ReadNumber(data, p); NumberFormat(r.value, data[p..r.at])
  {
    var c, width, q := data[p], NumberWidth(data[p]), ReadNumber(data, p).at;
    assert data[p..q] == [c] + data[p + 1..q];
    if 0x7f < c < 0xe0 {
      BeRewrites(data, p + 1, width);
      Ranges();
      SignedReads(width, BeAt(data, p + 1, width));
    }
  }

  lemma SignedReads(width: nat, v: nat)
    requires v < Range(width) && (width == 1 || width == 2 || width == 4 || width == 8)
    ensures var n := Signed(width, v);
      n % Range(width) == v && 0 - Range(width) <= 2 * n < Range(width)
  {
    Ranges();
  }

  /** A tag and a field of the given width, as the reader finds them. */
  lemma TagAndField(data: seq<byte>, p: nat, q: nat, tag: byte, width: nat, v: nat)
    requires p <= q <= |data| && v < Range(width) && data[p..q] == [tag] + Be(width, v)
    ensures q == p + 1 + width && data[p] == tag && BeAt(data, p + 1, width) == v
  {
    AtSlice(data, p, [tag] + Be(width, v));
    FixedReads(data, p, tag, width, v);
  }

  lemma UnsignedFormatReads(data: seq<byte>, p: nat, q: nat, tag: byte, width: nat, n: nat)
    requires p <= q <= |data| && (tag == 0xcc || tag == 0xcd || tag == 0xce || tag == 0xcf)
    requires width == NumberWidth(tag) && n < Range(width) && data[p..q] == [tag] + Be(width, n)
    ensures ReadNumber(data, p) == Reading(Integral(n), q)
  {
    TagAndField(data, p, q, tag, width, n);
  }

  lemma SignedFormatReads(data: seq<byte>, p: nat, q: nat, tag: byte, width: nat, n: int)
    requires p <= q <= |data| && (tag == 0xd0 || tag == 0xd1 || tag == 0xd2 || tag == 0xd3)
    requires width == NumberWidth(tag) && 0 - Range(width) <= 2 * n < Range(width)
    requires data[p..q] == [tag] + Be(width, n % Range(width))
    ensures ReadNumber(data, p) == Reading(Integral(n), q)
  {
    TagAndField(data, p, q, tag, width, n % Range(width));
    Ranges();
  }

  lemma FormatReads(data: seq<byte>, p: nat, v: Numeric, q: nat)
    requires p <= q <= |data| && NumberFormat(v, data[p..q])
    ensures ReadNumber(data, p) == Reading(v, q)
  {
    Ranges();
    match v
    case Double(bits) => TagAndField(data, p, q, 0xcb, 8, bits);
    case Single(bits) => TagAndField(data, p, q, 0xca, 4, bits);
    case Integral(n) => IntegerFormatReads(data, p, n, q);
  }

  lemma IntegerFormatReads(data: seq<byte>, p: nat, n: int, q: nat)
    requires p <= q <= |data| && NumberFormat(Integral(n), data[p..q])
    ensures ReadNumber(data, p) == Reading(Integral(n), q)
  {
    hide ReadNumber, Be;
    var s := data[p..q];
    Ranges();
    if 0 <= n < 128 && s == [n] {
      ShortNumberReads(data, p, n, q);
    } else if -32 <= n < 0 && s == [n + 256] {
      ShortNumberReads(data, p, n, q);
    } else if 0 <= n < 0x100 && s == [0xcc] + Be(1, n) {
      UnsignedFormatReads(data, p, q, 0xcc, 1, n);
    } else if 0 <= n < 0x1_0000 && s == [0xcd] + Be(2, n) {
      UnsignedFormatReads(data, p, q, 0xcd, 2, n);
    } else if 0 <= n < 0x1_0000_0000 && s == [0xce] + Be(4, n) {
      UnsignedFormatReads(data, p, q, 0xce, 4, n);
    } else if 0 <= n < 0x1_0000_0000_0000_0000 && s == [0xcf] + Be(8, n) {
      UnsignedFormatReads(data, p, q, 0xcf, 8, n);
    } else if -0x80 <= n < 0x80 && s == [0xd0] + Be(1, n % 0x100) {
      SignedFormatReads(data, p, q, 0xd0, 1, n);
    } else if -0x8000 <= n < 0x8000 && s == [0xd1] + Be(2, n % 0x1_0000) {
      SignedFormatReads(data, p, q, 0xd1, 2, n);
    } else if -0x8000_0000 <= n < 0x8000_0000 && s == [0xd2] + Be(4, n % 0x1_0000_0000) {
      SignedFormatReads(data, p, q, 0xd2, 4, n);
    } else {
      SignedFormatReads(data, p, q, 0xd3, 8, n);
    }
  }

  lemma ShortNumberReads(data: seq<byte>, p: nat, n: int, q: nat)
    requires p <= q <= |data| && -32 <= n < 128 && data[p..q] == [if n < 0 then n + 256 else n]
    ensures ReadNumber(data, p) == Reading(Integral(n), q)
  {
    assert data[p..q][0] == data[p];
  }

  /** The encodings of a byte string: texts and blobs with a length field of any
      width that holds the length. */
  predicate BytesFormat(body: seq<byte>, s: seq<byte>) {
    || (|body| < 32 && s == [0xa0 + |body|] + body)
    || (|body| < 0x100 && (s == [0xd9, |body|] + body || s == [0xc4, |body|] + body))
    || (|body| < 0x1_0000 && (s == [0xda] + Be(2, |body|) + body || s == [0xc5] + Be(2, |body|) + body))
    || (|body| < 0x1_0000_0000 && (s == [0xdb] + Be(4, |body|) + body || s == [0xc6] + Be(4, |body|) + body))
  }

  /** Exactly those are read as byte strings. */
  lemma BytesReadIff(data: seq<byte>, p: nat, body: seq<byte>, q: nat)
    requires p <= |data|
    ensures ReadBytes(data, p) == Reading(body, q) <==> p <= q <= |data| && BytesFormat(body, data[p..q])
  {
    if ReadBytes(data, p) == Reading(body, q) {
      BytesWereFormat(data, p);
    }
    if p <= q <= |data| && BytesFormat(body, data[p..q]) {
      BytesFormatReads(data, p, body, q);
    }
  }

  lemma BytesWereFormat(data: seq<byte>, p: nat)
    requires p <= |data| && ReadBytes(data, p).Reading?
    ensures var r := ReadBytes(data, p); BytesFormat(r.value, data[p..r.at])
  {
    var c, width, r := data[p], SizedWidth(data[p]), ReadBytes(data, p);
    var start := p + 1 + width;
    assert r.value == data[start..r.at] && data[p..r.at] == [c] + data[p + 1..start] + r.value;
    BeRewrites(data, p + 1, width);
    Ranges();
    if width == 1 {
      OneByte(|r.value|);
    }
    assert width == 0 ==> data[p + 1..start] == [] && [c] + [] == [c];
  }

  lemma BytesFormatReads(data: seq<byte>, p: nat, body: seq<byte>, q: nat)
    requires p <= q <= |data| && BytesFormat(body, data[p..q])
    ensures ReadBytes(data, p) == Reading(body, q)
  {
    var s := data[p..q];
    AtSlice(data, p, s);
    assert s != [];
    if 0xa0 <= s[0] <= 0xbf {
      ShortReads(data, p, body);
    } else {
      if SizedWidth(s[0]) == 1 {
        OneByte(|body|);
        assert [s[0]] + [|body|] + body == s;
      }
      SizedReads(data, p, s[0], body);
    }
  }

  /** The encodings of the count in front of an array. */
  predicate ArrayFormat(n: nat, s: seq<byte>) {
    || (n < 16 && s == [0x90 + n]) || (n < 0x1_0000 && s == [0xdc] + Be(2, n))
    || (n < 0x1_0000_0000 && s == [0xdd] + Be(4, n))
  }

  /** Exactly those are read as array headers. */
  lemma ArrayHeaderReadsIff(data: seq<byte>, p: nat, n: nat, q: nat)
    requires p <= |data|
    ensures ReadArrayHeader(data, p) == Reading(n, q) <==> p <= q <= |data| && ArrayFormat(n, data[p..q])
  {
    Ranges();
    if ReadArrayHeader(data, p) == Reading(n, q) {
      assert data[p..q] == [data[p]] + data[p + 1..q];
      if data[p] == 0xdc || data[p] == 0xdd {
        BeRewrites(data, p + 1, if data[p] == 0xdc then 2 else 4);
      }
    }
    if p <= q <= |data| {
      if n < 16 && data[p..q] == [0x90 + n] {
        assert data[p..q][0] == data[p];
      } else if n < 0x1_0000 && data[p..q] == [0xdc] + Be(2, n) {
        TagAndField(data, p, q, 0xdc, 2, n);
      } else if n < 0x1_0000_0000 && data[p..q] == [0xdd] + Be(4, n) {
        TagAndField(data, p, q, 0xdd, 4, n);
      }
    }
  }

  // ---- The writer ---------------------------------------------------------------

  class Writer {
    var buf: seq<byte>

    constructor ()
      ensures buf == []
    {
      buf := [];
    }

    method Put(b: byte)
      modifies this
      ensures buf == old(buf) + [b]
    {
      buf := buf + [b];
    }

    /** The `n` low bytes of `v`, most significant first. */
    method PutBe(n: nat, v: nat)
      requires v < Range(n)
      modifies this
      ensures buf == old(buf) + Be(n, v)
    {
      for i := 0 to n
        invariant buf == old(buf) + Be(n, v)[..i]
      {
        Put(BeByte(n, v, i));
      }
    }

    method ArrayHeader(n: nat)
      requires n < 0x1_0000_0000
      modifies this
      ensures buf == old(buf) + ArrayHead(CountWidth(n), n)
    {
      Ranges();
      if n < 16 {
        Put(0x90 + n);
      } else if n < 65536 {
        Put(0xdc);
        PutBe(2, n);
      } else {
        Put(0xdd);
        PutBe(4, n);
      }
    }

    method MapHeader(n: nat)
      requires n < 0x1_0000_0000
      modifies this
      ensures buf == old(buf) + MapHead(CountWidth(n), n)
    {
      Ranges();
      if n < 16 {
        Put(0x80 + n);
      } else if n < 65536 {
        Put(0xde);
        PutBe(2, n);
      } else {
        Put(0xdf);
        PutBe(4, n);
      }
    }

    method PutNil()
      modifies this
      ensures buf == old(buf) + Encoded(Nil)
    {
      Put(0xc0);
    }

    method Boolean(b: bool)
      modifies this
      ensures buf == old(buf) + Encoded(Bool(b))
    {
      Put(if b then 0xc3 else 0xc2);
    }

    method UInt(v: nat)
      requires v < 0x1_0000_0000_0000_0000
      modifies this
      ensures buf == old(buf) + Encoded(Num(v))
    {
      Ranges();
      if v < 0x80 {
        Put(v);
      } else if v <= 0xff {
        Put(0xcc);
        PutBe(1, v);
      } else if v <= 0xffff {
        Put(0xcd);
        PutBe(2, v);
      } else if v <= 0xffff_ffff {
        Put(0xce);
        PutBe(4, v);
      } else {
        Put(0xcf);
        PutBe(8, v);
      }
    }

    method Integer(v: int)
      requires -0x8000_0000_0000_0000 <= v < 0x8000_0000_0000_0000
      modifies this
      ensures buf == old(buf) + Encoded(Num(v))
    {
      Ranges();
      if v >= 0 {
        UInt(v);
      } else if v >= -32 {
        Put(v + 0x100);
      } else if v >= -128 {
        Put(0xd0);
        PutBe(1, v + 0x100);
      } else if v >= -32768 {
        Put(0xd1);
        PutBe(2, v + 0x1_0000);
      } else if v >= -0x8000_0000 {
        Put(0xd2);
        PutBe(4, v + 0x1_0000_0000);
      } else {
        Put(0xd3);
        PutBe(8, v + 0x1_0000_0000_0000_0000);
      }
    }

    method Float64(bits: nat)
      requires bits < 0x1_0000_0000_0000_0000
      modifies this
      ensures buf == old(buf) + Encoded(Float(bits))
    {
      Ranges();
      Put(0xcb);
      PutBe(8, bits);
    }

    method Str(s: seq<byte>)
      requires |s| < 0x1_0000_0000
      modifies this
      ensures buf == old(buf) + Encoded(Text(s))
    {
      Ranges();
      if |s| < 32 {
        Put(0xa0 + |s|);
      } else if |s| < 256 {
        Put(0xd9);
        PutBe(1, |s|);
      } else if |s| < 65536 {
        Put(0xda);
        PutBe(2, |s|);
      } else {
        Put(0xdb);
        PutBe(4, |s|);
      }
      Append(s);
    }

    method Bin(s: seq<byte>)
      requires |s| < 0x1_0000_0000
      modifies this
      ensures buf == old(buf) + Encoded(Blob(s))
    {
      Ranges();
      if |s| < 256 {
        Put(0xc4);
        PutBe(1, |s|);
      } else if |s| < 65536 {
        Put(0xc5);
        PutBe(2, |s|);
      } else {
        Put(0xc6);
        PutBe(4, |s|);
      }
      Append(s);
    }

    method Append(s: seq<byte>)
      modifies this
      ensures buf == old(buf) + s
    {
      buf := buf + s;
    }
  }

  // ---- The reader ---------------------------------------------------------------

  lemma {:induction false} BeAtJoins(s: seq<byte>, p: nat, n: nat, m: nat)
    requires p + n + m <= |s|
    ensures BeAt(s, p, n + m) == BeAt(s, p, n) * Range(m) + BeAt(s, p + n, m)
  {
    if m > 0 {
      BeAtJoins(s, p, n, m - 1);
      Shifted(BeAt(s, p, n), Range(m - 1), BeAt(s, p + n, m - 1), s[p + n + m - 1]);
    }
  }

  lemma Shifted(a: nat, r: nat, b: nat, c: nat)
    ensures 256 * (a * r + b) + c == a * (256 * r) + (256 * b + c)
  {}

  class Reader {
    const data: seq<byte>
    var pos: nat
    ghost var calls: nat   // of SkipDepth, since the reader was made

    constructor (data: seq<byte>)
      ensures this.data == data && pos == 0 && calls == 0
    {
      this.data := data;
      pos := 0;
      calls := 0;
    }

    ghost predicate Valid()
      reads this
    {
      pos <= |data|
    }

    method Take(n: nat) returns (ok: bool, out: seq<byte>)
      requires Valid()
      modifies this`pos
      ensures Valid() && (ok <==> n <= |data| - old(pos))
      ensures pos == if ok then old(pos) + n else old(pos)
      ensures ok ==> out == data[old(pos)..old(pos) + n]
    {
      if |data| - pos < n {
        return false, [];
      }
      out := data[pos..pos + n];
      pos := pos + n;
      ok := true;
    }

    /** At most four bytes, shifted into a 32-bit register. */
    method BigEndian(n: nat) returns (ok: bool, out: nat)
      requires Valid() && n <= 4
      modifies this`pos
      ensures Valid() && (ok <==> n <= |data| - old(pos))
      ensures pos == if ok then old(pos) + n else old(pos)
      ensures ok ==> out == BeAt(data, old(pos), n) && out < 0x1_0000_0000
    {
      var b;
      ok, b := Take(n);
      out := 0;
      if !ok {
        return;
      }
      Ranges();
      for i := 0 to n
        invariant pos == old(pos) + n
        invariant out == BeAt(data, old(pos), i) && out < Range(i)
      {
        FitsRegister(out, b[i], i);
        out := (out * 256 + b[i]) % 0x1_0000_0000;
      }
      FitsRegister(0, 0, n);
      assert Range(n) <= Range(4);
    }

    method ReadHeader() returns (ok: bool, n: nat)
      requires Valid()
      modifies this`pos
      ensures Valid()
      ensures var r := ReadArrayHeader(data, old(pos)); ok == r.Reading? && (ok ==> n == r.value && pos == r.at)
    {
      var t;
      ok, t := Take(1);
      n := 0;
      if !ok {
        return;
      }
      if 0x90 <= t[0] <= 0x9f {
        n := t[0] - 0x90;
      } else if t[0] == 0xdc {
        ok, n := BigEndian(2);
      } else if t[0] == 0xdd {
        ok, n := BigEndian(4);
      } else {
        ok := false;
      }
    }

    method ReadBlob() returns (ok: bool, out: seq<byte>)
      requires Valid()
      modifies this`pos
      ensures Valid()
      ensures var r := ReadBytes(data, old(pos)); ok == r.Reading? && (ok ==> out == r.value && pos == r.at)
    {
      var t;
      ok, t := Take(1);
      out := [];
      if !ok {
        return;
      }
      var v := 0;
      if 0xa0 <= t[0] <= 0xbf {
        v := t[0] - 0xa0;
      } else if t[0] == 0xd9 || t[0] == 0xc4 {
        ok, v := BigEndian(1);
      } else if t[0] == 0xda || t[0] == 0xc5 {
        ok, v := BigEndian(2);
      } else if t[0] == 0xdb || t[0] == 0xc6 {
        ok, v := BigEndian(4);
      } else {
        return false, [];
      }
      if ok {
        ok, out := Take(v);
      }
    }

    /** Eight bytes, as two registers. */
    method Wide() returns (ok: bool, out: nat)
      requires Valid()
      modifies this`pos
      ensures Valid() && (ok <==> 8 <= |data| - old(pos))
      ensures ok ==> pos == old(pos) + 8 && out == BeAt(data, old(pos), 8)
    {
      var hi, lo;
      out := 0;
      ok, hi := BigEndian(4);
      if ok {
        ok, lo := BigEndian(4);
        if ok {
          Ranges();
          BeAtJoins(data, old(pos), 4, 4);
          out := hi * 0x1_0000_0000 + lo;
        }
      }
    }

    method Number() returns (ok: bool, out: Numeric)
      requires Valid()
      modifies this`pos
      ensures Valid()
      ensures var r := ReadNumber(data, old(pos)); ok == r.Reading? && (ok ==> out == r.value && pos == r.at)
    {
      var t;
      ok, t := Take(1);
      out := Integral(0);
      if !ok {
        return;
      }
      var c := t[0];
      var v := 0;
      if c <= 0x7f {
        return true, Integral(c);
      } else if c >= 0xe0 {
        return true, Integral(c as int - 256);
      } else if c == 0xcc || c == 0xd0 {
        ok, v := BigEndian(1);
      } else if c == 0xcd || c == 0xd1 {
        ok, v := BigEndian(2);
      } else if c == 0xca || c == 0xce || c == 0xd2 {
        ok, v := BigEndian(4);
      } else if c == 0xcb || c == 0xcf || c == 0xd3 {
        ok, v := Wide();
      } else {
        ok := false;
      }
      if ok {
        out := Interpret(c, v);
      }
    }

    /** Skips one value. On any bytes it stays inside the buffer, terminates, and
        is called at most once per byte consumed and once more. */
    method SkipDepth(depth: nat) returns (ok: bool)
      requires Valid() && depth <= MAX_DEPTH + 1
      modifies this
      ensures Valid() && pos >= old(pos)
      ensures var r := MsgpackReader.SkipDepth(data, old(pos), depth); ok == r.Reached? && (ok ==> pos == r.at)
      ensures calls <= old(calls) + (pos - old(pos)) + (if ok then 0 else 1)
      decreases MAX_DEPTH + 1 - depth, 1
    {
      calls := calls + 1;
      if depth > MAX_DEPTH {
        return false;
      }
      var t;
      ok, t := Take(1);
      if !ok {
        return;
      }
      var c := t[0];
      match Classify(c)
      case Whole(size) =>
        ok, t := Take(size);
      case Counted(width) =>
        ok := SkipCounted(width, 0);
      case Extended(width) =>
        ok := SkipCounted(width, 1);
      case Few(count) =>
        ok := SkipElements(count, depth + 1);
      case Many(width, pairs) =>
        ok := SkipCountedElements(width, pairs, depth + 1);
      case Unknown =>
        ok := false;
    }

    /** A length field of `width` bytes, then that many bytes and `extra` more;
        the sum is taken in 32 bits. */
    method SkipCounted(width: nat, extra: nat) returns (ok: bool)
      requires Valid() && width <= 4 && extra <= 1
      modifies this`pos
      ensures Valid() && pos >= old(pos)
      ensures ok <==> && old(pos) + width <= |data|
                      && old(pos) + width + Wrap(BeAt(data, old(pos), width) + extra) <= |data|
      ensures ok ==> pos == old(pos) + width + Wrap(BeAt(data, old(pos), width) + extra)
      ensures old(pos) + width <= |data| ==> BeAt(data, old(pos), width) < 0x1_0000_0000
    {
      var v, t;
      ok, v := BigEndian(width);
      if ok {
        ok, t := Take(Wrap(v + extra));
      }
    }

    /** A count field, checked against what is left, then that many elements. */
    method SkipCountedElements(width: nat, pairs: bool, depth: nat) returns (ok: bool)
      requires Valid() && width <= 4 && 0 < depth <= MAX_DEPTH + 1
      modifies this
      ensures Valid() && pos >= old(pos)
      ensures var first := old(pos) + width;
        if first > |data| then !ok
        else
          var v := BeAt(data, old(pos), width);
          var n := if pairs then Wrap(2 * v) else v;
          if n > |data| - first then !ok
          else ok == SkipMany(data, first, n, depth).Reached? && (ok ==> pos == SkipMany(data, first, n, depth).at)
      ensures calls <= old(calls) + (pos - old(pos)) + (if ok then 0 else 1)
      decreases MAX_DEPTH + 1 - depth, 3
    {
      var v;
      ok, v := BigEndian(width);
      if ok {
        var n := if pairs then Wrap(2 * v) else v;
        if n > |data| - pos {
          return false;
        }
        ok := SkipElements(n, depth);
      }
    }

    method SkipElements(n: nat, depth: nat) returns (ok: bool)
      requires Valid() && 0 < depth <= MAX_DEPTH + 1
      modifies this
      ensures Valid() && pos >= old(pos)
      ensures var r := SkipMany(data, old(pos), n, depth); ok == r.Reached? && (ok ==> pos == r.at)
      ensures calls <= old(calls) + (pos - old(pos)) + (if ok then 0 else 1)
      decreases MAX_DEPTH + 1 - depth, 2
    {
      for i := 0 to n
        invariant old(pos) <= pos <= |data|
        invariant SkipMany(data, pos, n - i, depth) == SkipMany(data, old(pos), n, depth)
        invariant calls <= old(calls) + (pos - old(pos))
      {
        ghost var p := pos;
        ok := this.SkipDepth(depth);
        if !ok {
          SkipManyFails(data, p, n - i, depth);
          return;
        }
        SkipManyOn(data, p, n - i, depth, pos);
      }
      ok := true;
    }

    /** The whole of `skip`: bounded work on any input, whatever it holds. */
    method Skip() returns (ok: bool)
      requires Valid()
      modifies this
      ensures Valid() && pos >= old(pos)
      ensures var r := MsgpackReader.SkipDepth(data, old(pos), 0); ok == r.Reached? && (ok ==> pos == r.at)
      ensures calls - old(calls) <= |data| - old(pos) + 1
    {
      ok := this.SkipDepth(0);
    }
  }

  lemma FitsRegister(v: nat, b: byte, i: nat)
    requires v < Range(i)
    ensures v * 256 + b < Range(i + 1)
    ensures i < 4 ==> Range(i + 1) <= 0x1_0000_0000 && (v * 256 + b) % 0x1_0000_0000 == v * 256 + b
    ensures i <= 4 ==> Range(i) <= 0x1_0000_0000
  {
    Ranges();
    assert Range(3) == 0x100_0000;
    assert i == 0 || i == 1 || i == 2 || i == 3 || i == 4 || i > 4;
  }
}
