/** The MessagePack formats (MessagePack specification, section "Formats"): the
    encoder side, as trees and the bytes they stand for. */
module MsgpackFormat {
  import opened Bits

  /** One encoded value, with the format chosen for it. */
  datatype Wire =
    | Plain(tag: byte)                             // fixint, nil, bool
    | Fixed(tag: byte, body: seq<byte>)            // int, uint, float, fixext
    | FixStr(body: seq<byte>)
    | Sized(tag: byte, body: seq<byte>)            // str and bin 8/16/32
    | Ext(tag: byte, kind: byte, body: seq<byte>)  // ext 8/16/32
    | Array(width: nat, kids: seq<Wire>)           // width of the count: 0 = fixarray
    | Map(width: nat, kids: seq<Wire>)             // keys and values alternating

  predicate PlainTag(c: byte) {
    c <= 0x7f || c >= 0xe0 || c == 0xc0 || c == 0xc2 || c == 0xc3
  }

  /** The number of bytes that follow a fixed-size tag, or 0. */
  function FixedSize(c: byte): nat {
    if c == 0xcc || c == 0xd0 then 1
    else if c == 0xcd || c == 0xd1 then 2
    else if c == 0xca || c == 0xce || c == 0xd2 then 4
    else if c == 0xcb || c == 0xcf || c == 0xd3 then 8
    else if c == 0xd4 then 2
    else if c == 0xd5 then 3
    else if c == 0xd6 then 5
    else if c == 0xd7 then 9
    else if c == 0xd8 then 17
    else 0
  }

  /** The width of the length field after a str or bin tag, or 0. */
  function SizedWidth(c: byte): nat {
    if c == 0xc4 || c == 0xd9 then 1
    else if c == 0xc5 || c == 0xda then 2
    else if c == 0xc6 || c == 0xdb then 4
    else 0
  }

  function ExtWidth(c: byte): nat {
    if c == 0xc7 then 1 else if c == 0xc8 then 2 else if c == 0xc9 then 4 else 0
  }

  /** Lengths and counts stay below this; a tag holds a count of its own below
      16 where there is no field. */
  function Limit(width: nat): nat {
    if width == 0 then 16 else if width == 1 then 0x100 else if width == 2 then 0x1_0000 else 0x1_0000_0000
  }

  predicate WellFormed(w: Wire) {
    match w
    case Plain(tag) => PlainTag(tag)
    case Fixed(tag, body) => FixedSize(tag) > 0 && |body| == FixedSize(tag)
    case FixStr(body) => |body| < 32
    case Sized(tag, body) => SizedWidth(tag) > 0 && |body| < Limit(SizedWidth(tag))
    case Ext(tag, _, body) => ExtWidth(tag) > 0 && |body| < Limit(ExtWidth(tag))
    case Array(width, kids) =>
      (width == 0 || width == 2 || width == 4) && |kids| < Limit(width) && AllWellFormed(kids)
    case Map(width, kids) =>
      (width == 0 || width == 2 || width == 4) && |kids| % 2 == 0 && |kids| / 2 < Limit(width)
      && AllWellFormed(kids)
  }

  predicate AllWellFormed(ws: seq<Wire>) {
    forall k | 0 <= k < |ws| :: WellFormed(ws[k])
  }

  function ArrayHead(width: nat, n: nat): (s: seq<byte>)
    requires n < Limit(width)
    ensures |s| == 1 + width
  {
    if width == 0 then [0x90 + n] else [if width == 2 then 0xdc else 0xdd] + Be(width, n)
  }

  function MapHead(width: nat, n: nat): (s: seq<byte>)
    requires n < Limit(width)
    ensures |s| == 1 + width
  {
    if width == 0 then [0x80 + n] else [if width == 2 then 0xde else 0xdf] + Be(width, n)
  }

  function FlatSized(tag: byte, body: seq<byte>): seq<byte> {
    [tag] + Be(SizedWidth(tag), |body|) + body
  }

  function FlatExt(tag: byte, kind: byte, body: seq<byte>): seq<byte> {
    [tag] + Be(ExtWidth(tag), |body|) + ([kind] + body)
  }

  function Flat(w: Wire): (s: seq<byte>)
    requires WellFormed(w)
    ensures |s| >= 1
  {
    match w
    case Plain(tag) => [tag]
    case Fixed(tag, body) => [tag] + body
    case FixStr(body) => [0xa0 + |body|] + body
    case Sized(tag, body) => FlatSized(tag, body)
    case Ext(tag, kind, body) => FlatExt(tag, kind, body)
    case Array(width, kids) => ArrayHead(width, |kids|) + FlatAll(kids)
    case Map(width, kids) => MapHead(width, |kids| / 2) + FlatAll(kids)
  }

  function FlatAll(ws: seq<Wire>): (s: seq<byte>)
    requires AllWellFormed(ws)
    ensures |s| >= |ws|
  {
    if ws == [] then [] else Flat(ws[0]) + FlatAll(ws[1..])
  }

  /** Levels below the root: how deep the deepest element sits. */
  function Height(w: Wire): nat {
    match w
    case Array(_, kids) => HeightAll(kids)
    case Map(_, kids) => HeightAll(kids)
    case _ => 0
  }

  function HeightAll(ws: seq<Wire>): nat {
    if ws == [] then 0 else Max(1 + Height(ws[0]), HeightAll(ws[1..]))
  }

  function Max(a: nat, b: nat): nat {
    if a > b then a else b
  }
}

/** The bounds-checked reader: what each call answers on the bytes that remain. */
module MsgpackReader {
  import opened Bits
  import opened MsgpackFormat

  /** Where the cursor stands after a call that succeeded. */
  datatype Cursor = Failed | Reached(at: nat)

  const MAX_DEPTH: nat := 8

  /** What the value at the cursor announces: opaque bytes up to `end`, or
      `count` elements from `first` on. */
  datatype Head =
    | Reject
    | Body(end: nat)
    | Kids(first: nat, count: nat, checked: bool)

  /** The families of first bytes the skipper tells apart. */
  datatype Family =
    | Whole(size: nat)          // the tag and `size` more bytes
    | Counted(width: nat)       // a length field, then that many bytes
    | Extended(width: nat)      // a length field, a kind byte, that many bytes
    | Few(count: nat)           // that many elements
    | Many(width: nat, pairs: bool)
    | Unknown

  /** The tag switch, in the skipper's order. */
  function Classify(c: byte): Family {
    if c <= 0x7f || c >= 0xe0 then Whole(0)
    else if 0xa0 <= c <= 0xbf then Whole(c - 0xa0)
    else if 0x90 <= c <= 0x9f then Few(c - 0x90)
    else if 0x80 <= c <= 0x8f then Few((c - 0x80) * 2)
    else if c == 0xc0 || c == 0xc2 || c == 0xc3 then Whole(0)
    else if c == 0xcc || c == 0xd0 then Whole(1)
    else if c == 0xcd || c == 0xd1 then Whole(2)
    else if c == 0xca || c == 0xce || c == 0xd2 then Whole(4)
    else if c == 0xcb || c == 0xcf || c == 0xd3 then Whole(8)
    else if c == 0xd4 then Whole(2)
    else if c == 0xd5 then Whole(3)
    else if c == 0xd6 then Whole(5)
    else if c == 0xd7 then Whole(9)
    else if c == 0xd8 then Whole(17)
    else if c == 0xc4 || c == 0xd9 then Counted(1)
    else if c == 0xc5 || c == 0xda then Counted(2)
    else if c == 0xc6 || c == 0xdb then Counted(4)
    else if c == 0xc7 then Extended(1)
    else if c == 0xc8 then Extended(2)
    else if c == 0xc9 then Extended(4)
    else if 0xdc <= c <= 0xdf then Many(if c == 0xdc || c == 0xde then 2 else 4, c >= 0xde)
    else Unknown
  }

  /** 32-bit arithmetic on a sum of two 32-bit numbers. */
  function Wrap(sum: nat): nat {
    if sum < 0x1_0000_0000 then sum else sum - 0x1_0000_0000
  }

  /** The announcement at `p`. `v + 1` is 32-bit arithmetic, and so is the
      doubled pair count on the 32-bit target. */
  function ReadHead(data: seq<byte>, p: nat): Head
    requires p < |data|
  {
    match Classify(data[p])
    case Whole(size) => Body(p + 1 + size)
    case Counted(width) =>
      if p + 1 + width > |data| then Reject else Body(p + 1 + width + BeAt(data, p + 1, width))
    case Extended(width) =>
      if p + 1 + width > |data| then Reject else Body(p + 1 + width + Wrap(BeAt(data, p + 1, width) + 1))
    case Few(count) => Kids(p + 1, count, false)
    case Many(width, pairs) =>
      if p + 1 + width > |data| then Reject
      else
        var v := BeAt(data, p + 1, width);
        Kids(p + 1 + width, if pairs then Wrap(2 * v) else v, true)
    case Unknown => Reject
  }

  /** Where the cursor stands after one value, or Failed where the skipper fails. */
  function SkipDepth(data: seq<byte>, p: nat, depth: nat): (r: Cursor)
    requires p <= |data|
    ensures r.Reached? ==> p < r.at <= |data|
    decreases |data| - p, 0
  {
    if depth > MAX_DEPTH || p == |data| then Failed
    else
      match ReadHead(data, p)
      case Reject => Failed
      case Body(end) => if end > |data| then Failed else Reached(end)
      case Kids(first, count, checked) =>
        if checked && count > |data| - first then Failed else SkipMany(data, first, count, depth + 1)
  }

  /** ... and after `count` values in a row. */
  function SkipMany(data: seq<byte>, p: nat, count: nat, depth: nat): (r: Cursor)
    requires p <= |data|
    ensures r.Reached? ==> p <= r.at <= |data|
    decreases |data| - p, 1, count
  {
    if count == 0 then Reached(p)
    else
      match SkipDepth(data, p, depth)
      case Failed => Failed
      case Reached(q) => SkipMany(data, q, count - 1, depth)
  }

  // ---- The calls that pick values apart ------------------------------------

  /** The value a call yields and where it leaves the cursor. */
  datatype Reading<T> = NoReading | Reading(value: T, at: nat)

  /** A number as it was transmitted, before it becomes a double. */
  datatype Numeric = Integral(v: int) | Double(bits: nat) | Single(bits: nat)

  /** The two's-complement reading of `n` bytes. */
  function Signed(n: nat, v: nat): int {
    if 2 * v < Range(n) then v else v - Range(n)
  }

  function NumberWidth(c: byte): nat {
    if c == 0xcc || c == 0xd0 then 1
    else if c == 0xcd || c == 0xd1 then 2
    else if c == 0xca || c == 0xce || c == 0xd2 then 4
    else if c == 0xcb || c == 0xcf || c == 0xd3 then 8
    else 0
  }

  /** What the bytes after tag `c` mean. */
  function Interpret(c: byte, v: nat): Numeric {
    if c == 0xcb then Double(v)
    else if c == 0xca then Single(v)
    else if c >= 0xd0 then Integral(Signed(NumberWidth(c), v))
    else Integral(v)
  }

  function ReadNumber(data: seq<byte>, p: nat): (r: Reading<Numeric>)
    requires p <= |data|
    ensures r.Reading? ==> p < r.at <= |data|
  {
    if p == |data| then NoReading
    else
      var c := data[p];
      var width := NumberWidth(c);
      if c <= 0x7f then Reading(Integral(c), p + 1)
      else if c >= 0xe0 then Reading(Integral(c as int - 256), p + 1)
      else if width == 0 || p + 1 + width > |data| then NoReading
      else Reading(Interpret(c, BeAt(data, p + 1, width)), p + 1 + width)
  }

  function ReadArrayHeader(data: seq<byte>, p: nat): (r: Reading<nat>)
    requires p <= |data|
    ensures r.Reading? ==> p < r.at <= |data|
  {
    if p == |data| then NoReading
    else if 0x90 <= data[p] <= 0x9f then Reading(data[p] - 0x90, p + 1)
    else
      var width := if data[p] == 0xdc then 2 else if data[p] == 0xdd then 4 else 0;
      if width == 0 || p + 1 + width > |data| then NoReading
      else Reading(BeAt(data, p + 1, width), p + 1 + width)
  }

  /** The body of a str or a bin, which the reader does not tell apart. */
  function ReadBytes(data: seq<byte>, p: nat): (r: Reading<seq<byte>>)
    requires p <= |data|
    ensures r.Reading? ==> p < r.at <= |data|
  {
    if p == |data| then NoReading
    else
      var width := SizedWidth(data[p]);
      var short := 0xa0 <= data[p] <= 0xbf;
      if (width == 0 && !short) || p + 1 + width > |data| then NoReading
      else
        var size := if short then data[p] - 0xa0 else BeAt(data, p + 1, width);
        var start := p + 1 + width;
        if start + size > |data| then NoReading else Reading(data[start..start + size], start + size)
  }
}
