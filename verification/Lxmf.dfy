/** LXMF messages: packing our own and picking inbound ones apart. */
module Lxmf {
  import opened Basics
  import opened Bits
  import opened MsgpackFormat
  import opened MsgpackReader
  import opened MsgpackSkip
  import opened Msgpack
  import Command

  const HASH_LEN: nat := 16
  const SIG_LEN: nat := 64
  const HEADER_LEN: nat := 96
  const MAX_CONTENT: nat := 48
  const MAX_OPPORTUNISTIC_PAYLOAD: nat := 295

  /** The signing oracle: hash and Ed25519 signature of the signed part. */
  type Signer = seq<byte> -> seq<byte>

  // ---- Packing --------------------------------------------------------------

  const INFINITY: nat := 0x7ff0_0000_0000_0000

  /** The IEEE-754 double with these bits is greater than zero. */
  predicate Positive(bits: nat) {
    0 < bits <= INFINITY
  }

  /** The timestamp a message carries: the caller's, or else the clock's. */
  function Stamp(timestamp: nat, clock: nat): nat {
    if Positive(timestamp) then timestamp else clock
  }

  function FieldsOrEmpty(fields: seq<byte>): seq<byte> {
    if fields != [] then fields else MapHead(0, 0)
  }

  predicate Doubles(timestamp: nat, clock: nat) {
    timestamp < 0x1_0000_0000_0000_0000 && clock < 0x1_0000_0000_0000_0000
  }

  function Payload(stamp: nat, text: seq<byte>, fields: seq<byte>): seq<byte>
    requires stamp < 0x1_0000_0000_0000_0000 && |text| < 0x1_0000_0000
  {
    ArrayHead(0, 4) + (Encoded(Float(stamp)) + (Encoded(Blob([])) + (Encoded(Blob(text)) + FieldsOrEmpty(fields))))
  }

  /** The message, or None where packing is refused. */
  function Packed(dest: Option<seq<byte>>, own: seq<byte>, text: seq<byte>, fields: seq<byte>,
                  timestamp: nat, clock: nat, sign: Signer): (r: Option<seq<byte>>)
    requires dest.Some? ==> |dest.value| == HASH_LEN
    requires Doubles(timestamp, clock) && |text| < 0x1_0000_0000
  {
    var body := Command.CString(text);
    if dest.None? || |own| != HASH_LEN then None
    else
      var payload := Payload(Stamp(timestamp, clock), body, fields);
      var signature := sign(dest.value + own + payload);
      if |payload| > MAX_OPPORTUNISTIC_PAYLOAD || |signature| != SIG_LEN then None
      else Some(dest.value + own + signature + payload)
  }

  method Pack(dest: Option<seq<byte>>, own: seq<byte>, text: seq<byte>, fields: seq<byte>,
              timestamp: nat, clock: nat, sign: Signer) returns (r: Option<seq<byte>>)
    requires dest.Some? ==> |dest.value| == HASH_LEN
    requires Doubles(timestamp, clock) && |text| < 0x1_0000_0000
    ensures r == Packed(dest, own, text, fields, timestamp, clock, sign)
  {
    if dest.None? || |own| != HASH_LEN {
      return None;
    }
    var body := Command.CString(text);
    var payload := new Writer();
    payload.ArrayHeader(4);
    payload.Float64(if Positive(timestamp) then timestamp else clock);
    payload.Bin([]);
    payload.Bin(body);
    if fields != [] {
      payload.Append(fields);
    } else {
      payload.MapHeader(0);
    }
    PayloadInOrder(payload.buf, Stamp(timestamp, clock), body, fields);
    if |payload.buf| > MAX_OPPORTUNISTIC_PAYLOAD {
      return None;
    }
    var hashed := dest.value + own + payload.buf;
    var signature := sign(hashed);
    if |signature| != SIG_LEN {
      return None;
    }
    var out := dest.value;
    out := out + own;
    out := out + signature;
    out := out + payload.buf;
    return Some(out);
  }

  lemma PayloadInOrder(buf: seq<byte>, stamp: nat, text: seq<byte>, fields: seq<byte>)
    requires stamp < 0x1_0000_0000_0000_0000 && |text| < 0x1_0000_0000
    requires buf == [] + ArrayHead(0, 4) + Encoded(Float(stamp)) + Encoded(Blob([])) + Encoded(Blob(text))
                    + FieldsOrEmpty(fields)
    ensures buf == Payload(stamp, text, fields)
  {}

  /** What fits a single packet: the text and the fields (an empty map counts
      one) share 281 bytes, less one where the text needs a two-byte length. */
  predicate Fits(text: seq<byte>, fields: seq<byte>) {
    |text| + (if fields == [] then 1 else |fields|) <= if |text| < 0x100 then 281 else 280
  }

  lemma PayloadSize(stamp: nat, text: seq<byte>, fields: seq<byte>)
    requires stamp < 0x1_0000_0000_0000_0000 && |text| < 0x1_0000_0000
    ensures |Payload(stamp, text, fields)| <= MAX_OPPORTUNISTIC_PAYLOAD <==> Fits(text, fields)
  {}

  /** Packing succeeds exactly for a known destination, a hash and a signature of
      the right lengths, and a text and fields that fit. */
  lemma PackedIff(dest: Option<seq<byte>>, own: seq<byte>, text: seq<byte>, fields: seq<byte>,
                  timestamp: nat, clock: nat, sign: Signer)
    requires dest.Some? ==> |dest.value| == HASH_LEN
    requires Doubles(timestamp, clock) && |text| < 0x1_0000_0000
    ensures Packed(dest, own, text, fields, timestamp, clock, sign).Some? <==>
      && dest.Some? && |own| == 16 && Fits(Command.CString(text), fields)
      && |sign(dest.value + own + Payload(Stamp(timestamp, clock), Command.CString(text), fields))| == 64
  {
    PayloadSize(Stamp(timestamp, clock), Command.CString(text), fields);
  }

  /** A packed message from its first byte to its last: the two hashes, the
      signature of everything else, and an array of four: the time as a float 64,
      an empty title, the text, and the caller's map or else an empty one. */
  lemma PackedBytes(dest: seq<byte>, own: seq<byte>, text: seq<byte>, fields: seq<byte>,
                    timestamp: nat, clock: nat, sign: Signer, message: seq<byte>)
    requires |dest| == 16 && Doubles(timestamp, clock) && |text| < 0x1_0000_0000
    requires Packed(Some(dest), own, text, fields, timestamp, clock, sign) == Some(message)
    ensures |message| > 96 && message[..16] == dest && message[16..32] == own
    ensures message[32..96] == sign(message[..32] + message[96..])
    ensures var stamp := if 0 < timestamp <= 0x7ff0_0000_0000_0000 then timestamp else clock;
      var body := Command.CString(text);
      message[96..] == [0x94, 0xcb] + Be(8, stamp) + [0xc4, 0] + BlobHead(|body|) + body
                       + (if fields == [] then [0x80] else fields)
  {
    var stamp, body := Stamp(timestamp, clock), Command.CString(text);
    var payload := Payload(stamp, body, fields);
    PayloadBytes(stamp, body, fields);
    var signature := sign(dest + own + payload);
    assert message[..16] == dest && message[16..32] == own && message[32..96] == signature;
    assert message[96..] == payload && message[..32] == dest + own;
  }

  lemma PayloadBytes(stamp: nat, text: seq<byte>, fields: seq<byte>)
    requires stamp < 0x1_0000_0000_0000_0000 && |text| < 0x1_0000_0000
    ensures Payload(stamp, text, fields)
      == [0x94, 0xcb] + Be(8, stamp) + [0xc4, 0] + BlobHead(|text|) + text + (if fields == [] then [0x80] else fields)
  {
    hide Encoded;
    ScalarBytes(Float(stamp));
    ScalarBytes(Blob([]));
    ScalarBytes(Blob(text));
    assert [0xc4, 0] + [] == [0xc4, 0];
    Regrouped([0xcb] + Be(8, stamp), [0xc4, 0], BlobHead(|text|), text, if fields == [] then [0x80] else fields);
    assert [0x94] + ([0xcb] + Be(8, stamp)) == [0x94, 0xcb] + Be(8, stamp);
  }

  lemma Regrouped(a: seq<byte>, b: seq<byte>, c: seq<byte>, d: seq<byte>, e: seq<byte>)
    ensures [0x94] + (a + (b + ((c + d) + e))) == [0x94] + a + b + c + d + e
  {}

  // ---- Unpacking ------------------------------------------------------------

  datatype Message = Message(dest: seq<byte>, source: seq<byte>, timestamp: Numeric, content: seq<byte>)

  function TrimFront(s: seq<byte>): (r: seq<byte>)
    ensures |r| <= |s|
  {
    if s != [] && Space(s[0]) then TrimFront(s[1..]) else s
  }

  function TrimBack(s: seq<byte>): (r: seq<byte>)
    ensures |r| <= |s|
  {
    if s != [] && Space(s[|s| - 1]) then TrimBack(s[..|s| - 1]) else s
  }

  function Bounded(s: seq<byte>): seq<byte> {
    if |s| > MAX_CONTENT then s[..MAX_CONTENT] else s
  }

  function Content(s: seq<byte>): seq<byte> {
    Bounded(TrimBack(TrimFront(s)))
  }

  lemma {:induction false} TrimFrontDrops(s: seq<byte>)
    ensures var r := TrimFront(s);
      && r == s[|s| - |r|..] && (r != [] ==> !Space(r[0]))
      && forall i | 0 <= i < |s| - |r| :: Space(s[i])
  {
    if s != [] && Space(s[0]) {
      TrimFrontDrops(s[1..]);
      var r := TrimFront(s);
      forall i | 0 <= i < |s| - |r| ensures Space(s[i]) {
        if i > 0 {
          assert s[i] == s[1..][i - 1];
        }
      }
    }
  }

  lemma {:induction false} TrimBackDrops(s: seq<byte>)
    ensures var r := TrimBack(s);
      && r == s[..|r|] && (r != [] ==> !Space(r[|r| - 1]))
      && forall i | |r| <= i < |s| :: Space(s[i])
  {
    if s != [] && Space(s[|s| - 1]) {
      TrimBackDrops(s[..|s| - 1]);
    }
  }

  /** A trimmed text is the stretch between its first and last visible bytes;
      everything cut off is white space. Its first 48 bytes are the content. */
  lemma TrimIsStretch(s: seq<byte>) returns (from: nat, to: nat)
    ensures from <= to <= |s| && TrimBack(TrimFront(s)) == s[from..to]
    ensures forall i | 0 <= i < from || to <= i < |s| :: s[i] in {9, 10, 11, 12, 13, 32}
    ensures from < to ==> s[from] !in {9, 10, 11, 12, 13, 32} && s[to - 1] !in {9, 10, 11, 12, 13, 32}
    ensures Content(s) == if to - from > 48 then s[from..from + 48] else s[from..to]
  {
    var front := TrimFront(s);
    TrimFrontDrops(s);
    TrimBackDrops(front);
    from := |s| - |front|;
    to := from + |TrimBack(front)|;
    forall i | to <= i < |s| ensures Space(s[i]) {
      assert s[i] == front[i - from];
    }
    assert s[from..to] == front[..to - from];
    if from < to {
      assert s[from] == front[0] && TrimBack(front)[0] == front[0];
      assert s[to - 1] == TrimBack(front)[to - from - 1];
    }
  }

  /** The timestamp and content in a payload: an array of at least four whose
      first elements are a number and two byte strings, the first ignored. */
  function PayloadOf(data: seq<byte>): Option<(Numeric, seq<byte>)> {
    match ReadArrayHeader(data, 0)
    case NoReading => None
    case Reading(n, at) => if n < 4 then None else StampAt(data, at)
  }

  function StampAt(data: seq<byte>, p: nat): Option<(Numeric, seq<byte>)>
    requires p <= |data|
  {
    match ReadNumber(data, p)
    case NoReading => None
    case Reading(stamp, at) => TitleAt(data, at, stamp)
  }

  function TitleAt(data: seq<byte>, p: nat, stamp: Numeric): Option<(Numeric, seq<byte>)>
    requires p <= |data|
  {
    match ReadBytes(data, p)
    case NoReading => None
    case Reading(_, at) => BodyAt(data, at, stamp)
  }

  function BodyAt(data: seq<byte>, p: nat, stamp: Numeric): Option<(Numeric, seq<byte>)>
    requires p <= |data|
  {
    match ReadBytes(data, p)
    case NoReading => None
    case Reading(body, _) => Some((stamp, Content(body)))
  }

  function Unpacked(data: seq<byte>): (r: Option<Message>)
    ensures r.Some? ==> |data| > HEADER_LEN
  {
    if |data| <= HEADER_LEN then None
    else
      match PayloadOf(data[HEADER_LEN..])
      case None => None
      case Some(inner) => Some(Message(data[..HASH_LEN], data[HASH_LEN..2 * HASH_LEN], inner.0, inner.1))
  }

  method Unpack(data: seq<byte>) returns (r: Option<Message>)
    ensures r == Unpacked(data)
  {
    if |data| <= HEADER_LEN {
      return None;
    }
    var reader := new Reader(data[HEADER_LEN..]);
    var ok, n := reader.ReadHeader();
    if !ok || n < 4 {
      return None;
    }
    var stamp, p;
    ok, stamp := reader.Number();
    if !ok {
      return None;
    }
    ok, p := reader.ReadBlob();
    if !ok {
      return None;
    }
    ok, p := reader.ReadBlob();
    if !ok {
      return None;
    }
    var content := Trimmed(p);
    return Some(Message(data[..HASH_LEN], data[HASH_LEN..2 * HASH_LEN], stamp, content));
  }

  /** Trim both ends, then bound the copy. */
  method Trimmed(s: seq<byte>) returns (r: seq<byte>)
    ensures r == Content(s)
  {
    r := s;
    while |r| > 0 && Space(r[0])
      invariant TrimFront(r) == TrimFront(s)
      decreases |r|
    {
      r := r[1..];
    }
    while |r| > 0 && Space(r[|r| - 1])
      invariant TrimBack(r) == TrimBack(TrimFront(s))
      decreases |r|
    {
      r := r[..|r| - 1];
    }
    if |r| > MAX_CONTENT {
      r := r[..MAX_CONTENT];
    }
  }

  // ---- Exactly what is unpacked -------------------------------------------------

  /** `data` starts with an array of `n` elements, at least four, whose first is
      the number `stamp`, whose second is some byte string and whose third is the
      byte string `body`, each in any of its formats. */
  ghost predicate CutAt(data: seq<byte>, n: nat, stamp: Numeric, title: seq<byte>, body: seq<byte>,
                        a: nat, b: nat, c: nat, d: nat)
  {
    && 4 <= n && a <= b <= c <= d <= |data| && ArrayFormat(n, data[0..a]) && NumberFormat(stamp, data[a..b])
    && BytesFormat(title, data[b..c]) && BytesFormat(body, data[c..d])
  }

  ghost predicate Holds(data: seq<byte>, stamp: Numeric, body: seq<byte>) {
    exists n: nat, title: seq<byte>, a: nat, b: nat, c: nat, d: nat :: CutAt(data, n, stamp, title, body, a, b, c, d)
  }

  /** A message of any sender is understood just when it is longer than its 96
      bytes of hashes and signature and such a payload follows; what else the
      payload holds, and the signature, are not looked at. */
  lemma UnpackedIff(data: seq<byte>, m: Message)
    ensures Unpacked(data) == Some(m) <==>
      && |data| > 96 && m.dest == data[..16] && m.source == data[16..32]
      && exists body :: Holds(data[96..], m.timestamp, body) && m.content == Content(body)
  {
    hide Content, ArrayFormat, NumberFormat, BytesFormat;
    if Unpacked(data) == Some(m) {
      var body := PayloadHolds(data[96..]);
    }
    if |data| > 96 && m.dest == data[..16] && m.source == data[16..32] {
      forall body | Holds(data[96..], m.timestamp, body) && m.content == Content(body)
        ensures Unpacked(data) == Some(m)
      {
        HeldIsRead(data[96..], m.timestamp, body);
      }
    }
  }

  lemma PayloadHolds(data: seq<byte>) returns (body: seq<byte>)
    requires PayloadOf(data).Some?
    ensures var (stamp, content) := PayloadOf(data).value; Holds(data, stamp, body) && content == Content(body)
  {
    hide Content, ArrayFormat, NumberFormat, BytesFormat, ReadArrayHeader, ReadNumber, ReadBytes;
    var header := ReadArrayHeader(data, 0);
    var stamp := ReadNumber(data, header.at);
    var title := ReadBytes(data, stamp.at);
    var text := ReadBytes(data, title.at);
    body := text.value;
    ArrayHeaderReadsIff(data, 0, header.value, header.at);
    NumberReadsIff(data, header.at, stamp.value, stamp.at);
    BytesReadIff(data, stamp.at, title.value, title.at);
    BytesReadIff(data, title.at, body, text.at);
    assert CutAt(data, header.value, stamp.value, title.value, body, header.at, stamp.at, title.at, text.at);
  }

  lemma HeldIsRead(data: seq<byte>, stamp: Numeric, body: seq<byte>)
    requires Holds(data, stamp, body)
    ensures PayloadOf(data) == Some((stamp, Content(body)))
  {
    hide Content, ArrayFormat, NumberFormat, BytesFormat, ReadArrayHeader, ReadNumber, ReadBytes;
    var n: nat, title: seq<byte>, a: nat, b: nat, c: nat, d: nat :| CutAt(data, n, stamp, title, body, a, b, c, d);
    ArrayHeaderReadsIff(data, 0, n, a);
    NumberReadsIff(data, a, stamp, b);
    BytesReadIff(data, b, title, c);
    BytesReadIff(data, c, body, d);
  }

  // ---- What was packed is unpacked --------------------------------------------

  lemma FourPieces(data: seq<byte>, a: seq<byte>, b: seq<byte>, c: seq<byte>, d: seq<byte>, e: seq<byte>)
    requires data == a + (b + (c + (d + e)))
    ensures At(data, 0, a) && At(data, |a|, b) && At(data, |a| + |b|, c) && At(data, |a| + |b| + |c|, d)
  {
    AtSlice(data, 0, data);
    AtSplit(data, 0, a, b + (c + (d + e)));
    AtSplit(data, |a|, b, c + (d + e));
    AtSplit(data, |a| + |b|, c, d + e);
    AtSplit(data, |a| + |b| + |c|, d, e);
  }

  lemma HeaderOfFour(data: seq<byte>)
    requires At(data, 0, ArrayHead(0, 4))
    ensures ReadArrayHeader(data, 0) == Reading(4, 1)
  {
    AtFirst(data, 0, ArrayHead(0, 4));
  }

  lemma TitleReads(data: seq<byte>)
    requires At(data, 10, Encoded(Blob([])))
    ensures ReadBytes(data, 10) == Reading([], 12)
  {
    BytesRoundTrip(Blob([]), data, 10);
  }

  lemma BodyReads(data: seq<byte>, text: seq<byte>)
    requires |text| < 0x1_0000_0000 && At(data, 12, Encoded(Blob(text)))
    ensures ReadBytes(data, 12).Reading? && ReadBytes(data, 12).value == text
  {
    BytesRoundTrip(Blob(text), data, 12);
  }

  lemma Assembled(data: seq<byte>, stamp: nat, text: seq<byte>)
    requires 12 <= |data| && ReadArrayHeader(data, 0) == Reading(4, 1)
    requires ReadNumber(data, 1) == Reading(Double(stamp), 10) && ReadBytes(data, 10) == Reading([], 12)
    requires ReadBytes(data, 12).Reading? && ReadBytes(data, 12).value == text
    ensures PayloadOf(data) == Some((Double(stamp), Content(text)))
  {}

  lemma PieceSizes(stamp: nat)
    requires stamp < 0x1_0000_0000_0000_0000
    ensures |ArrayHead(0, 4)| == 1 && |Encoded(Float(stamp))| == 9 && |Encoded(Blob([]))| == 2
  {}

  lemma PayloadReads(stamp: nat, text: seq<byte>, fields: seq<byte>)
    requires stamp < 0x1_0000_0000_0000_0000 && |text| < 0x1_0000_0000
    ensures PayloadOf(Payload(stamp, text, fields)) == Some((Double(stamp), Content(text)))
  {
    var data := Payload(stamp, text, fields);
    PieceSizes(stamp);
    FourPieces(data, ArrayHead(0, 4), Encoded(Float(stamp)), Encoded(Blob([])), Encoded(Blob(text)),
               FieldsOrEmpty(fields));
    PiecesRead(data, stamp, text);
  }

  lemma PiecesRead(data: seq<byte>, stamp: nat, text: seq<byte>)
    requires stamp < 0x1_0000_0000_0000_0000 && |text| < 0x1_0000_0000
    requires At(data, 0, ArrayHead(0, 4)) && At(data, 1, Encoded(Float(stamp)))
    requires At(data, 10, Encoded(Blob([]))) && At(data, 12, Encoded(Blob(text)))
    ensures PayloadOf(data) == Some((Double(stamp), Content(text)))
  {
    HeaderOfFour(data);
    FloatRoundTrip(stamp, data, 1);
    TitleReads(data);
    BodyReads(data, text);
    Assembled(data, stamp, text);
  }

  /** A message in parts. */
  function Parts(dest: seq<byte>, own: seq<byte>, signature: seq<byte>, payload: seq<byte>): seq<byte> {
    dest + own + signature + payload
  }

  lemma PartsUnpack(dest: seq<byte>, own: seq<byte>, signature: seq<byte>, payload: seq<byte>, stamp: Numeric,
                    content: seq<byte>)
    requires |dest| == HASH_LEN && |own| == HASH_LEN && |signature| == SIG_LEN
    requires payload != [] && PayloadOf(payload) == Some((stamp, content))
    ensures Unpacked(Parts(dest, own, signature, payload)) == Some(Message(dest, own, stamp, content))
  {
    var m := Parts(dest, own, signature, payload);
    assert m[..HASH_LEN] == dest && m[HASH_LEN..2 * HASH_LEN] == own && m[HEADER_LEN..] == payload;
  }

  lemma PackedParts(dest: seq<byte>, own: seq<byte>, text: seq<byte>, fields: seq<byte>,
                    timestamp: nat, clock: nat, sign: Signer, message: seq<byte>)
    returns (signature: seq<byte>, payload: seq<byte>)
    requires |dest| == HASH_LEN && Doubles(timestamp, clock) && |text| < 0x1_0000_0000
    requires Packed(Some(dest), own, text, fields, timestamp, clock, sign) == Some(message)
    ensures |own| == HASH_LEN && |signature| == SIG_LEN && message == Parts(dest, own, signature, payload)
    ensures payload != [] && PayloadOf(payload)
      == Some((Double(Stamp(timestamp, clock)), Content(Command.CString(text))))
  {
    payload := Payload(Stamp(timestamp, clock), Command.CString(text), fields);
    signature := sign(dest + own + payload);
    PayloadReads(Stamp(timestamp, clock), Command.CString(text), fields);
  }

  /** A packed message unpacks to its destination, our source hash, the same
      timestamp bits and the first 48 bytes of the trimmed text. */
  lemma PackedUnpacks(dest: seq<byte>, own: seq<byte>, text: seq<byte>, fields: seq<byte>,
                      timestamp: nat, clock: nat, sign: Signer, message: seq<byte>)
    requires |dest| == HASH_LEN && Doubles(timestamp, clock) && |text| < 0x1_0000_0000
    requires Packed(Some(dest), own, text, fields, timestamp, clock, sign) == Some(message)
    ensures Unpacked(message)
      == Some(Message(dest, own, Double(Stamp(timestamp, clock)), Content(Command.CString(text))))
  {
    var signature, payload := PackedParts(dest, own, text, fields, timestamp, clock, sign, message);
    PartsUnpack(dest, own, signature, payload, Double(Stamp(timestamp, clock)), Content(Command.CString(text)));
  }

  /** The packet body of an opportunistic message. */
  function Opportunistic(message: seq<byte>): seq<byte>
    requires |message| >= HASH_LEN
  {
    message[HASH_LEN..]
  }

  /** The receiver puts its own hash back in front. */
  function Rebuilt(own: seq<byte>, body: seq<byte>): seq<byte> {
    own + body
  }

  /** The stripped hash survives the trip: the receiver the packet was addressed
      to rebuilds the message and reads what was sent. Another receiver reads
      the same message addressed to itself. */
  lemma OpportunisticUnpacks(dest: seq<byte>, own: seq<byte>, text: seq<byte>, fields: seq<byte>, timestamp: nat,
                             clock: nat, sign: Signer, message: seq<byte>, receiver: seq<byte>)
    requires |dest| == HASH_LEN && |receiver| == HASH_LEN && Doubles(timestamp, clock) && |text| < 0x1_0000_0000
    requires Packed(Some(dest), own, text, fields, timestamp, clock, sign) == Some(message)
    ensures Rebuilt(dest, Opportunistic(message)) == message
    ensures Unpacked(Rebuilt(receiver, Opportunistic(message)))
      == Some(Message(receiver, own, Double(Stamp(timestamp, clock)), Content(Command.CString(text))))
  {
    var signature, payload := PackedParts(dest, own, text, fields, timestamp, clock, sign, message);
    Readdressed(dest, own, signature, payload, receiver);
    PartsUnpack(receiver, own, signature, payload, Double(Stamp(timestamp, clock)), Content(Command.CString(text)));
  }

  lemma Readdressed(dest: seq<byte>, own: seq<byte>, signature: seq<byte>, payload: seq<byte>, receiver: seq<byte>)
    requires |dest| == HASH_LEN
    ensures Rebuilt(receiver, Opportunistic(Parts(dest, own, signature, payload)))
      == Parts(receiver, own, signature, payload)
    ensures Rebuilt(dest, Opportunistic(Parts(dest, own, signature, payload))) == Parts(dest, own, signature, payload)
  {
    assert Opportunistic(Parts(dest, own, signature, payload)) == own + signature + payload;
  }

  /** A command sent as text, in any case, with or without its slash and with
      any white space around it, arrives as that command. */
  lemma CommandArrives(dest: seq<byte>, own: seq<byte>, text: seq<byte>, timestamp: nat, clock: nat,
                       sign: Signer, message: seq<byte>, word: seq<byte>)
    requires |dest| == HASH_LEN && Doubles(timestamp, clock) && |text| < 0x1_0000_0000
    requires Packed(Some(dest), own, text, [], timestamp, clock, sign) == Some(message)
    requires TrimBack(TrimFront(Command.CString(text))) == word && |word| <= MAX_CONTENT
    ensures Unpacked(message).Some? && Command.Matched(Unpacked(message).value.content) == Command.Matched(word)
  {
    PackedUnpacks(dest, own, text, [], timestamp, clock, sign, message);
  }

  // ---- Extensions --------------------------------------------------------------

  lemma {:induction false} BeAtExtends(s: seq<byte>, t: seq<byte>, p: nat, n: nat)
    requires p + n <= |s|
    ensures BeAt(s + t, p, n) == BeAt(s, p, n)
  {
    if n > 0 {
      BeAtExtends(s, t, p, n - 1);
    }
  }

  lemma NumberExtends(s: seq<byte>, t: seq<byte>, p: nat)
    requires p <= |s| && ReadNumber(s, p).Reading?
    ensures ReadNumber(s + t, p) == ReadNumber(s, p)
  {
    var width := NumberWidth(s[p]);
    if p + 1 + width <= |s| {
      BeAtExtends(s, t, p + 1, width);
    }
  }

  lemma HeaderExtends(s: seq<byte>, t: seq<byte>, p: nat)
    requires p <= |s| && ReadArrayHeader(s, p).Reading?
    ensures ReadArrayHeader(s + t, p) == ReadArrayHeader(s, p)
  {
    if p + 3 <= |s| {
      BeAtExtends(s, t, p + 1, 2);
    }
    if p + 5 <= |s| {
      BeAtExtends(s, t, p + 1, 4);
    }
  }

  lemma BytesExtend(s: seq<byte>, t: seq<byte>, p: nat)
    requires p <= |s| && ReadBytes(s, p).Reading?
    ensures ReadBytes(s + t, p) == ReadBytes(s, p)
  {
    BeAtExtends(s, t, p + 1, SizedWidth(s[p]));
    var r := ReadBytes(s, p);
    var start := r.at - |r.value|;
    assert (s + t)[start..r.at] == s[start..r.at];
  }

  lemma PayloadExtends(s: seq<byte>, t: seq<byte>)
    requires PayloadOf(s).Some?
    ensures PayloadOf(s + t) == PayloadOf(s)
  {
    var header := ReadArrayHeader(s, 0);
    HeaderExtends(s, t, 0);
    var stamp := ReadNumber(s, header.at);
    NumberExtends(s, t, header.at);
    var title := ReadBytes(s, stamp.at);
    BytesExtend(s, t, stamp.at);
    BytesExtend(s, t, title.at);
  }

  lemma HeadsExtend(s: seq<byte>, t: seq<byte>)
    requires |s| > HEADER_LEN
    ensures (s + t)[HEADER_LEN..] == s[HEADER_LEN..] + t
    ensures (s + t)[..HASH_LEN] == s[..HASH_LEN] && (s + t)[HASH_LEN..2 * HASH_LEN] == s[HASH_LEN..2 * HASH_LEN]
  {}

  /** What is accepted stays accepted, with the same result, whatever follows. */
  lemma UnpackedExtends(s: seq<byte>, t: seq<byte>)
    requires Unpacked(s).Some?
    ensures Unpacked(s + t) == Unpacked(s)
  {
    PayloadExtends(s[HEADER_LEN..], t);
    HeadsExtend(s, t);
  }
}
