/** The HCI packets of the Nordic serial DFU protocol: preamble, payload, CRC,
    and the stream of framed packets they make. */
module Hci {
  import opened Basics
  import opened Bits
  import opened Slip
  import Crc16

  const OVERHEAD: nat := 6

  /** Byte `i` of the preamble: sequence number, the next one and two flags;
      packet type and the low bits of the length; its high bits; and what brings
      the sum to zero. */
  function PreambleByte(seq_: nat, len: nat, i: nat): byte
    requires seq_ < 8
  {
    if i == 0 then seq_ + 8 * ((seq_ + 1) % 8) + 192
    else if i == 1 then 14 + 16 * (len % 16)
    else if i == 2 then len / 16 % 256
    else (0 - (PreambleByte(seq_, len, 0) + PreambleByte(seq_, len, 1) + PreambleByte(seq_, len, 2))) % 256
  }

  function Preamble(seq_: nat, len: nat): (s: seq<byte>)
    requires seq_ < 8
    ensures |s| == 4
  {
    seq(4, i requires 0 <= i < 4 => PreambleByte(seq_, len, i))
  }

  function CrcByte(b: seq<byte>, i: nat): byte {
    if i == 0 then LowByte(Crc16.Checksum(b)) else LowByte(Crc16.Checksum(b) >> 8)
  }

  /** The checksum of `b` on the wire, low byte first. */
  function CrcField(b: seq<byte>): (s: seq<byte>)
    ensures |s| == 2
  {
    seq(2, i requires 0 <= i < 2 => CrcByte(b, i))
  }

  function Body(seq_: nat, payload: seq<byte>): seq<byte>
    requires seq_ < 8
  {
    var b := Preamble(seq_, |payload|) + payload;
    b + CrcField(b)
  }

  function Frame(seq_: nat, payload: seq<byte>): seq<byte>
    requires seq_ < 8
  {
    [END] + Escaped(Body(seq_, payload)) + [END]
  }

  // ---- A receiver ----------------------------------------------------------------

  datatype Packet = Packet(seq_: nat, payload: seq<byte>)

  /** The preamble's sum, flags, type, consecutive sequence numbers and length. */
  predicate Sound(pre: seq<byte>, len: nat)
    requires |pre| == 4
  {
    && (pre[0] as int + pre[1] as int + pre[2] as int + pre[3] as int) % 256 == 0
    && pre[0] / 64 == 3 && pre[0] / 8 % 8 == (pre[0] % 8 + 1) % 8 && pre[1] % 16 == 14
    && pre[1] as int / 16 + 16 * (pre[2] as int) == len
  }

  /** Two bytes as a register, the low one first. */
  function Register(low: byte, high: byte): bv32 {
    Wide(low) | (Wide(high) << 8)
  }

  /** The last two bytes are the checksum of all before them. */
  predicate Checks(b: seq<byte>)
    requires |b| >= 2
  {
    Register(b[|b| - 2], b[|b| - 1]) == Crc16.Checksum(b[..|b| - 2])
  }

  /** A packet body is taken apart only if every check passes, the CRC's last. */
  function Parse(b: seq<byte>): Option<Packet> {
    if |b| < OVERHEAD then None
    else
      var payload := b[4..|b| - 2];
      if !Sound(b[..4], |payload|) || !Checks(b) then None else Some(Packet(b[0] % 8, payload))
  }

  function ParseFrame(s: seq<byte>): Option<Packet> {
    match Unescaped(s)
    case None => None
    case Some(b) => Parse(b)
  }

  function ParseAll(frames: seq<seq<byte>>): Option<seq<Packet>> {
    if frames == [] then Some([])
    else
      match ParseFrame(frames[0])
      case None => None
      case Some(p) =>
        match ParseAll(frames[1..])
        case None => None
        case Some(ps) => Some([p] + ps)
  }

  /** Splits a byte stream at the delimiters and takes every frame apart. */
  function Decode(wire: seq<byte>): Option<seq<Packet>> {
    ParseAll(Frames(wire, []))
  }

  // ---- Packets are read back ---------------------------------------------------------

  lemma SumIsZero(sum: int, last: byte)
    requires last == (0 - sum) % 256
    ensures (sum + last) % 256 == 0
  {}

  lemma LengthField(len: nat, p1: byte, p2: byte)
    requires p1 == 14 + 16 * (len % 16) && p2 == len / 16 % 256
    ensures p1 % 16 == 14 && p1 as int / 16 + 16 * (p2 as int) == len % 4096
  {
    Digits(len, len / 4096, len / 16 % 256, len % 16);
  }

  /** A length as multiples of 4096 and 16 and the rest. */
  lemma Digits(len: nat, a: nat, b: nat, r: nat)
    requires a == len / 4096 && b == len / 16 % 256 && r == len % 16
    ensures len % 4096 == 16 * b + r
  {
    assert len == 16 * (len / 16) + r && len / 16 == 256 * (len / 16 / 256) + b;
    assert len / 16 / 256 == a;
  }

  lemma FlagsField(seq_: nat, p0: byte)
    requires seq_ < 8 && p0 == seq_ + 8 * ((seq_ + 1) % 8) + 192
    ensures p0 % 8 == seq_ && p0 / 64 == 3 && p0 / 8 % 8 == (seq_ + 1) % 8
  {}

  lemma PreambleReads(seq_: nat, len: nat, s: seq<byte>)
    requires seq_ < 8 && s == Preamble(seq_, len)
    ensures s[0] % 8 == seq_ && (Sound(s, len) <==> len < 4096)
  {
    SumIsZero(s[0] as int + s[1] as int + s[2] as int, s[3]);
    LengthField(len, s[1], s[2]);
    FlagsField(seq_, s[0]);
  }

  lemma LowThenHigh(c: bv32)
    requires c < 0x1_0000
    ensures (c & 0xFF) | (((c >> 8) & 0xFF) << 8) == c
  {}

  lemma RegisterReads(c: bv32)
    requires c < 0x1_0000
    ensures Register(LowByte(c), LowByte(c >> 8)) == c
  {
    WideLowByte(c);
    WideLowByte(c >> 8);
    LowThenHigh(c);
  }

  lemma BodySplits(seq_: nat, payload: seq<byte>, b: seq<byte>)
    requires seq_ < 8 && b == Body(seq_, payload)
    ensures |b| == |payload| + OVERHEAD && b[..4] == Preamble(seq_, |payload|) && b[4..|b| - 2] == payload
    ensures Checks(b)
  {
    var inner := Preamble(seq_, |payload|) + payload;
    assert b[..|b| - 2] == inner;
    Crc16.ChecksumIsHalfword(inner);
    RegisterReads(Crc16.Checksum(inner));
    assert b[|b| - 2] == CrcField(inner)[0] && b[|b| - 1] == CrcField(inner)[1];
  }

  lemma ParseOf(b: seq<byte>, pre: seq<byte>, payload: seq<byte>)
    requires |b| >= OVERHEAD && pre == b[..4] && payload == b[4..|b| - 2] && Checks(b)
    ensures Parse(b) == if Sound(pre, |payload|) then Some(Packet(pre[0] % 8, payload)) else None
  {}

  /** A preamble as the protocol lays it out: the sequence number in the low three
      bits, the next one above it, both flags on top; type 14 and the low half-byte
      of the length; its high byte; and what makes the four sum to zero. */
  lemma PreambleBytes(seq_: nat, len: nat, pre: seq<byte>)
    requires seq_ < 8 && len < 4096 && pre == Preamble(seq_, len)
    ensures pre[0] == seq_ + 8 * (if seq_ == 7 then 0 else seq_ + 1) + 64 + 128
    ensures pre[1] % 16 == 14 && pre[1] as int / 16 + 16 * (pre[2] as int) == len
    ensures (pre[0] as int + pre[1] as int + pre[2] as int + pre[3] as int) % 256 == 0
  {
    PreambleReads(seq_, len, pre);
  }

  /** A packet is its preamble, its payload, and the checksum of both, low byte
      first. */
  lemma BodyBytes(seq_: nat, payload: seq<byte>, b: seq<byte>)
    requires seq_ < 8 && b == Body(seq_, payload)
    ensures |b| == 4 + |payload| + 2 && b[..4] == Preamble(seq_, |payload|) && b[4..4 + |payload|] == payload
    ensures Wide(b[|b| - 2]) | (Wide(b[|b| - 1]) << 8) == Crc16.Checksum(b[..4 + |payload|])
  {
    hide Preamble, Body;
    BodySplits(seq_, payload, b);
  }

  /** A packet is read back as it was built exactly when its length fits the
      12-bit field. */
  lemma BodyReads(seq_: nat, payload: seq<byte>, b: seq<byte>)
    requires seq_ < 8 && b == Body(seq_, payload)
    ensures Parse(b) == if |payload| < 4096 then Some(Packet(seq_, payload)) else None
  {
    BodySplits(seq_, payload, b);
    var pre := Preamble(seq_, |payload|);
    PreambleReads(seq_, |payload|, pre);
    ParseOf(b, pre, payload);
  }

  /** What the client sends for these payloads, in order, the first one counted
      `seq_`. */
  function Stream(payloads: seq<seq<byte>>, seq_: nat): seq<byte> {
    if payloads == [] then [] else Frame(seq_ % 8, payloads[0]) + Stream(payloads[1..], seq_ + 1)
  }

  function Numbered(payloads: seq<seq<byte>>, seq_: nat): (r: seq<Packet>)
    ensures |r| == |payloads|
  {
    if payloads == [] then [] else [Packet(seq_ % 8, payloads[0])] + Numbered(payloads[1..], seq_ + 1)
  }

  predicate AllShort(payloads: seq<seq<byte>>) {
    forall k | 0 <= k < |payloads| :: |payloads[k]| < 4096
  }

  lemma FrameReads(seq_: nat, payload: seq<byte>)
    requires seq_ < 8
    ensures var e := Escaped(Body(seq_, payload)); e != [] && END !in e
    ensures ParseFrame(Escaped(Body(seq_, payload))) == Parse(Body(seq_, payload))
  {
    var b := Body(seq_, payload);
    BodySplits(seq_, payload, b);
    NoDelimiter(b);
    EscapeRoundTrip(b);
  }

  /** The stream decodes to exactly the packets that went in, numbered
      consecutively modulo eight, if and only if every payload fits its length
      field. */
  lemma {:induction false} StreamDecodes(payloads: seq<seq<byte>>, seq_: nat)
    ensures Decode(Stream(payloads, seq_)) == if AllShort(payloads) then Some(Numbered(payloads, seq_)) else None
  {
    if payloads != [] {
      var e := Escaped(Body(seq_ % 8, payloads[0]));
      var rest := Stream(payloads[1..], seq_ + 1);
      FrameReads(seq_ % 8, payloads[0]);
      BodyReads(seq_ % 8, payloads[0], Body(seq_ % 8, payloads[0]));
      FrameSplitsOff(e, rest);
      StreamDecodes(payloads[1..], seq_ + 1);
      DecodeFirst(e, rest);
      assert AllShort(payloads) <==> |payloads[0]| < 4096 && AllShort(payloads[1..]) by {
        assert forall k | 0 <= k < |payloads| - 1 :: payloads[1..][k] == payloads[k + 1];
        assert forall k | 1 <= k < |payloads| :: payloads[k] == payloads[1..][k - 1];
      }
    }
  }

  lemma DecodeFirst(e: seq<byte>, rest: seq<byte>)
    requires Frames([END] + e + [END] + rest, []) == [e] + Frames(rest, [])
    ensures Decode([END] + e + [END] + rest)
      == if ParseFrame(e).None? || Decode(rest).None? then None else Some([ParseFrame(e).value] + Decode(rest).value)
  {
    assert ([e] + Frames(rest, []))[1..] == Frames(rest, []);
  }

  lemma {:induction false} NumberedAt(payloads: seq<seq<byte>>, seq_: nat, k: nat)
    requires k < |payloads|
    ensures Numbered(payloads, seq_)[k] == Packet((seq_ + k) % 8, payloads[k])
    decreases k
  {
    if k > 0 {
      NumberedAt(payloads[1..], seq_ + 1, k - 1);
    }
  }

  /** Two streams of packets that fit their fields are equal only if the packets
      are. */
  lemma StreamIsUnique(ps: seq<seq<byte>>, qs: seq<seq<byte>>, seq_: nat)
    requires AllShort(ps) && AllShort(qs) && Stream(ps, seq_) == Stream(qs, seq_)
    ensures ps == qs
  {
    StreamDecodes(ps, seq_);
    StreamDecodes(qs, seq_);
    forall k | 0 <= k < |ps| ensures ps[k] == qs[k] {
      NumberedAt(ps, seq_, k);
      NumberedAt(qs, seq_, k);
    }
  }

  lemma {:induction false} StreamSnoc(payloads: seq<seq<byte>>, p: seq<byte>, seq_: nat, f: seq<byte>)
    requires f == Frame((seq_ + |payloads|) % 8, p)
    ensures Stream(payloads + [p], seq_) == Stream(payloads, seq_) + f
  {
    if payloads == [] {
      assert payloads + [p] == [p] && [p][1..] == [];
      assert Stream([p], seq_) == Frame(seq_ % 8, p) + Stream([], seq_ + 1);
    } else {
      StreamSnoc(payloads[1..], p, seq_ + 1, f);
      assert (payloads + [p])[1..] == payloads[1..] + [p];
      Associates(Frame(seq_ % 8, payloads[0]), Stream(payloads[1..], seq_ + 1), f);
    }
  }
}
