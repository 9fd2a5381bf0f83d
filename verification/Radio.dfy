/** RNode framing: packets of up to 508 bytes sent as one or two LoRa frames,
    and the receiver that joins the halves again. */
module Radio {
  import opened Basics
  import opened Bits

  const SINGLE_MTU: nat := 255
  const FIRST_LEN: nat := 254
  const MAX_PAYLOAD: nat := 508
  const SPLIT_BUF: nat := 512

  // ---- Frames ------------------------------------------------------------------

  /** A header: the sequence nibble on top, the split flag below. */
  function Header(nibble: nat, split: bool): byte
    requires nibble < 16
  {
    16 * nibble + (if split then 1 else 0)
  }

  function Nibble(header: byte): nat {
    header / 16
  }

  predicate IsSplit(header: byte) {
    header % 2 == 1
  }

  predicate NeedsSplit(packet: seq<byte>) {
    |packet| > FIRST_LEN
  }

  function FirstPart(packet: seq<byte>): seq<byte> {
    if NeedsSplit(packet) then packet[..FIRST_LEN] else packet
  }

  function SecondPart(packet: seq<byte>): seq<byte>
    requires NeedsSplit(packet)
  {
    packet[FIRST_LEN..]
  }

  function FirstFrame(packet: seq<byte>, nibble: nat): seq<byte>
    requires nibble < 16
  {
    [Header(nibble, NeedsSplit(packet))] + FirstPart(packet)
  }

  function SecondFrame(packet: seq<byte>, nibble: nat): seq<byte>
    requires nibble < 16 && NeedsSplit(packet)
  {
    [Header(nibble, true)] + SecondPart(packet)
  }

  /** What a transmission puts on the air: the second half only follows a first
      half that went out. */
  function Emitted(packet: seq<byte>, nibble: nat, firstOk: bool): seq<seq<byte>>
    requires nibble < 16
  {
    if NeedsSplit(packet) && firstOk then [FirstFrame(packet, nibble), SecondFrame(packet, nibble)]
    else [FirstFrame(packet, nibble)]
  }

  /** The framing, byte by byte: up to 254 bytes go out behind one header whose
      upper half is the sequence number; more go out in two frames whose equal
      headers also have their lowest bit set, 254 bytes first. */
  lemma FramesOnAir(packet: seq<byte>, nibble: nat)
    requires nibble < 16
    ensures |packet| <= 254 ==> Emitted(packet, nibble, true) == [[16 * nibble] + packet]
    ensures |packet| > 254 ==>
      Emitted(packet, nibble, true) == [[16 * nibble + 1] + packet[..254], [16 * nibble + 1] + packet[254..]]
    ensures |packet| > 254 ==> Emitted(packet, nibble, false) == [[16 * nibble + 1] + packet[..254]]
  {}

  // ---- The receiver, as a function ---------------------------------------------------

  /** The buffered first half, if any. */
  datatype Buffered = Nothing | Half(part: seq<byte>, nibble: nat, since: nat)

  datatype Outcome = Quiet | Oversize | Delivered(payload: seq<byte>)

  function Expired(b: Buffered, now: nat, timeout: nat): Buffered {
    if b.Half? && Age(now, b.since) > timeout then Nothing else b
  }

  /** A frame of at least two bytes, heard while `b` is buffered. */
  function Heard(b: Buffered, frame: seq<byte>, later: nat, room: nat): (r: (Buffered, Outcome))
    requires |frame| >= 2
  {
    var nibble, payload := Nibble(frame[0]), frame[1..];
    if !IsSplit(frame[0]) then (b, Delivered(if |payload| > room then payload[..room] else payload))
    else if b.Nothing? then (if |payload| > SPLIT_BUF then Nothing else Half(payload, nibble, later), Quiet)
    else if nibble != b.nibble then (Half(payload, nibble, later), Quiet)
    else if |b.part| + |payload| > room || |b.part| + |payload| > MAX_PAYLOAD then (Nothing, Quiet)
    else (Nothing, Delivered(b.part + payload))
  }

  /** What the chip holds: nothing flagged, or a frame read with or without a
      receive error. */
  datatype Chip = Idle | Packet(bytes: seq<byte>, ok: bool)

  /** One poll; `now` is the clock at its start, `later` when the frame was read. */
  function Poll(b: Buffered, chip: Chip, now: nat, later: nat, timeout: nat, room: nat): (Buffered, Outcome) {
    var b' := Expired(b, now, timeout);
    if chip.Idle? || |chip.bytes| == 0 then (b', Quiet)
    else if |chip.bytes| > 512 then (b', Oversize)
    else if !chip.ok || |chip.bytes| < 2 then (b', Quiet)
    else Heard(b', chip.bytes, later, room)
  }

  /** What a poll finds that is not half of a packet: nothing, a frame too long for
      any buffer, noise, or a whole packet, cut off at the caller's room. None of
      it touches a buffered half that is in time. */
  lemma PollOutcomes(b: Buffered, chip: Chip, now: nat, later: nat, timeout: nat, room: nat)
    requires b.Half? ==> Age(now, b.since) <= timeout
    ensures var (b', out) := Poll(b, chip, now, later, timeout, room);
      && (chip.Idle? ==> b' == b && out == Quiet)
      && (chip.Packet? && |chip.bytes| > 512 ==> b' == b && out == Oversize)
      && (chip.Packet? && |chip.bytes| <= 512 && (!chip.ok || |chip.bytes| < 2) ==> b' == b && out == Quiet)
      && (chip.Packet? && chip.ok && 2 <= |chip.bytes| <= 512 && chip.bytes[0] % 2 == 0 ==>
            b' == b && out == Delivered(chip.bytes[1..Least(1 + room, |chip.bytes|)]))
  {}

  // ---- The device ----------------------------------------------------------------------

  class Transceiver {
    const splitBuf: array<byte>
    var splitLen: nat
    var splitSeq: nat        // 0xFF while no first half is buffered
    var splitMs: nat
    var rxFlag: bool
    const timeout: nat
    var online: bool
    var txEnabled: bool
    var air: seq<seq<byte>>  // the frames handed to the chip so far

    constructor (timeout: nat)
      ensures Valid() && View() == Nothing && this.timeout == timeout && air == [] && fresh(splitBuf)
    {
      splitBuf := new byte[512];
      splitLen, splitSeq, splitMs := 0, 0xFF, 0;
      rxFlag, online, txEnabled, air := false, false, false, [];
      this.timeout := timeout;
    }

    ghost predicate Valid()
      reads this
    {
      splitBuf.Length == 512 && splitLen <= 512 && (splitSeq < 16 || splitSeq == 0xFF)
    }

    ghost function View(): Buffered
      requires Valid()
      reads this, splitBuf
    {
      if splitSeq == 0xFF then Nothing else Half(splitBuf[..splitLen], splitSeq, splitMs)
    }

    /** Copies `src` to `dst` from `at` on. */
    static method Copy(dst: array<byte>, at: nat, src: seq<byte>)
      requires at + |src| <= dst.Length
      modifies dst
      ensures dst[..] == old(dst[..at]) + src + old(dst[at + |src|..])
    {
      for i := 0 to |src|
        invariant dst[..at] == old(dst[..at]) && dst[at + |src|..] == old(dst[at + |src|..])
        invariant dst[at..at + i] == src[..i]
      {
        dst[at + i] := src[i];
      }
      assert dst[..] == dst[..at] + dst[at..at + |src|] + dst[at + |src|..];
    }

    method Discard()
      requires Valid()
      modifies this`splitLen, this`splitSeq
      ensures Valid() && View() == Nothing
    {
      splitSeq := 0xFF;
      splitLen := 0;
    }

    method Buffer(payload: seq<byte>, seq_: nat, now: nat)
      requires Valid() && |payload| <= 512 && seq_ < 16
      modifies this`splitLen, this`splitSeq, this`splitMs, splitBuf
      ensures Valid() && View() == Half(payload, seq_, now)
    {
      Copy(splitBuf, 0, payload);
      splitLen := |payload|;
      splitSeq := seq_;
      splitMs := now;
      assert splitBuf[..splitLen] == payload;
    }

    /** The size of what was delivered into `buf`, 0 for nothing, -1 for a frame
        larger than any buffer. */
    method ReadPending(chip: Chip, buf: array<byte>, now: nat, later: nat) returns (ret: int)
      requires Valid() && buf != splitBuf && (rxFlag <==> chip.Packet?)
      modifies this`splitLen, this`splitSeq, this`splitMs, this`rxFlag, splitBuf, buf
      ensures Valid() && !rxFlag
      ensures var (b, o) := Poll(old(View()), chip, now, later, timeout, buf.Length);
        && View() == b
        && match o
           case Quiet => ret == 0 && buf[..] == old(buf[..])
           case Oversize => ret == -1 && buf[..] == old(buf[..])
           case Delivered(payload) =>
             ret == |payload| <= buf.Length && buf[..ret] == payload && buf[ret..] == old(buf[ret..])
    {
      if splitSeq != 0xFF && Age(now, splitMs) > timeout {
        Discard();
      }
      if !rxFlag {
        return 0;
      }
      rxFlag := false;
      var len := |chip.bytes|;
      if len == 0 {
        return 0;
      }
      if len > 512 {
        return -1;
      }
      if !chip.ok || len < 2 {
        return 0;
      }
      ret := Receive(chip.bytes, buf, later);
    }

    method Receive(frame: seq<byte>, buf: array<byte>, later: nat) returns (ret: int)
      requires Valid() && buf != splitBuf && 2 <= |frame| <= 512
      modifies this`splitLen, this`splitSeq, this`splitMs, splitBuf, buf
      ensures Valid()
      ensures var (b, o) := Heard(old(View()), frame, later, buf.Length);
        && View() == b && !o.Oversize?
        && (o.Quiet? ==> ret == 0 && buf[..] == old(buf[..]))
        && (o.Delivered? ==>
              ret == |o.payload| <= buf.Length && buf[..ret] == o.payload && buf[ret..] == old(buf[ret..]))
    {
      var hdr, payload := frame[0], frame[1..];
      var seq_ := Nibble(hdr);
      if IsSplit(hdr) {
        if splitSeq == 0xFF {
          Buffer(payload, seq_, later);
          return 0;
        } else if seq_ == splitSeq {
          ret := Join(payload, buf);
          return;
        } else {
          Buffer(payload, seq_, later);
          return 0;
        }
      }
      if |payload| > buf.Length {
        payload := payload[..buf.Length];
      }
      Copy(buf, 0, payload);
      assert buf[..|payload|] == payload;
      return |payload|;
    }

    method Join(payload: seq<byte>, buf: array<byte>) returns (ret: int)
      requires Valid() && buf != splitBuf && splitSeq != 0xFF
      modifies this`splitLen, this`splitSeq, buf
      ensures Valid() && View() == Nothing
      ensures var joined := old(splitBuf[..splitLen]) + payload;
        if |joined| > buf.Length || |joined| > MAX_PAYLOAD then ret == 0 && buf[..] == old(buf[..])
        else ret == |joined| && buf[..ret] == joined && buf[ret..] == old(buf[ret..])
    {
      var total := splitLen + |payload|;
      if total > buf.Length || total > 508 {
        Discard();
        return 0;
      }
      Copy(buf, 0, splitBuf[..splitLen]);
      Copy(buf, splitLen, payload);
      assert buf[..total] == splitBuf[..splitLen] + payload;
      Discard();
      return total;
    }

    /** Sends a packet; `random` is the random byte drawn, the flags say which
        frames the chip sent without an error. */
    method Transmit(packet: seq<byte>, random: byte, firstOk: bool, secondOk: bool) returns (ret: int)
      modifies this`air, this`rxFlag
      ensures !online || !txEnabled || |packet| > 508
        ==> ret == -1 && air == old(air) && rxFlag == old(rxFlag)
      ensures online && txEnabled && |packet| <= 508 ==>
        && air == old(air) + Emitted(packet, Nibble(random), firstOk) && !rxFlag
        && ret == if firstOk && (NeedsSplit(packet) ==> secondOk) then |packet| else -1
    {
      if !online || !txEnabled || |packet| > 508 {
        return -1;
      }
      var header := random / 16 * 16;
      var ok := firstOk;
      if |packet| <= 254 {
        air := air + [[header] + packet];
      } else {
        header := header + 1;
        air := air + [[header] + packet[..254]];
        if ok {
          air := air + [[header] + packet[254..]];
          ok := secondOk;
        }
      }
      rxFlag := false;
      return if ok then |packet| else -1;
    }
  }
}
