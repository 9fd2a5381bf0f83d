/** The serial DFU client: one flash from START to STOP, with the device's
    acknowledgements as given. */
module Dfu {
  import opened Basics
  import opened Bits
  import opened Hci
  import Crc16
  import Slip

  const OP_INIT: nat := 1
  const OP_START: nat := 3
  const OP_DATA: nat := 4
  const OP_STOP: nat := 5
  const MODE_APP: nat := 4
  const MAX_MISSES: nat := 8

  // ---- What is to be sent ------------------------------------------------------

  function StartPayload(appSize: nat): seq<byte> {
    Le(4, OP_START) + Le(4, MODE_APP) + Le(4, 0) + Le(4, 0) + Le(4, appSize)
  }

  function InitPayload(init: seq<byte>): seq<byte> {
    Le(4, OP_INIT) + init + [0, 0]
  }

  function DataPayload(chunk: seq<byte>): seq<byte> {
    Le(4, OP_DATA) + chunk
  }

  function StopPayload(): seq<byte> {
    Le(4, OP_STOP)
  }

  function ChunkCount(n: nat): nat {
    (n + 511) / 512
  }

  lemma MoreChunks(total: nat, k: nat)
    ensures 512 * k < total <==> k < ChunkCount(total)
    ensures 512 * k / 512 == k
  {}

  /** The `k`-th stretch of 512 bytes, the last one shorter. */
  function Chunk(firmware: seq<byte>, k: nat): seq<byte>
    requires k < ChunkCount(|firmware|)
  {
    firmware[512 * k..Least(512 * k + 512, |firmware|)]
  }

  /** The first `k` data payloads. */
  function DataPayloads(firmware: seq<byte>, k: nat): (ps: seq<seq<byte>>)
    requires k <= ChunkCount(|firmware|)
    ensures |ps| == k
  {
    seq(k, j requires 0 <= j < k => DataPayload(Chunk(firmware, j)))
  }

  lemma OneMorePayload(firmware: seq<byte>, k: nat)
    requires k < ChunkCount(|firmware|)
    ensures DataPayloads(firmware, k + 1) == DataPayloads(firmware, k) + [DataPayload(Chunk(firmware, k))]
  {}

  function Opening(firmware: seq<byte>, init: seq<byte>): seq<seq<byte>> {
    [StartPayload(|firmware|), InitPayload(init)]
  }

  /** Everything a completed flash sends. */
  function Session(firmware: seq<byte>, init: seq<byte>): seq<seq<byte>> {
    Opening(firmware, init) + DataPayloads(firmware, ChunkCount(|firmware|)) + [StopPayload()]
  }

  // ---- Acknowledgements --------------------------------------------------------

  type Acks = nat -> bool

  /** How many data packets in a row went unanswered before packet `k`. */
  function MissRun(acks: Acks, k: nat): nat {
    if k == 0 || acks(k - 1) then 0 else MissRun(acks, k - 1) + 1
  }

  function AckCount(acks: Acks, k: nat): nat {
    if k == 0 then 0 else AckCount(acks, k - 1) + (if acks(k - 1) then 1 else 0)
  }

  predicate Alive(acks: Acks, k: nat) {
    MissRun(acks, k) < MAX_MISSES
  }

  /** No run of eight misses among the first `k` packets. */
  predicate KeptAlive(acks: Acks, k: nat) {
    forall j | 0 <= j <= k :: Alive(acks, j)
  }

  /** Eight misses in a row are what they say. */
  lemma {:induction false} MissRunCounts(acks: Acks, k: nat)
    ensures MissRun(acks, k) <= k
    ensures forall j | k - MissRun(acks, k) <= j < k :: !acks(j)
    ensures MissRun(acks, k) < k ==> acks(k - MissRun(acks, k) - 1)
  {
    if k > 0 && !acks(k - 1) {
      MissRunCounts(acks, k - 1);
    }
  }

  /** The transfer survives just when no eight consecutive packets all went
      unanswered. */
  lemma KeptAliveIff(acks: Acks, k: nat)
    ensures KeptAlive(acks, k) <==> !exists i: nat :: i + 8 <= k && EightMisses(acks, i)
  {
    if i: nat :| i + 8 <= k && EightMisses(acks, i) {
      MissRunCounts(acks, i + 8);
      var r := MissRun(acks, i + 8);
      assert r >= 8;
      assert !Alive(acks, i + 8);
    }
    if !KeptAlive(acks, k) {
      var j :| 0 <= j <= k && !Alive(acks, j);
      MissRunCounts(acks, j);
      assert EightMisses(acks, j - 8);
    }
  }

  lemma DeadLink(acks: Acks, k: nat, n: nat)
    requires k <= n && MissRun(acks, k) >= MAX_MISSES
    ensures !KeptAlive(acks, n)
  {
    assert !Alive(acks, k);
  }

  /** The counters stand for the acknowledgements of the first `k` packets. */
  predicate Counted(acks: Acks, k: nat, missRun: nat, ackOk: nat) {
    missRun == MissRun(acks, k) && ackOk == AckCount(acks, k) && KeptAlive(acks, k)
  }

  lemma CountOne(acks: Acks, k: nat)
    ensures MissRun(acks, k + 1) == if acks(k) then 0 else MissRun(acks, k) + 1
    ensures AckCount(acks, k + 1) == if acks(k) then AckCount(acks, k) + 1 else AckCount(acks, k)
  {}

  lemma StaysAlive(acks: Acks, k: nat)
    requires KeptAlive(acks, k) && Alive(acks, k + 1)
    ensures KeptAlive(acks, k + 1)
  {}

  predicate EightMisses(acks: Acks, i: nat) {
    forall j | i <= j < i + 8 :: !acks(j)
  }

  /** One of the first `k` packets was acknowledged. */
  predicate SomeAck(acks: Acks, k: nat) {
    exists j :: 0 <= j < k && acks(j)
  }

  /** Counting tells whether there was any. */
  lemma {:induction false} AckCountIsZeroIff(acks: Acks, k: nat)
    ensures AckCount(acks, k) == 0 <==> !SomeAck(acks, k)
  {
    if k > 0 {
      AckCountIsZeroIff(acks, k - 1);
    }
  }

  // ---- The transport ----------------------------------------------------------------

  datatype Result = Done | Failed

  class DfuTransport {
    var sequence: nat
    var wire: seq<byte>             // everything written to the port
    ghost var sent: seq<seq<byte>>  // the payloads in it

    constructor ()
      ensures Valid() && sent == []
    {
      sequence, wire, sent := 0, [], [];
    }

    ghost predicate Valid()
      reads this
    {
      sequence == |sent| % 8 && wire == Stream(sent, 1)
    }

    /** Advances the sequence number, then builds the frame. */
    method Build(payload: seq<byte>) returns (frame: seq<byte>)
      modifies this`sequence
      ensures sequence == (old(sequence) + 1) % 8 && frame == Frame(sequence, payload)
    {
      sequence := (sequence + 1) % 8;
      var pre := BuildPreamble(sequence, |payload|);
      var body := AppendCrc(pre + payload);
      var escaped := Slip.Escape(body);
      frame := [0xC0] + escaped + [0xC0];
    }

    static method BuildPreamble(seq_: nat, len: nat) returns (pre: seq<byte>)
      requires seq_ < 8
      ensures pre == Preamble(seq_, len)
    {
      var nextSeq := (seq_ + 1) % 8;
      var pre0 := seq_ + 8 * nextSeq + 64 + 128;
      var pre1 := 14 + 16 * (len % 16);
      var pre2 := len / 16 % 256;
      var pre3 := (0 - (pre0 + pre1 + pre2)) % 256;
      pre := [pre0, pre1, pre2, pre3];
      forall i | 0 <= i < 4 ensures pre[i] == PreambleByte(seq_, len, i) {
        assert i == 0 || i == 1 || i == 2 || i == 3;
      }
    }

    static method AppendCrc(body: seq<byte>) returns (r: seq<byte>)
      ensures r == body + CrcField(body)
    {
      var c := Crc16.Compute(body);
      r := body + [LowByte(c), LowByte(c >> 8)];
      assert [LowByte(c), LowByte(c >> 8)] == CrcField(body);
    }

    method SendHciPacket(payload: seq<byte>)
      requires Valid()
      modifies this
      ensures Valid() && sent == old(sent) + [payload]
    {
      NextNumber(|sent|);
      var frame := Build(payload);
      StreamSnoc(sent, payload, 1, frame);
      wire := wire + frame;
      sent := sent + [payload];
    }

    static lemma NextNumber(n: nat)
      ensures (n % 8 + 1) % 8 == (n + 1) % 8
    {}

    method SendStartDfu(appSize: nat, ack: bool) returns (r: Result)
      requires Valid()
      modifies this
      ensures Valid() && sent == old(sent) + [StartPayload(appSize)] && (r == Done <==> ack)
    {
      SendHciPacket(Le(4, OP_START) + Le(4, MODE_APP) + Le(4, 0) + Le(4, 0) + Le(4, appSize));
      r := if ack then Done else Failed;
    }

    method SendInitPacket(init: seq<byte>, ack: bool) returns (r: Result)
      requires Valid()
      modifies this
      ensures Valid() && sent == old(sent) + [InitPayload(init)] && (r == Done <==> ack)
    {
      SendHciPacket(Le(4, OP_INIT) + init + [0, 0]);
      r := if ack then Done else Failed;
    }

    /** One data packet: 512 bytes from `i` on, or what is left. */
    method SendChunk(firmware: seq<byte>, i: nat, ghost k: nat, ghost base: seq<seq<byte>>)
      requires Valid() && k < ChunkCount(|firmware|) && i == 512 * k && sent == base + DataPayloads(firmware, k)
      modifies this
      ensures Valid() && sent == base + DataPayloads(firmware, k + 1)
    {
      var chunk := firmware[i..Least(i + 512, |firmware|)];
      SendHciPacket(Le(4, OP_DATA) + chunk);
      OneMorePayload(firmware, k);
      Associates(base, DataPayloads(firmware, k), [DataPayload(chunk)]);
    }

    /** Counts packet `k`'s acknowledgement, or its absence. */
    static method Tally(acks: Acks, k: nat, missRun: nat, ackOk: nat, ghost n: nat) returns (misses: nat, oks: nat)
      requires Counted(acks, k, missRun, ackOk) && k < n
      ensures misses < 8 ==> Counted(acks, k + 1, misses, oks)
      ensures misses >= 8 ==> !KeptAlive(acks, n)
    {
      CountOne(acks, k);
      if acks(k) {
        misses, oks := 0, ackOk + 1;
      } else {
        misses, oks := missRun + 1, ackOk;
      }
      if misses >= 8 {
        DeadLink(acks, k + 1, n);
      } else {
        StaysAlive(acks, k);
      }
    }

    /** Streams the firmware; gives up on the eighth miss in a row, and fails at
        the end if nothing was ever acknowledged. `k` packets are sent. */
    method SendFirmware(firmware: seq<byte>, acks: Acks) returns (r: Result, ghost k: nat)
      requires Valid()
      modifies this
      ensures Valid() && k <= ChunkCount(|firmware|) && sent == old(sent) + DataPayloads(firmware, k)
      ensures var n := ChunkCount(|firmware|);
        (r == Done <==> KeptAlive(acks, n) && SomeAck(acks, n)) && (KeptAlive(acks, n) ==> k == n)
    {
      var total := |firmware|;
      var ackOk: nat, missRun: nat := 0, 0;
      var i := 0;
      k := 0;
      ghost var n, base := ChunkCount(total), sent;
      assert sent == base + DataPayloads(firmware, 0);
      while i < total
        invariant Valid() && k <= n && i == 512 * k
        invariant sent == base + DataPayloads(firmware, k)
        invariant Counted(acks, k, missRun, ackOk)
        decreases n - k
      {
        MoreChunks(total, k);
        SendChunk(firmware, i, k, base);
        missRun, ackOk := Tally(acks, i / 512, missRun, ackOk, n);
        k := k + 1;
        i := i + 512;
        if missRun >= 8 {
          r := Failed;
          return;
        }
      }
      MoreChunks(total, k);
      AckCountIsZeroIff(acks, k);
      r := if ackOk == 0 then Failed else Done;
    }

    /** STOP's acknowledgement is not waited for in earnest. */
    method SendStopDataPacket()
      requires Valid()
      modifies this
      ensures Valid() && sent == old(sent) + [StopPayload()]
    {
      SendHciPacket(Le(4, OP_STOP));
    }
  }

  /** The session up to and including data packet `k`. */
  function SentUpTo(firmware: seq<byte>, init: seq<byte>, k: nat): seq<seq<byte>>
    requires k <= ChunkCount(|firmware|)
  {
    Opening(firmware, init) + DataPayloads(firmware, k)
  }

  /** A whole flash. It completes just when START and INIT are acknowledged, at
      least one data packet is, and no eight in a row are missed; then the wire
      holds the session, and never anything but a beginning of it. */
  method Flash(firmware: seq<byte>, init: seq<byte>, startAck: bool, initAck: bool, acks: Acks)
    returns (r: Result, wire: seq<byte>)
    ensures r == Done <==>
      && startAck && initAck
      && KeptAlive(acks, ChunkCount(|firmware|)) && SomeAck(acks, ChunkCount(|firmware|))
    ensures r == Done ==> wire == Stream(Session(firmware, init), 1)
    ensures r == Failed ==>
      || wire == Stream([StartPayload(|firmware|)], 1)
      || exists k: nat :: k <= ChunkCount(|firmware|) && wire == Stream(SentUpTo(firmware, init, k), 1)
  {
    var transport := new DfuTransport();
    r := transport.SendStartDfu(|firmware|, startAck);
    wire := transport.wire;
    assert transport.sent == [StartPayload(|firmware|)];
    if r == Failed {
      return;
    }
    r := transport.SendInitPacket(init, initAck);
    wire := transport.wire;
    assert transport.sent == SentUpTo(firmware, init, 0);
    if r == Failed {
      return;
    }
    ghost var k;
    r, k := transport.SendFirmware(firmware, acks);
    wire := transport.wire;
    assert transport.sent == SentUpTo(firmware, init, k);
    if r == Failed {
      return;
    }
    transport.SendStopDataPacket();
    wire := transport.wire;
    assert transport.sent == Session(firmware, init);
  }

  // ---- What the device can read from it --------------------------------------------------

  /** The chunks put back together. */
  function Joined(chunks: seq<seq<byte>>): seq<byte> {
    if chunks == [] then [] else Joined(chunks[..|chunks| - 1]) + chunks[|chunks| - 1]
  }

  /** The first `k` chunks. */
  function Chunks(firmware: seq<byte>, k: nat): (cs: seq<seq<byte>>)
    requires k <= ChunkCount(|firmware|)
    ensures |cs| == k
  {
    seq(k, j requires 0 <= j < k => Chunk(firmware, j))
  }

  /** The chunks make up the firmware; each holds 512 bytes but the last, which
      has at least one. */
  lemma {:induction false} ChunksMakeFirmware(firmware: seq<byte>, k: nat)
    requires k <= ChunkCount(|firmware|)
    ensures Joined(Chunks(firmware, k)) == firmware[..Least(512 * k, |firmware|)]
  {
    if k > 0 {
      ChunksMakeFirmware(firmware, k - 1);
      var cs := Chunks(firmware, k);
      assert cs[..k - 1] == Chunks(firmware, k - 1);
      Slices(firmware, 512 * (k - 1), Least(512 * k, |firmware|));
    }
  }

  lemma Slices<T>(s: seq<T>, a: nat, b: nat)
    requires a <= b <= |s|
    ensures s[..b] == s[..a] + s[a..b]
  {}

  lemma ChunkSizes(firmware: seq<byte>, k: nat)
    requires k < ChunkCount(|firmware|)
    ensures 1 <= |Chunk(firmware, k)| <= 512 && (k + 1 < ChunkCount(|firmware|) ==> |Chunk(firmware, k)| == 512)
  {}

  lemma SessionAt(firmware: seq<byte>, init: seq<byte>, k: nat)
    requires k < |Session(firmware, init)|
    ensures var n := ChunkCount(|firmware|);
      && |Session(firmware, init)| == n + 3
      && Session(firmware, init)[k]
         == if k == 0 then StartPayload(|firmware|) else if k == 1 then InitPayload(init)
            else if k < n + 2 then DataPayload(Chunk(firmware, k - 2)) else StopPayload()
  {}

  lemma SessionIsShort(firmware: seq<byte>, init: seq<byte>)
    ensures AllShort(Session(firmware, init)) <==> |init| + 6 < 4096
  {
    var session := Session(firmware, init);
    forall k | 0 <= k < |session| ensures k != 1 ==> |session[k]| < 4096 {
      SessionAt(firmware, init, k);
      if 2 <= k < |session| - 1 {
        ChunkSizes(firmware, k - 2);
      }
    }
    SessionAt(firmware, init, 1);
    assert |session[1]| == |init| + 6;
  }

  /** The bytes of a completed flash decode to START with the firmware's size,
      INIT with the init packet, ceil(n / 512) data packets whose bodies make up
      the firmware, and STOP, numbered 1, 2, 3, ... modulo eight; if and only if
      the init packet fits the length field. */
  lemma FlashDecodes(firmware: seq<byte>, init: seq<byte>)
    ensures var packets := Decode(Stream(Session(firmware, init), 1));
      && (packets.Some? <==> |init| + 6 < 4096)
      && (packets.Some? ==> packets.value == Numbered(Session(firmware, init), 1))
    ensures Joined(Chunks(firmware, ChunkCount(|firmware|))) == firmware
  {
    SessionIsShort(firmware, init);
    StreamDecodes(Session(firmware, init), 1);
    ChunksMakeFirmware(firmware, ChunkCount(|firmware|));
    assert firmware[..|firmware|] == firmware;
  }

  /** A 32-bit number, lowest byte first. */
  function LowFirst(n: nat): seq<byte> {
    [n % 256, n / 256 % 256, n / 65536 % 256, n / 16777216 % 256]
  }

  lemma Le4(n: nat)
    ensures Le(4, n) == LowFirst(n)
  {
    ByteOrder(n);
  }

  /** START names an application-only update, no soft device and no bootloader,
      and the application's size; INIT ends in two zeros. */
  lemma PayloadBytes(appSize: nat, init: seq<byte>, chunk: seq<byte>)
    ensures StartPayload(appSize) == [3, 0, 0, 0] + [4, 0, 0, 0] + [0, 0, 0, 0] + [0, 0, 0, 0] + LowFirst(appSize)
    ensures InitPayload(init) == [1, 0, 0, 0] + init + [0, 0]
    ensures DataPayload(chunk) == [4, 0, 0, 0] + chunk
    ensures StopPayload() == [5, 0, 0, 0]
  {
    Le4(0);
    Le4(1);
    Le4(3);
    Le4(4);
    Le4(5);
    Le4(appSize);
  }

  /** ... packet by packet: START, INIT, the firmware in stretches of 512 bytes,
      the last one shorter, and STOP, numbered from one modulo eight. */
  lemma FlashPacket(firmware: seq<byte>, init: seq<byte>, k: nat)
    requires k < ChunkCount(|firmware|) + 3
    ensures Numbered(Session(firmware, init), 1)[k].seq_ == (k + 1) % 8
    ensures var n, payload := ChunkCount(|firmware|), Numbered(Session(firmware, init), 1)[k].payload;
      && 512 * n < |firmware| + 512 && |firmware| <= 512 * n
      && (k == 0 ==>
            payload == [3, 0, 0, 0] + [4, 0, 0, 0] + [0, 0, 0, 0] + [0, 0, 0, 0] + LowFirst(|firmware|))
      && (k == 1 ==> payload == [1, 0, 0, 0] + init + [0, 0])
      && (1 < k < n + 2 ==>
            payload == [4, 0, 0, 0] + firmware[512 * (k - 2)..Least(512 * (k - 1), |firmware|)])
      && (k == n + 2 ==> payload == [5, 0, 0, 0])
  {
    NumberedAt(Session(firmware, init), 1, k);
    SessionAt(firmware, init, k);
    PayloadBytes(|firmware|, init, if 1 < k < ChunkCount(|firmware|) + 2 then Chunk(firmware, k - 2) else []);
  }

  /** Different images or init packets never make the same bytes. */
  lemma FlashIsUnique(f: seq<byte>, i: seq<byte>, g: seq<byte>, j: seq<byte>)
    requires |i| + 6 < 4096 && |j| + 6 < 4096
    requires Stream(Session(f, i), 1) == Stream(Session(g, j), 1)
    ensures f == g && i == j
  {
    SessionIsShort(f, i);
    SessionIsShort(g, j);
    StreamIsUnique(Session(f, i), Session(g, j), 1);
    SameInit(f, i, g, j);
    SameFirmware(f, i, g, j);
  }

  lemma SameInit(f: seq<byte>, i: seq<byte>, g: seq<byte>, j: seq<byte>)
    requires Session(f, i) == Session(g, j)
    ensures i == j
  {
    SessionAt(f, i, 1);
    SessionAt(g, j, 1);
    var a, b := InitPayload(i), InitPayload(j);
    assert a == b && a[4..|a| - 2] == i && b[4..|b| - 2] == j;
  }

  lemma SameFirmware(f: seq<byte>, i: seq<byte>, g: seq<byte>, j: seq<byte>)
    requires Session(f, i) == Session(g, j)
    ensures f == g
  {
    SessionAt(f, i, 0);
    SessionAt(g, j, 0);
    var n := ChunkCount(|f|);
    forall k | 0 <= k < n ensures Chunks(f, n)[k] == Chunks(g, n)[k] {
      SessionAt(f, i, k + 2);
      SessionAt(g, j, k + 2);
      SamePayload(Chunk(f, k), Chunk(g, k));
    }
    assert Chunks(f, n) == Chunks(g, n);
    ChunksMakeFirmware(f, n);
    ChunksMakeFirmware(g, n);
    assert f[..|f|] == f && g[..|g|] == g;
  }

  lemma SamePayload(a: seq<byte>, b: seq<byte>)
    requires DataPayload(a) == DataPayload(b)
    ensures a == b
  {
    assert DataPayload(a)[4..] == a && DataPayload(b)[4..] == b;
  }
}
