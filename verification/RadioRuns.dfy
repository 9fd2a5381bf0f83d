/** Whole runs of the receiver over a channel that loses and corrupts frames but
    neither repeats nor reorders the two halves of a packet. */
module RadioRuns {
  import opened Basics
  import opened Bits
  import opened Radio

  /** A packet some station transmitted, and the sequence nibble it drew. */
  datatype Sending = Sending(body: seq<byte>, nibble: nat)

  predicate IsSending(s: Sending) {
    1 <= |s.body| <= 508 && s.nibble < 16
  }

  type Sendings = ss: seq<Sending> | forall k | 0 <= k < |ss| :: IsSending(ss[k])

  /** Which frame of which packet. */
  datatype Origin = Origin(packet: nat, second: bool)

  /** One poll of the receiver, and where the frame it found came from. */
  datatype Hearing = Hearing(chip: Chip, origin: Option<Origin>, now: nat, later: nat)

  predicate Exists(sends: Sendings, o: Origin) {
    o.packet < |sends| && (o.second ==> NeedsSplit(sends[o.packet].body))
  }

  predicate OfSplit(sends: Sendings, o: Origin)
    requires Exists(sends, o)
  {
    NeedsSplit(sends[o.packet].body)
  }

  function PartOf(sends: Sendings, o: Origin): seq<byte>
    requires Exists(sends, o)
  {
    var body := sends[o.packet].body;
    if o.second then SecondPart(body) else FirstPart(body)
  }

  function FrameOf(sends: Sendings, o: Origin): seq<byte>
    requires Exists(sends, o)
  {
    var s := sends[o.packet];
    if o.second then SecondFrame(s.body, s.nibble) else FirstFrame(s.body, s.nibble)
  }

  /** A frame long enough and received without an error. */
  predicate Good(chip: Chip) {
    chip.Packet? && chip.ok && 2 <= |chip.bytes| <= 512
  }

  /** A good frame is one that was sent. */
  predicate Honest(sends: Sendings, h: Hearing) {
    match h.origin
    case None => !Good(h.chip)
    case Some(o) => Exists(sends, o) && h.chip == Packet(FrameOf(sends, o), true)
  }

  ghost predicate Channel(sends: Sendings, polls: seq<Hearing>) {
    && (forall k | 0 <= k < |polls| :: Honest(sends, polls[k]))
    && (forall i, j | 0 <= i < j < |polls| && polls[i].origin.Some? && polls[j].origin.Some? ::
          && polls[i].origin != polls[j].origin
          && (polls[i].origin.value.packet == polls[j].origin.value.packet ==> !polls[i].origin.value.second))
  }

  /** Poll `k` heard half of a split packet. */
  predicate HeardHalf(sends: Sendings, polls: seq<Hearing>, k: nat)
    requires k < |polls| && Honest(sends, polls[k])
  {
    polls[k].origin.Some? && OfSplit(sends, polls[k].origin.value)
  }

  function NibbleAt(sends: Sendings, polls: seq<Hearing>, k: nat): nat
    requires k < |polls| && Honest(sends, polls[k]) && polls[k].origin.Some?
  {
    sends[polls[k].origin.value.packet].nibble
  }

  /** The hypothesis the protocol rests on: halves of different packets heard
      within one deadline carry different nibbles. */
  ghost predicate NibblesTellApart(sends: Sendings, polls: seq<Hearing>, timeout: nat)
    requires Channel(sends, polls)
  {
    forall i, j | 0 <= i < j < |polls| && HeardHalf(sends, polls, i) && HeardHalf(sends, polls, j) ::
      polls[i].origin.value.packet == polls[j].origin.value.packet
      || Age(polls[j].now, polls[i].later) > timeout
      || NibbleAt(sends, polls, i) != NibbleAt(sends, polls, j)
  }

  function After(polls: seq<Hearing>, timeout: nat, room: nat): Buffered {
    if polls == [] then Nothing
    else
      var h := polls[|polls| - 1];
      Poll(After(polls[..|polls| - 1], timeout, room), h.chip, h.now, h.later, timeout, room).0
  }

  function OutcomeAt(polls: seq<Hearing>, k: nat, timeout: nat, room: nat): Outcome
    requires k < |polls|
  {
    var h := polls[k];
    Poll(After(polls[..k], timeout, room), h.chip, h.now, h.later, timeout, room).1
  }

  // ---- One poll ------------------------------------------------------------------

  lemma HeaderReads(nibble: nat, split: bool)
    requires nibble < 16
    ensures Nibble(Header(nibble, split)) == nibble && IsSplit(Header(nibble, split)) == split
  {}

  /** What a frame does to the receiver, in terms of the packet it came from. */
  lemma FrameHeard(sends: Sendings, o: Origin, b: Buffered, later: nat, room: nat)
    requires Exists(sends, o) && room >= MAX_PAYLOAD
    ensures Good(Packet(FrameOf(sends, o), true))
    ensures var (b', out) := Heard(b, FrameOf(sends, o), later, room);
      var s, part := sends[o.packet], PartOf(sends, o);
      if !OfSplit(sends, o) then b' == b && out == Delivered(s.body)
      else if b.Nothing? || b.nibble != s.nibble then b' == Half(part, s.nibble, later) && out == Quiet
      else if |b.part| + |part| > MAX_PAYLOAD then b' == Nothing && out == Quiet
      else b' == Nothing && out == Delivered(b.part + part)
  {
    HeaderReads(sends[o.packet].nibble, NeedsSplit(sends[o.packet].body));
    assert FrameOf(sends, o)[1..] == PartOf(sends, o);
  }

  /** `b` is the half heard at poll `i`. */
  ghost predicate FromPoll(sends: Sendings, polls: seq<Hearing>, b: Buffered, i: nat)
    requires Channel(sends, polls)
  {
    && i < |polls| && HeardHalf(sends, polls, i)
    && b == Half(PartOf(sends, polls[i].origin.value), NibbleAt(sends, polls, i), polls[i].later)
  }

  lemma ChannelPrefix(sends: Sendings, polls: seq<Hearing>, k: nat)
    requires Channel(sends, polls) && k <= |polls|
    ensures Channel(sends, polls[..k])
  {}

  /** Whatever is buffered is a half that was heard. */
  lemma {:induction false} BufferedWasHeard(sends: Sendings, polls: seq<Hearing>, timeout: nat, room: nat)
    returns (i: nat)
    requires Channel(sends, polls) && room >= MAX_PAYLOAD
    ensures After(polls, timeout, room).Half? ==> FromPoll(sends, polls, After(polls, timeout, room), i)
  {
    i := 0;
    if polls != [] {
      var n := |polls| - 1;
      var before, h := polls[..n], polls[n];
      ChannelPrefix(sends, polls, n);
      i := BufferedWasHeard(sends, before, timeout, room);
      var b := After(before, timeout, room);
      assert b.Half? ==> FromPoll(sends, polls, b, i);
      if h.origin.Some? {
        FrameHeard(sends, h.origin.value, Expired(b, h.now, timeout), h.later, room);
        if After(polls, timeout, room) != b {
          i := n;
        }
      }
    }
  }

  lemma HalvesJoin(sends: Sendings, first: Origin, second: Origin)
    requires Exists(sends, first) && Exists(sends, second) && OfSplit(sends, first)
    requires first.packet == second.packet && !first.second && second.second
    ensures PartOf(sends, first) + PartOf(sends, second) == sends[first.packet].body
  {}

  // ---- Integrity -------------------------------------------------------------------

  /** Whatever the receiver delivers is a packet that was sent, whole, and is
      delivered on hearing that packet's last frame. */
  lemma Integrity(sends: Sendings, polls: seq<Hearing>, timeout: nat, room: nat, k: nat)
    requires Channel(sends, polls) && NibblesTellApart(sends, polls, timeout) && room >= MAX_PAYLOAD
    requires k < |polls| && OutcomeAt(polls, k, timeout, room).Delivered?
    ensures polls[k].origin.Some?
    ensures var o := polls[k].origin.value;
      Exists(sends, o) && o.second == OfSplit(sends, o)
      && OutcomeAt(polls, k, timeout, room) == Delivered(sends[o.packet].body)
  {
    var h := polls[k];
    var before := polls[..k];
    ChannelPrefix(sends, polls, k);
    var i := BufferedWasHeard(sends, before, timeout, room);
    var b := Expired(After(before, timeout, room), h.now, timeout);
    assert Honest(sends, h);
    var o := h.origin.value;
    FrameHeard(sends, o, b, h.later, room);
    if OfSplit(sends, o) {
      assert FromPoll(sends, before, b, i);
      assert before[i] == polls[i] && HeardHalf(sends, polls, i) && HeardHalf(sends, polls, k);
      assert polls[i].origin.value.packet == o.packet;
      HalvesJoin(sends, polls[i].origin.value, o);
    }
  }

  /** No packet is delivered twice. */
  lemma DeliveredOnce(sends: Sendings, polls: seq<Hearing>, timeout: nat, room: nat, k: nat, l: nat)
    requires Channel(sends, polls) && NibblesTellApart(sends, polls, timeout) && room >= MAX_PAYLOAD
    requires k < l < |polls|
    requires OutcomeAt(polls, k, timeout, room).Delivered? && OutcomeAt(polls, l, timeout, room).Delivered?
    ensures polls[k].origin.Some? && polls[l].origin.Some?
    ensures polls[k].origin.value.packet != polls[l].origin.value.packet
  {
    Integrity(sends, polls, timeout, room, k);
    Integrity(sends, polls, timeout, room, l);
  }

  // ---- Delivery ------------------------------------------------------------------------

  /** A packet in one frame is delivered whenever that frame is heard. */
  lemma SingleIsDelivered(sends: Sendings, polls: seq<Hearing>, timeout: nat, room: nat, k: nat)
    requires Channel(sends, polls) && room >= MAX_PAYLOAD && k < |polls|
    requires polls[k].origin.Some?
    requires Honest(sends, polls[k]) && !OfSplit(sends, polls[k].origin.value)
    ensures OutcomeAt(polls, k, timeout, room) == Delivered(sends[polls[k].origin.value.packet].body)
  {
    var h := polls[k];
    FrameHeard(sends, h.origin.value, Expired(After(polls[..k], timeout, room), h.now, timeout), h.later, room);
  }

  /** A first half is always buffered, whatever the buffer held. */
  lemma FirstHalfBuffered(sends: Sendings, polls: seq<Hearing>, timeout: nat, room: nat, i: nat, p: nat)
    requires Channel(sends, polls) && NibblesTellApart(sends, polls, timeout) && room >= MAX_PAYLOAD
    requires i < |polls| && polls[i].origin == Some(Origin(p, false))
    requires Honest(sends, polls[i]) && OfSplit(sends, Origin(p, false))
    ensures After(polls[..i + 1], timeout, room) == Half(FirstPart(sends[p].body), sends[p].nibble, polls[i].later)
  {
    var before, h := polls[..i], polls[i];
    ChannelPrefix(sends, polls, i);
    var m := BufferedWasHeard(sends, before, timeout, room);
    var b := Expired(After(before, timeout, room), h.now, timeout);
    if b.Half? {
      assert FromPoll(sends, before, b, m);
      assert before[m] == polls[m] && HeardHalf(sends, polls, m) && HeardHalf(sends, polls, i);
    }
    FrameHeard(sends, Origin(p, false), b, h.later, room);
    assert polls[..i + 1][..i] == before;
  }

  lemma AfterStep(polls: seq<Hearing>, timeout: nat, room: nat, j: nat, b: Buffered, h: Hearing)
    requires j < |polls| && b == After(polls[..j], timeout, room) && h == polls[j]
    ensures After(polls[..j + 1], timeout, room) == Poll(b, h.chip, h.now, h.later, timeout, room).0
  {
    assert polls[..j + 1][..j] == polls[..j];
  }

  /** Silence, noise and single frames leave a half that is in time alone. */
  lemma PollKeepsHalf(sends: Sendings, h: Hearing, b: Buffered, timeout: nat, room: nat)
    requires Honest(sends, h) && room >= MAX_PAYLOAD && b.Half? && Age(h.now, b.since) <= timeout
    requires h.origin.Some? ==> !OfSplit(sends, h.origin.value)
    ensures Poll(b, h.chip, h.now, h.later, timeout, room).0 == b
  {
    if h.origin.Some? {
      FrameHeard(sends, h.origin.value, b, h.later, room);
    }
  }

  /** Nothing but another half or the deadline takes a buffered half away. */
  lemma {:induction false} HalfIsKept(sends: Sendings, polls: seq<Hearing>, timeout: nat, room: nat, i: nat, j: nat,
                                      b: Buffered)
    requires Channel(sends, polls) && room >= MAX_PAYLOAD && i < j <= |polls|
    requires b.Half? && After(polls[..i + 1], timeout, room) == b
    requires forall k | i < k < j :: Age(polls[k].now, b.since) <= timeout
    requires forall k | i < k < j :: !HeardHalf(sends, polls, k)
    ensures After(polls[..j], timeout, room) == b
    decreases j
  {
    if j > i + 1 {
      HalfIsKept(sends, polls, timeout, room, i, j - 1, b);
      assert Honest(sends, polls[j - 1]) && !HeardHalf(sends, polls, j - 1);
      PollKeepsHalf(sends, polls[j - 1], b, timeout, room);
      AfterStep(polls, timeout, room, j - 1, b, polls[j - 1]);
    }
  }

  /** A split packet both of whose halves are heard is delivered, if no poll up
      to the second one finds the deadline passed and no other packet's half is
      heard in between. */
  lemma SplitIsDelivered(sends: Sendings, polls: seq<Hearing>, timeout: nat, room: nat, i: nat, j: nat, p: nat)
    requires Channel(sends, polls) && NibblesTellApart(sends, polls, timeout) && room >= MAX_PAYLOAD
    requires i < j < |polls|
    requires polls[i].origin == Some(Origin(p, false)) && polls[j].origin == Some(Origin(p, true))
    requires forall k | i < k <= j :: Age(polls[k].now, polls[i].later) <= timeout
    requires forall k | i < k < j :: !HeardHalf(sends, polls, k)
    ensures p < |sends| && OutcomeAt(polls, j, timeout, room) == Delivered(sends[p].body)
  {
    assert Honest(sends, polls[i]) && Honest(sends, polls[j]);
    FirstHalfBuffered(sends, polls, timeout, room, i, p);
    var b := Half(FirstPart(sends[p].body), sends[p].nibble, polls[i].later);
    HalfIsKept(sends, polls, timeout, room, i, j, b);
    FrameHeard(sends, Origin(p, true), b, polls[j].later, room);
    HalvesJoin(sends, Origin(p, false), Origin(p, true));
  }

  // ---- Exactly when whole packets are all that comes out ------------------------------

  /** What poll `h` delivered, if anything, is a whole packet, on hearing the
      last frame of that packet. */
  predicate WholeAt(sends: Sendings, h: Hearing, out: Outcome) {
    out.Delivered? ==>
      && h.origin.Some? && Exists(sends, h.origin.value)
      && h.origin.value.second == OfSplit(sends, h.origin.value)
      && out == Delivered(sends[h.origin.value.packet].body)
  }

  /** However the channel loses and delays frames. */
  ghost predicate OnlyWhole(sends: Sendings, timeout: nat, room: nat) {
    forall polls: seq<Hearing>, k: nat | Channel(sends, polls) && k < |polls| ::
      WholeAt(sends, polls[k], OutcomeAt(polls, k, timeout, room))
  }

  /** No two split packets drew one nibble. */
  predicate NibblesDistinct(sends: Sendings) {
    forall i, j | 0 <= i < j < |sends| && NeedsSplit(sends[i].body) && NeedsSplit(sends[j].body) ::
      sends[i].nibble != sends[j].nibble
  }

  lemma DistinctTellApart(sends: Sendings, polls: seq<Hearing>, timeout: nat)
    requires Channel(sends, polls) && NibblesDistinct(sends)
    ensures NibblesTellApart(sends, polls, timeout)
  {}

  /** A first half heard with nothing buffered. */
  lemma FirstPollBuffers(sends: Sendings, i: nat, h: Hearing, timeout: nat, room: nat)
    requires i < |sends| && NeedsSplit(sends[i].body) && room >= MAX_PAYLOAD
    requires h == Hearing(Packet(FrameOf(sends, Origin(i, false)), true), Some(Origin(i, false)), 0, 0)
    ensures After([h], timeout, room) == Half(FirstPart(sends[i].body), sends[i].nibble, 0)
  {
    FrameHeard(sends, Origin(i, false), Nothing, 0, room);
    assert [h][..0] == [];
    assert After([], timeout, room) == Nothing;
  }

  /** Two split packets of one nibble: their first halves, heard within the
      deadline, are joined and delivered on a frame that is nobody's last. If
      every packet is shorter than the two halves, nobody sent those bytes. */
  lemma CollidingNibblesJoin(sends: Sendings, i: nat, j: nat, timeout: nat, room: nat) returns (polls: seq<Hearing>)
    requires i < |sends| && j < |sends| && i != j && room >= MAX_PAYLOAD
    requires NeedsSplit(sends[i].body) && NeedsSplit(sends[j].body) && sends[i].nibble == sends[j].nibble
    ensures Channel(sends, polls) && |polls| == 2
    ensures var joined := FirstPart(sends[i].body) + FirstPart(sends[j].body);
      && OutcomeAt(polls, 1, timeout, room) == Delivered(joined)
      && !WholeAt(sends, polls[1], Delivered(joined))
      && ((forall k | 0 <= k < |sends| :: |sends[k].body| < MAX_PAYLOAD)
          ==> forall k | 0 <= k < |sends| :: sends[k].body != joined)
  {
    var o, q := Origin(i, false), Origin(j, false);
    var first := Hearing(Packet(FrameOf(sends, o), true), Some(o), 0, 0);
    var second := Hearing(Packet(FrameOf(sends, q), true), Some(q), 0, 0);
    polls := [first, second];
    FirstPollBuffers(sends, i, first, timeout, room);
    FrameHeard(sends, q, Half(FirstPart(sends[i].body), sends[i].nibble, 0), 0, room);
    assert polls[..1] == [first];
  }

  /** The receiver delivers nothing but whole packets, on their last frames,
      through every channel, if and only if no two split packets drew one
      nibble. */
  lemma OnlyWholeIff(sends: Sendings, timeout: nat, room: nat)
    requires room >= MAX_PAYLOAD
    ensures OnlyWhole(sends, timeout, room) <==> NibblesDistinct(sends)
  {
    if NibblesDistinct(sends) {
      forall polls: seq<Hearing>, k: nat | Channel(sends, polls) && k < |polls|
        ensures WholeAt(sends, polls[k], OutcomeAt(polls, k, timeout, room))
      {
        DistinctTellApart(sends, polls, timeout);
        if OutcomeAt(polls, k, timeout, room).Delivered? {
          Integrity(sends, polls, timeout, room, k);
        }
      }
    } else {
      var i, j :| 0 <= i < j < |sends| && NeedsSplit(sends[i].body) && NeedsSplit(sends[j].body)
                  && sends[i].nibble == sends[j].nibble;
      var polls := CollidingNibblesJoin(sends, i, j, timeout, room);
      assert !WholeAt(sends, polls[1], OutcomeAt(polls, 1, timeout, room));
    }
  }
}
