/** When a sender can get two replies less than 15 s apart: the cooldown is
    charged when a command is admitted, not when it is answered. */
module Replies {
  import opened Basics
  import opened Bits
  import opened Inbox
  import opened MsgpackReader
  import Command
  import Cooldown
  import MessageRing
  import ReplyQueue

  const REPLY_PERIOD_MS: nat := 15000

  type Hash = seq<byte>

  // ---- Replies in a run --------------------------------------------------------

  /** The turns a pass takes; none while the radio is down. */
  function Turns(s: State, e: Event): seq<ReplyQueue.Turn>
    requires e.Pass? ==> |e.answers| == 2
  {
    if e.Pass? && e.online then ReplyQueue.Tick(s.queue, Clock(e.time), e.answers).1 else []
  }

  predicate ReplyIn(turns: seq<ReplyQueue.Turn>, src: Hash) {
    exists m :: 0 <= m < |turns| && turns[m].job.src == src && turns[m].outcome.Replies()
  }

  /** Event `k` sends a reply to `src`. */
  predicate RepliesTo(events: Events, k: nat, src: Hash)
    requires k < |events|
  {
    ReplyIn(Turns(Run(events[..k]), events[k]), src)
  }

  predicate Transmits(events: Events, k: nat)
    requires k < |events|
  {
    ReplyQueue.AnyTransmits(Turns(Run(events[..k]), events[k]))
  }

  /** Event `k` is a command of `src` that gets a place in the queue. */
  predicate Accepts(events: Events, k: nat, src: Hash)
    requires k < |events|
  {
    Admitted(events, k) && events[k].request.src == src && !ReplyQueue.Full(Run(events[..k]).queue)
  }

  /** Two replies to `src` less than 15 s apart. */
  predicate TooSoon(events: Events, i: nat, j: nat, src: Hash) {
    && i < j < |events| && RepliesTo(events, i, src) && RepliesTo(events, j, src)
    && events[j].time < events[i].time + REPLY_PERIOD_MS
  }

  // ---- What can be told after the first n events ----------------------------------

  function Now(events: Events, n: nat): nat
    requires n <= |events|
  {
    if n == 0 then 0 else EndOf(events[n - 1])
  }

  function LastReply(events: Events, n: nat, src: Hash): Option<nat>
    requires n <= |events|
  {
    if n == 0 then None
    else if RepliesTo(events, n - 1, src) then Some(events[n - 1].time)
    else LastReply(events, n - 1, src)
  }

  function LastTransmission(events: Events, n: nat): Option<nat>
    requires n <= |events|
  {
    if n == 0 then None
    else if Transmits(events, n - 1) then Some(events[n - 1].time)
    else LastTransmission(events, n - 1)
  }

  /** The first moment from now on at which a pass may transmit: the spacing
      counts from the last transmission, unless that fell on clock reading zero. */
  function Earliest(events: Events, n: nat): nat
    requires n <= |events|
  {
    match LastTransmission(events, n)
    case None => Now(events, n)
    case Some(l) =>
      if Clock(l) == 0 || l + ReplyQueue.REPLY_SPACING_MS <= Now(events, n) then Now(events, n)
      else l + ReplyQueue.REPLY_SPACING_MS
  }

  function SlotOf(s: ReplyQueue.Slot, src: Hash): nat {
    if s.Waiting? && s.job.src == src then 1 else 0
  }

  /** How many commands of `src` wait for their replies. */
  function WaitingOf(slots: ReplyQueue.Slots, src: Hash): nat {
    SlotOf(slots[0], src) + SlotOf(slots[1], src)
  }

  function WaitingAfter(events: Events, n: nat, src: Hash): nat
    requires n <= |events|
  {
    WaitingOf(Run(events[..n]).queue.slots, src)
  }

  /** Two commands of the sender wait; or one does, and the queue may transmit
      less than 15 s after the last reply to it. */
  predicate AtRisk(events: Events, n: nat, src: Hash)
    requires n <= |events|
  {
    || WaitingAfter(events, n, src) == 2
    || (WaitingAfter(events, n, src) == 1 && LastReply(events, n, src).Some?
        && Earliest(events, n) < LastReply(events, n, src).value + REPLY_PERIOD_MS)
  }

  // ---- Prefixes of a run ---------------------------------------------------------------

  lemma OneStep(events: Events, k: nat)
    requires k < |events|
    ensures Run(events[..k + 1]) == Step(Run(events[..k]), events[k])
  {
    assert events[..k + 1][..k] == events[..k];
  }

  lemma SameInPrefix(events: Events, n: nat, k: nat, src: Hash)
    requires k < n <= |events|
    ensures RepliesTo(events[..n], k, src) == RepliesTo(events, k, src)
    ensures Transmits(events[..n], k) == Transmits(events, k)
    ensures Accepts(events[..n], k, src) == Accepts(events, k, src)
  {
    assert events[..n][..k] == events[..k];
  }

  /** What was told of a run still holds when it goes on. */
  lemma {:induction false} SameAfter(events: Events, all: Events, n: nat, src: Hash)
    requires n <= |events| <= |all| && all[..|events|] == events
    ensures LastReply(all, n, src) == LastReply(events, n, src)
    ensures LastTransmission(all, n) == LastTransmission(events, n) && Now(all, n) == Now(events, n)
    ensures WaitingAfter(all, n, src) == WaitingAfter(events, n, src)
  {
    assert all[..n] == events[..n];
    if n > 0 {
      SameAfter(events, all, n - 1, src);
      SameInPrefix(all, |events|, n - 1, src);
      assert all[n - 1] == events[n - 1];
    }
  }

  // ---- A reply uses up a waiting command --------------------------------------------------

  lemma ReplyInCons(turn: ReplyQueue.Turn, rest: seq<ReplyQueue.Turn>, src: Hash)
    ensures ReplyIn([turn] + rest, src) <==> (turn.job.src == src && turn.outcome.Replies()) || ReplyIn(rest, src)
  {
    var all := [turn] + rest;
    if turn.job.src == src && turn.outcome.Replies() {
      assert all[0] == turn;
    }
    if ReplyIn(rest, src) {
      var m :| 0 <= m < |rest| && rest[m].job.src == src && rest[m].outcome.Replies();
      assert all[m + 1] == rest[m];
    }
  }

  function Used(turns: seq<ReplyQueue.Turn>, src: Hash): nat {
    if ReplyIn(turns, src) then 1 else 0
  }

  lemma TurnUses(slots: ReplyQueue.Slots, i: nat, o: ReplyQueue.Outcome, src: Hash)
    requires i < 2 && slots[i].Waiting?
    ensures WaitingOf(slots[i := ReplyQueue.After(slots[i], o)], src)
      + (if slots[i].job.src == src && o.Replies() then 1 else 0) <= WaitingOf(slots, src)
  {}

  lemma {:induction false} ServeUses(slots: ReplyQueue.Slots, i: nat, now: nat, answers: seq<Answers>, src: Hash)
    requires i <= 2 && |answers| == 2
    ensures var (final, turns) := ReplyQueue.Serve(slots, i, now, answers);
      WaitingOf(final, src) + Used(turns, src) <= WaitingOf(slots, src)
    decreases 2 - i
  {
    if i < 2 {
      if slots[i].Empty? {
        ServeUses(slots, i + 1, now, answers, src);
      } else {
        var o := ReplyQueue.Decide(slots[i], now, answers[i]);
        var slots' := slots[i := ReplyQueue.After(slots[i], o)];
        var turn := ReplyQueue.Turn(slots[i].job, o);
        ServeStep(slots, i, now, answers);
        TurnUses(slots, i, o, src);
        ServeUses(slots', i + 1, now, answers, src);
        ReplyInCons(turn, [], src);
        ReplyInCons(turn, ReplyQueue.Serve(slots', i + 1, now, answers).1, src);
        assert [turn] + [] == [turn];
      }
    }
  }

  /** A reply takes a waiting command away, and only an accepted command adds one. */
  lemma StepUses(events: Events, k: nat, src: Hash)
    requires k < |events| && !Accepts(events, k, src)
    ensures WaitingAfter(events, k + 1, src) + (if RepliesTo(events, k, src) then 1 else 0)
      <= WaitingAfter(events, k, src)
  {
    var s, e := Run(events[..k]), events[k];
    OneStep(events, k);
    if e.Pass? && e.online {
      ServeUses(s.queue.slots, 0, Clock(e.time), e.answers, src);
    }
  }

  lemma {:induction false} WaitingFalls(events: Events, a: nat, b: nat, src: Hash)
    requires a <= b <= |events| && forall k | a <= k < b :: !Accepts(events, k, src)
    ensures WaitingAfter(events, b, src) <= WaitingAfter(events, a, src)
    decreases b
  {
    if a < b {
      WaitingFalls(events, a, b - 1, src);
      StepUses(events, b - 1, src);
    }
  }

  // ---- No transmission before the earliest moment ---------------------------------------------

  lemma ReplyTransmits(events: Events, k: nat, src: Hash)
    requires k < |events| && RepliesTo(events, k, src)
    ensures Transmits(events, k) && events[k].Pass?
  {
    var turns := Turns(Run(events[..k]), events[k]);
    var m :| 0 <= m < |turns| && turns[m].job.src == src && turns[m].outcome.Replies();
    assert turns[m].outcome.Transmits();
  }

  /** The stored reply time is the clock of the last transmission. */
  lemma {:induction false} StoredIsLast(events: Events, n: nat)
    requires n <= |events|
    ensures Run(events[..n]).queue.lastReplyMs
      == match LastTransmission(events, n) case None => 0 case Some(l) => Clock(l)
  {
    if n > 0 {
      StoredIsLast(events, n - 1);
      OneStep(events, n - 1);
      QueueStep(Run(events[..n - 1]), events[n - 1]);
    }
  }

  lemma QueueStep(s: State, e: Event)
    requires s.ring.Valid() && (e.Pass? ==> |e.answers| == 2)
    ensures Step(s, e).queue.lastReplyMs
      == if ReplyQueue.AnyTransmits(Turns(s, e)) then Clock(e.time) else s.queue.lastReplyMs
  {}

  lemma {:induction false} LastIsPast(events: Events, n: nat)
    requires n <= |events| && InOrder(events) && LastTransmission(events, n).Some?
    ensures LastTransmission(events, n).value <= Now(events, n)
  {
    NowGrows(events, n - 1);
    if !Transmits(events, n - 1) {
      LastIsPast(events, n - 1);
    }
  }

  lemma NowGrows(events: Events, n: nat)
    requires n < |events| && InOrder(events)
    ensures Now(events, n) <= events[n].time <= Now(events, n + 1)
  {}

  lemma NotBeforeEarliest(events: Events, k: nat)
    requires InOrder(events) && k < |events| && Transmits(events, k)
    ensures events[k].time >= Earliest(events, k)
  {
    StoredIsLast(events, k);
    NowGrows(events, k);
    assert ReplyQueue.Spaced(Run(events[..k]).queue, Clock(events[k].time));
    if LastTransmission(events, k).Some? {
      LastIsPast(events, k);
      ReplyQueue.AgeBelowGap(LastTransmission(events, k).value, events[k].time);
    }
  }

  lemma EarliestGrows(events: Events, k: nat)
    requires InOrder(events) && k < |events|
    ensures Earliest(events, k) <= Earliest(events, k + 1)
  {
    NowGrows(events, k);
    if Transmits(events, k) {
      NotBeforeEarliest(events, k);
    }
  }

  lemma {:induction false} NotBeforeEarlier(events: Events, n: nat, k: nat)
    requires InOrder(events) && n <= k < |events|
    ensures Earliest(events, n) <= Earliest(events, k)
    decreases k
  {
    hide InOrder, Earliest;
    if n < k {
      NotBeforeEarlier(events, n, k - 1);
      EarliestGrows(events, k - 1);
    }
  }

  lemma LastTransmissionStep(events: Events, n: nat)
    requires n < |events|
    ensures LastTransmission(events, n + 1)
      == if Transmits(events, n) then Some(events[n].time) else LastTransmission(events, n)
  {}

  /** The last transmission before event `j`, no earlier than transmission `i`. */
  lemma {:induction false} LastSince(events: Events, i: nat, j: nat) returns (l: nat)
    requires i < j <= |events| && Transmits(events, i)
    ensures i <= l < j && Transmits(events, l) && LastTransmission(events, j) == Some(events[l].time)
    decreases j
  {
    hide Transmits, LastTransmission;
    LastTransmissionStep(events, j - 1);
    if Transmits(events, j - 1) {
      l := j - 1;
    } else {
      l := LastSince(events, i, j - 1);
    }
  }

  /** In every run of messages and passes two transmissions are at least five
      seconds apart, unless one from the earlier on fell on clock reading zero. */
  lemma TransmissionsAreSpaced(events: Events, i: nat, j: nat)
    requires InOrder(events) && i < j < |events| && Transmits(events, i) && Transmits(events, j)
    requires forall k | i <= k < j && Transmits(events, k) :: Clock(events[k].time) != 0
    ensures events[j].time - events[i].time >= 5000
  {
    var l := LastSince(events, i, j);
    NotBeforeEarliest(events, j);
    TimesGrow(events, i, l);
    TimesGrow(events, l, j);
    StoredIsLast(events, j);
    ReplyQueue.AgeBelowGap(events[l].time, events[j].time);
  }

  // ---- Last replies ---------------------------------------------------------------------------

  lemma LastReplyStep(events: Events, n: nat, src: Hash)
    requires n < |events|
    ensures LastReply(events, n + 1, src)
      == if RepliesTo(events, n, src) then Some(events[n].time) else LastReply(events, n, src)
  {}

  lemma {:induction false} LastReplyIsLatest(events: Events, n: nat, i: nat, src: Hash)
    requires InOrder(events) && i < n <= |events| && RepliesTo(events, i, src)
    ensures LastReply(events, n, src).Some? && LastReply(events, n, src).value >= events[i].time
    decreases n
  {
    hide InOrder, LastReply, RepliesTo;
    LastReplyStep(events, n - 1, src);
    TimesGrow(events, i, n - 1);
    if !RepliesTo(events, n - 1, src) {
      LastReplyIsLatest(events, n - 1, i, src);
    }
  }

  lemma {:induction false} FindLastReply(events: Events, n: nat, src: Hash) returns (i: nat)
    requires InOrder(events) && n <= |events| && LastReply(events, n, src).Some?
    ensures i < n && RepliesTo(events, i, src) && LastReply(events, n, src).value == events[i].time
    ensures LastTransmission(events, n).Some? && LastTransmission(events, n).value >= events[i].time
  {
    if RepliesTo(events, n - 1, src) {
      ReplyTransmits(events, n - 1, src);
      i := n - 1;
    } else {
      i := FindLastReply(events, n - 1, src);
    }
  }

  // ---- Only at risk ----------------------------------------------------------------------------

  lemma OneWaits(events: Events, n: nat, j: nat, src: Hash)
    requires n <= j < |events| && RepliesTo(events, j, src)
    requires forall k | n <= k < j :: !Accepts(events, k, src)
    ensures WaitingAfter(events, n, src) >= 1
  {
    ReplyTransmits(events, j, src);
    WaitingFalls(events, n, j, src);
    StepUses(events, j, src);
  }

  lemma TwoWait(events: Events, n: nat, i: nat, j: nat, src: Hash)
    requires n <= i < j < |events| && RepliesTo(events, i, src) && RepliesTo(events, j, src)
    requires forall k | n <= k < j :: !Accepts(events, k, src)
    ensures WaitingAfter(events, n, src) >= 2
  {
    WaitingFalls(events, n, i, src);
    StepUses(events, i, src);
    OneWaits(events, i + 1, j, src);
  }

  /** Whenever a reply to `src` follows another too soon, `src` was at risk at
      every moment since its last accepted command. */
  lemma TooSoonWasAtRisk(events: Events, n: nat, i: nat, j: nat, src: Hash)
    requires InOrder(events) && n <= j && TooSoon(events, i, j, src)
    requires forall k | n <= k < j :: !Accepts(events, k, src)
    ensures AtRisk(events, n, src)
  {
    OneWaits(events, n, j, src);
    if i >= n {
      TwoWait(events, n, i, j, src);
    } else {
      ReplyTransmits(events, j, src);
      NotBeforeEarlier(events, n, j);
      NotBeforeEarliest(events, j);
      LastReplyIsLatest(events, n, i, src);
    }
  }

  /** The last command of `src` accepted before event `j`. */
  lemma {:induction false} LastAccepted(events: Events, j: nat, src: Hash) returns (n: nat)
    requires j <= |events| && WaitingAfter(events, j, src) > 0
    ensures n < j && Accepts(events, n, src) && forall k | n < k < j :: !Accepts(events, k, src)
  {
    n := 0;
    if j == 0 {
      assert false;
    } else if Accepts(events, j - 1, src) {
      n := j - 1;
    } else {
      StepUses(events, j - 1, src);
      n := LastAccepted(events, j - 1, src);
    }
  }

  /** In every run, whenever two replies to a sender are less than 15 s apart,
      the sender was at risk when its last command before the second reply was
      accepted. */
  lemma TooSoonWasForeseeable(events: Events, i: nat, j: nat, src: Hash) returns (n: nat)
    requires InOrder(events) && TooSoon(events, i, j, src)
    ensures n < j && Accepts(events, n, src) && AtRisk(events, n + 1, src)
  {
    ReplyTransmits(events, j, src);
    StepUses(events, j, src);
    n := LastAccepted(events, j, src);
    TooSoonWasAtRisk(events, n + 1, i, j, src);
  }

  // ---- Whoever is at risk can be hit -------------------------------------------------------------

  const YES: Answers := ReplyQueue.Answers(false, false, true, true)
  const MUTE: Answers := ReplyQueue.Answers(false, false, false, true)

  /** Nothing but further passes of the main loop. */
  predicate OnlyPasses(more: Events) {
    forall k | 0 <= k < |more| :: more[k].Pass?
  }

  function Then(events: Events, more: Events): Events {
    events + more
  }

  /** Some further passes give `src` a reply too soon after an earlier one. */
  ghost predicate CanBeTooSoon(events: Events, src: Hash) {
    exists more: Events, i: nat, j: nat :: Hit(events, more, i, j, src)
  }

  ghost predicate Hit(events: Events, more: Events, i: nat, j: nat, src: Hash) {
    && OnlyPasses(more) && InOrder(Then(events, more)) && |events| <= j
    && TooSoon(Then(events, more), i, j, src)
  }

  /** A moment from `t` on at which a pass works. */
  lemma SomeMomentWorks(q: ReplyQueue.Queue, t: nat) returns (at: nat)
    requires q.lastReplyMs < 0x1_0000_0000
    ensures at >= t && ReplyQueue.Spaced(q, Clock(at))
  {
    at := t;
    if !ReplyQueue.Spaced(q, Clock(t)) {
      at := t + 5000;
      LaterAge(t, q.lastReplyMs);
    }
  }

  lemma LaterAge(t: nat, last: nat)
    requires last < 0x1_0000_0000 && Age(Clock(t), last) < 5000
    ensures Age(Clock(t + 5000), last) == Age(Clock(t), last) + 5000
  {
    assert Clock(t + 5000) == Clock(t) + 5000 || Clock(t + 5000) == Clock(t) + 5000 - 0x1_0000_0000;
  }

  lemma GapIsAge(earlier: nat, later: nat)
    requires earlier <= later < earlier + 0x1_0000_0000
    ensures Age(Clock(later), Clock(earlier)) == later - earlier
  {
    assert later == earlier + (later - earlier);
  }

  lemma FirstStep(events: Events, p: Event, more: Events)
    requires p.Pass? && |p.answers| == 2
    ensures var all := Then(events, [p] + more);
      all[..|events|] == events && all[|events|] == p && Run(all[..|events| + 1]) == Step(Run(events), p)
  {
    hide Run, Step;
    var all := Then(events, [p] + more);
    assert all[..|events|] == events && all[|events|] == p;
    OneStep(all, |events|);
  }

  /** Both waiting commands are answered, five seconds apart. */
  lemma BothAnswered(events: Events, at: nat) returns (more: Events)
    requires Run(events).queue.slots[0].Waiting? && Run(events).queue.slots[1].Waiting?
    requires ReplyQueue.Spaced(Run(events).queue, Clock(at))
    ensures more == [Pass(true, at, [YES, YES]), Pass(true, at + 5000, [YES, YES])]
    ensures var all, n, slots := Then(events, more), |events|, Run(events).queue.slots;
      && Turns(Run(all[..n]), all[n]) == [ReplyQueue.Turn(slots[0].job, ReplyQueue.RepliedOpportunistic)]
      && Turns(Run(all[..n + 1]), all[n + 1]) == [ReplyQueue.Turn(slots[1].job, ReplyQueue.RepliedOpportunistic)]
  {
    var q := Run(events).queue;
    var p, r := Pass(true, at, [YES, YES]), Pass(true, at + 5000, [YES, YES]);
    more := [p, r];
    assert more == [p] + [r];
    FirstStep(events, p, [r]);
    ReplyQueue.FirstReplies(q.slots, Clock(at), [YES, YES]);
    ReplyQueue.FirstReplies(q.slots[0 := ReplyQueue.Empty], Clock(at + 5000), [YES, YES]);
    GapIsAge(at, at + 5000);
    var all := Then(events, more);
    assert all[|events| + 1] == r;
  }

  /** Any one waiting command is answered at the next pass that works. */
  lemma OneAnswered(slots: ReplyQueue.Slots, s: nat, now: nat, src: Hash) returns (answers: seq<Answers>)
    requires s < 2 && slots[s].Waiting? && slots[s].job.src == src
    ensures |answers| == 2 && ReplyIn(ReplyQueue.Serve(slots, 0, now, answers).1, src)
  {
    answers := [MUTE, MUTE][s := YES];
    var turn := ReplyQueue.Turn(slots[s].job, ReplyQueue.RepliedOpportunistic);
    ReplyInCons(turn, [], src);
    assert [turn] + [] == [turn];
    if s == 1 {
      if slots[0].Waiting? {
        var o := ReplyQueue.Decide(slots[0], now, MUTE);
        ServeStep(slots, 0, now, answers);
        ServeStep(slots[0 := ReplyQueue.After(slots[0], o)], 1, now, answers);
        ReplyInCons(ReplyQueue.Turn(slots[0].job, o), [turn], src);
      } else {
        ServeStep(slots, 1, now, answers);
      }
    } else {
      ServeStep(slots, 0, now, answers);
    }
  }

  lemma ExtendsOrder(events: Events, more: Events)
    requires InOrder(events) && InOrder(more) && OnlyPasses(more)
    requires more != [] ==> more[0].time >= Now(events, |events|)
    ensures InOrder(Then(events, more))
  {
    var all := Then(events, more);
    forall i, j | 0 <= i < j < |all| ensures EndOf(all[i]) <= all[j].time {
      if i < |events| <= j {
        EndsByNow(events, i);
        assert more[0].time <= more[j - |events|].time;
      }
    }
  }

  lemma EndsByNow(events: Events, i: nat)
    requires InOrder(events) && i < |events|
    ensures EndOf(events[i]) <= Now(events, |events|)
  {
    if i < |events| - 1 {
      assert EndOf(events[i]) <= events[|events| - 1].time;
    }
  }

  lemma TwoWaitingCanBeHit(events: Events, src: Hash)
    requires InOrder(events) && WaitingAfter(events, |events|, src) == 2
    ensures CanBeTooSoon(events, src)
  {
    var q := Run(events).queue;
    StoredIsLast(events, |events|);
    assert events[..|events|] == events;
    var at := SomeMomentWorks(q, Now(events, |events|));
    var more := BothAnswered(events, at);
    var all, n := Then(events, more), |events|;
    ExtendsOrder(events, more);
    AnsweredTooSoon(events, more, q.slots[0].job, q.slots[1].job);
    assert Hit(events, more, n, n + 1, src);
  }

  lemma EarliestWorks(events: Events, i: nat, src: Hash)
    requires InOrder(events) && LastTransmission(events, |events|).Some? && i < |events|
    requires events[i].time <= LastTransmission(events, |events|).value
    requires Earliest(events, |events|) < events[i].time + REPLY_PERIOD_MS
    ensures ReplyQueue.Spaced(Run(events).queue, Clock(Earliest(events, |events|)))
  {
    assert events[..|events|] == events;
    StoredIsLast(events, |events|);
    LastIsPast(events, |events|);
    GapIsAge(LastTransmission(events, |events|).value, Earliest(events, |events|));
  }

  lemma RecentCanBeHit(events: Events, src: Hash)
    requires InOrder(events) && WaitingAfter(events, |events|, src) == 1 && LastReply(events, |events|, src).Some?
    requires Earliest(events, |events|) < LastReply(events, |events|, src).value + REPLY_PERIOD_MS
    ensures CanBeTooSoon(events, src)
  {
    var n, at, slots := |events|, Earliest(events, |events|), Run(events).queue.slots;
    assert events[..n] == events;
    var i := FindLastReply(events, n, src);
    EarliestWorks(events, i, src);
    var s := if SlotOf(slots[0], src) == 1 then 0 else 1;
    var answers := OneAnswered(slots, s, Clock(at), src);
    var more := [Pass(true, at, answers)];
    var all := Then(events, more);
    assert more == more + [];
    FirstStep(events, Pass(true, at, answers), []);
    ExtendsOrder(events, more);
    SameInPrefix(all, n, i, src);
    assert RepliesTo(all, n, src);
    assert Hit(events, more, i, n, src);
  }

  lemma PassesAcceptNothing(events: Events, more: Events, k: nat, src: Hash)
    requires OnlyPasses(more) && |events| <= k < |Then(events, more)|
    ensures !Accepts(Then(events, more), k, src)
  {
    assert Then(events, more)[k] == more[k - |events|];
  }

  /** The rule, exactly: further passes can give a sender a reply less than 15 s
      after an earlier one if and only if it is at risk now. */
  lemma TooSoonIff(events: Events, src: Hash)
    requires InOrder(events)
    ensures CanBeTooSoon(events, src) <==> AtRisk(events, |events|, src)
  {
    if CanBeTooSoon(events, src) {
      var more: Events, i: nat, j: nat :| Hit(events, more, i, j, src);
      var all := Then(events, more);
      assert all[..|events|] == events;
      forall k | |events| <= k < j ensures !Accepts(all, k, src) {
        PassesAcceptNothing(events, more, k, src);
      }
      TooSoonWasAtRisk(all, |events|, i, j, src);
      SameAfter(events, all, |events|, src);
    }
    if AtRisk(events, |events|, src) {
      if WaitingAfter(events, |events|, src) == 2 {
        TwoWaitingCanBeHit(events, src);
      } else {
        RecentCanBeHit(events, src);
      }
    }
  }

  // ---- Conservation ----------------------------------------------------------------------------

  /** How often `x` got a place in the queue. */
  function AcceptedTimes(events: Events, x: ReplyQueue.Job): nat {
    if events == [] then 0
    else
      var n := |events| - 1;
      var e := events[n];
      var counts := e.Arrive? && Accepts(events, n, e.request.src) && JobOf(e.request, e.linked, Clock(e.t0)) == x;
      AcceptedTimes(events[..n], x) + (if counts then 1 else 0)
  }

  function RepliedTimes(events: Events, x: ReplyQueue.Job): nat {
    if events == [] then 0
    else
      var n := |events| - 1;
      RepliedTimes(events[..n], x) + ReplyQueue.ReplyCount(Turns(Run(events[..n]), events[n]), x)
  }

  function GivenUpTimes(events: Events, x: ReplyQueue.Job): nat {
    if events == [] then 0
    else
      var n := |events| - 1;
      GivenUpTimes(events[..n], x) + ReplyQueue.GiveUpCount(Turns(Run(events[..n]), events[n]), x)
  }

  /** In every run of messages and passes each accepted command is replied to
      once, given up once, or still pending. */
  lemma {:induction false} CommandsAreConserved(events: Events, x: ReplyQueue.Job)
    ensures AcceptedTimes(events, x)
      == RepliedTimes(events, x) + GivenUpTimes(events, x) + ReplyQueue.PendingCount(Run(events).queue.slots, x)
  {
    if events != [] {
      var n := |events| - 1;
      CommandsAreConserved(events[..n], x);
      StepConserves(Run(events[..n]), events[n], x);
    }
  }

  lemma StepConserves(s: State, e: Event, x: ReplyQueue.Job)
    requires s.ring.Valid() && (e.Pass? ==> |e.answers| == 2)
    ensures e.Pass? ==>
      ReplyQueue.PendingCount(s.queue.slots, x) == ReplyQueue.PendingCount(Step(s, e).queue.slots, x)
        + ReplyQueue.ReplyCount(Turns(s, e), x) + ReplyQueue.GiveUpCount(Turns(s, e), x)
  {
    if e.Pass? && e.online && ReplyQueue.Spaced(s.queue, Clock(e.time)) {
      ReplyQueue.ServeIsBalanced(s.queue.slots, 0, Clock(e.time), e.answers, x);
    }
  }

  // ---- Nothing is given up early -----------------------------------------------------------------

  /** The request of event `n` got a place in the queue, as `x`. */
  predicate AcceptedAs(events: Events, n: nat, x: ReplyQueue.Job)
    requires n < |events|
  {
    && events[n].Arrive? && Accepts(events, n, events[n].request.src)
    && x == ReplyQueue.Job(events[n].request.src, events[n].request.kind, Clock(events[n].t0),
                           events[n].request.stamp, events[n].linked)
  }

  /** Event `k` replies to `x`. */
  predicate RepliesToJob(events: Events, k: nat, x: ReplyQueue.Job)
    requires k < |events|
  {
    exists m :: 0 <= m < |Turns(Run(events[..k]), events[k])|
      && Turns(Run(events[..k]), events[k])[m].job == x && Turns(Run(events[..k]), events[k])[m].outcome.Replies()
  }

  /** Slot `i` keeps what it held, or is emptied; only an admitted request fills one. */
  lemma StepKeepsJobs(s: State, e: Event, i: nat)
    requires s.ring.Valid() && (e.Pass? ==> |e.answers| == 2) && i < 2 && Step(s, e).queue.slots[i].Waiting?
    ensures || (s.queue.slots[i].Waiting? && Step(s, e).queue.slots[i].job == s.queue.slots[i].job)
            || (e.Arrive? && !MessageRing.Seen(s.ring, e.request.id)
                && Cooldown.Admits(s.table, e.request.src, Clock(e.time)) && !ReplyQueue.Full(s.queue)
                && Step(s, e).queue.slots[i].job == JobOf(e.request, e.linked, Clock(e.t0)))
  {
    if e.Pass? {
      ReplyQueue.PassIs(s.queue, Clock(e.time), e.answers);
    }
  }

  lemma KeptOrAccepted(events: Events, k: nat, i: nat)
    requires k < |events| && i < 2 && Run(events[..k + 1]).queue.slots[i].Waiting?
    ensures var x, before := Run(events[..k + 1]).queue.slots[i].job, Run(events[..k]).queue.slots[i];
      (before.Waiting? && before.job == x) || AcceptedAs(events, k, x)
  {
    OneStep(events, k);
    StepKeepsJobs(Run(events[..k]), events[k], i);
  }

  /** Whatever waits was accepted before. */
  lemma {:induction false} WaitingWasAccepted(events: Events, k: nat, i: nat) returns (n: nat)
    requires k <= |events| && i < 2 && Run(events[..k]).queue.slots[i].Waiting?
    ensures n < k && AcceptedAs(events, n, Run(events[..k]).queue.slots[i].job)
  {
    hide Step, AcceptedAs;
    n := 0;
    if k > 0 {
      KeptOrAccepted(events, k - 1, i);
      if AcceptedAs(events, k - 1, Run(events[..k]).queue.slots[i].job) {
        n := k - 1;
      } else {
        n := WaitingWasAccepted(events, k - 1, i);
      }
    }
  }

  lemma AgeOfAccepted(events: Events, n: nat, k: nat)
    requires InOrder(events) && n < k < |events|
    ensures events[k].time - EndOf(events[n]) >= Age(Clock(events[k].time), Clock(EndOf(events[n])))
  {
    ReplyQueue.AgeBelowGap(EndOf(events[n]), events[k].time);
  }

  /** In every run, an event that gives a command up comes at least a minute after
      the command was accepted, however often it was. */
  lemma GivenUpAfterAMinute(events: Events, k: nat, m: nat) returns (n: nat)
    requires InOrder(events) && k < |events| && m < |Turns(Run(events[..k]), events[k])|
    requires Turns(Run(events[..k]), events[k])[m].outcome.GaveUp?
    ensures var x := Turns(Run(events[..k]), events[k])[m].job;
      && n < k && AcceptedAs(events, n, x)
      && forall l | 0 <= l < k && AcceptedAs(events, l, x) :: events[k].time - events[l].t0 >= 60000
  {
    var s, e := Run(events[..k]), events[k];
    var x := Turns(s, e)[m].job;
    var i := ReplyQueue.GivenUpIsOld(s.queue, Clock(e.time), e.answers, m);
    n := WaitingWasAccepted(events, k, i);
    forall l | 0 <= l < k && AcceptedAs(events, l, x) ensures events[k].time - events[l].t0 >= 60000 {
      AgeOfAccepted(events, l, k);
    }
  }

  /** A pass takes `x` out of the queue only by a reply or when it is old. */
  lemma StepKeepsYoung(s: State, e: Event, x: ReplyQueue.Job, i: nat)
    requires s.ring.Valid() && (e.Pass? ==> |e.answers| == 2) && i < 2
    requires s.queue.slots[i].Waiting? && s.queue.slots[i].job == x
    requires e.Pass? ==> Age(Clock(e.time), x.t0) < 60000
    requires forall m | 0 <= m < |Turns(s, e)| && Turns(s, e)[m].job == x :: !Turns(s, e)[m].outcome.Replies()
    ensures Step(s, e).queue.slots[i].Waiting? && Step(s, e).queue.slots[i].job == x
  {
    if e.Pass? && e.online {
      ReplyQueue.PassIs(s.queue, Clock(e.time), e.answers);
      var turns := Turns(s, e);
      if i == 1 && |turns| == 2 {
        assert turns[1].job == x ==> !turns[1].outcome.Replies();
      }
      if turns != [] {
        assert turns[0].job == x ==> !turns[0].outcome.Replies();
      }
    }
  }

  /** Until a minute has passed an accepted command stays in its slot, unless an
      event replies to it. */
  lemma {:induction false} YoungCommandStays(events: Events, n: nat, k: nat, x: ReplyQueue.Job) returns (i: nat)
    requires InOrder(events) && n < k <= |events| && AcceptedAs(events, n, x)
    requires events[k - 1].time < events[n].t0 + 60000
    requires forall l | n < l < k :: !RepliesToJob(events, l, x)
    ensures i < 2 && Run(events[..k]).queue.slots[i].Waiting? && Run(events[..k]).queue.slots[i].job == x
    decreases k
  {
    OneStep(events, k - 1);
    var s, e := Run(events[..k - 1]), events[k - 1];
    if k == n + 1 {
      i := if s.queue.slots[0].Empty? then 0 else 1;
    } else {
      TimesGrow(events, k - 2, k - 1);
      i := YoungCommandStays(events, n, k - 1, x);
      assert EndOf(events[n]) <= e.time;
      GapIsAge(events[n].t0, e.time);
      assert !RepliesToJob(events, k - 1, x);
      StepKeepsYoung(s, e, x, i);
    }
  }

  // ---- Two replies in five seconds ---------------------------------------------------------------

  /** One sender's two commands, 15 s apart, and two passes. */
  function TwoCommands(a: Request, b: Request): Events {
    [Arrive(a, false, 0, 0), Arrive(b, false, 15000, 15000),
     Pass(true, 20000, [YES, YES]), Pass(true, 25000, [YES, YES])]
  }

  lemma TwoCommandsWait(a: Request, b: Request)
    requires a.src == b.src && MessageRing.Different([a.id, b.id])
    ensures var events := TwoCommands(a, b);
      && Admitted(events, 0) && Admitted(events, 1)
      && Run(events[..2]).queue == ReplyQueue.Queue([ReplyQueue.Waiting(JobOf(a, false, 0), false),
                                                     ReplyQueue.Waiting(JobOf(b, false, 15000), false)], 0)
  {
    var events := TwoCommands(a, b);
    assert [a.id, b.id][0] == a.id && [a.id, b.id][1] == b.id;
    assert events[..0] == [];
    CoolingTable(a.src);
    OneStep(events, 0);
    OneStep(events, 1);
  }

  /** With the identity and a path known, a lone sender whose commands are
      admitted 15 s apart gets both replies 5 s apart. */
  lemma TwoRepliesInFiveSeconds(a: Request, b: Request)
    requires a.src == b.src && MessageRing.Different([a.id, b.id])
    ensures var events := TwoCommands(a, b);
      InOrder(events) && Admitted(events, 0) && Admitted(events, 1) && TooSoon(events, 2, 3, a.src)
  {
    var events := TwoCommands(a, b);
    TwoCommandsWait(a, b);
    var more := BothAnswered(events[..2], 20000);
    assert Then(events[..2], more) == events;
    AnsweredTooSoon(events[..2], more, JobOf(a, false, 0), JobOf(b, false, 15000));
  }

  /** A message sent again after its sender's cooldown and eight others is not
      only queued but answered a second time, 5 s after the first. */
  lemma RetryIsAnsweredTwice(ids: seq<MessageRing.Id>, src: Hash, kind: Command.Kind, stamp: Numeric)
    requires |ids| == 9 && MessageRing.Different(ids)
    ensures var events := Then(RetriedLate(ids, src, kind, stamp),
                               [Pass(true, 20000, [YES, YES]), Pass(true, 25000, [YES, YES])]);
      && InOrder(events) && events[0].request == events[9].request && Admitted(events, 0) && Admitted(events, 9)
      && TooSoon(events, 10, 11, src)
  {
    var retried := RetriedLate(ids, src, kind, stamp);
    AnsweredTwice(ids, src, kind, stamp);
    StoredIsZero(retried);
    var more := BothAnswered(retried, 20000);
    AdmittedStays(retried, more, 0);
    AdmittedStays(retried, more, 9);
    ExtendsOrder(retried, more);
    AnsweredTooSoon(retried, more, ReplyQueue.Job(src, kind, 0, stamp, false),
                    ReplyQueue.Job(src, kind, 15000, stamp, false));
  }

  lemma AdmittedStays(events: Events, more: Events, k: nat)
    requires k < |events|
    ensures Then(events, more)[k] == events[k] && Admitted(Then(events, more), k) == Admitted(events, k)
  {
    assert Then(events, more)[..k] == events[..k];
  }

  /** Two jobs of one sender answered by two passes five seconds apart. */
  lemma AnsweredTooSoon(events: Events, more: Events, a: ReplyQueue.Job, b: ReplyQueue.Job)
    requires |more| == 2 && more[1].time == more[0].time + 5000 && a.src == b.src
    requires var all, n := Then(events, more), |events|;
      && Turns(Run(all[..n]), all[n]) == [ReplyQueue.Turn(a, ReplyQueue.RepliedOpportunistic)]
      && Turns(Run(all[..n + 1]), all[n + 1]) == [ReplyQueue.Turn(b, ReplyQueue.RepliedOpportunistic)]
    ensures TooSoon(Then(events, more), |events|, |events| + 1, a.src)
  {
    var x := ReplyQueue.Turn(a, ReplyQueue.RepliedOpportunistic);
    var y := ReplyQueue.Turn(b, ReplyQueue.RepliedOpportunistic);
    ReplyInCons(x, [], a.src);
    ReplyInCons(y, [], a.src);
    assert [x] + [] == [x] && [y] + [] == [y];
  }

  lemma {:induction false} StoredIsZero(events: Events)
    requires forall k | 0 <= k < |events| :: events[k].Arrive?
    ensures Run(events).queue.lastReplyMs == 0
  {
    if events != [] {
      StoredIsZero(events[..|events| - 1]);
    }
  }
}
