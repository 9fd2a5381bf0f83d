/** The reply scheduler of the LXMF inbox: two pending slots, one transmission
    a pass, five seconds between transmissions. */
module ReplyQueue {
  import opened Basics
  import opened Bits
  import Command
  import opened MsgpackReader

  const REPLY_SPACING_MS: nat := 5000
  const BACKCHANNEL_WAIT_MS: nat := 12000
  const REPLY_GIVE_UP_MS: nat := 60000

  type Hash = seq<byte>

  /** An accepted command waiting for its reply. */
  datatype Job = Job(src: Hash, cmd: Command.Kind, t0: nat, requestTime: Numeric, linked: bool)

  datatype Slot = Empty | Waiting(job: Job, pathRequested: bool)

  type Slots = s: seq<Slot> | |s| == 2 witness [Empty, Empty]

  datatype Queue = Queue(slots: Slots, lastReplyMs: nat)

  const BOOT: Queue := Queue([Empty, Empty], 0)

  /** What the network stack answers while one slot is serviced: the link is up
      and its peer is the sender, the link is still up, the sender's identity
      and a path to it are known. */
  datatype Answers = Answers(backchannel: bool, active: bool, known: bool, path: bool)

  datatype Outcome = Waited | RepliedOnLink | RepliedOpportunistic | RequestedPath | GaveUp {
    predicate Transmits() {
      RepliedOnLink? || RepliedOpportunistic? || RequestedPath?
    }
    predicate Replies() {
      RepliedOnLink? || RepliedOpportunistic?
    }
  }

  function Decide(s: Slot, now: nat, a: Answers): Outcome
    requires s.Waiting?
  {
    var age := Age(now, s.job.t0);
    if s.job.linked && a.backchannel then RepliedOnLink
    else if s.job.linked && a.active && age < BACKCHANNEL_WAIT_MS then Waited
    else if a.known && (a.path || age >= REPLY_GIVE_UP_MS / 2) then RepliedOpportunistic
    else if !a.path && !s.pathRequested then RequestedPath
    else if age >= REPLY_GIVE_UP_MS then GaveUp
    else Waited
  }

  function After(s: Slot, o: Outcome): Slot
    requires s.Waiting?
  {
    match o
    case Waited => s
    case RequestedPath => s.(pathRequested := true)
    case _ => Empty
  }

  /** One slot's turn in a pass. */
  datatype Turn = Turn(job: Job, outcome: Outcome)

  /** Slots from `i` on are serviced in order until one transmits. */
  function Serve(slots: Slots, i: nat, now: nat, answers: seq<Answers>): (r: (Slots, seq<Turn>))
    requires i <= 2 && |answers| == 2
    decreases 2 - i
  {
    if i == 2 then (slots, [])
    else if slots[i].Empty? then Serve(slots, i + 1, now, answers)
    else
      var o := Decide(slots[i], now, answers[i]);
      var slots' := slots[i := After(slots[i], o)];
      var turn := Turn(slots[i].job, o);
      if o.Transmits() then (slots', [turn])
      else
        var (final, rest) := Serve(slots', i + 1, now, answers);
        (final, [turn] + rest)
  }

  predicate Spaced(q: Queue, now: nat) {
    q.lastReplyMs == 0 || Age(now, q.lastReplyMs) >= REPLY_SPACING_MS
  }

  predicate AnyTransmits(turns: seq<Turn>) {
    exists k :: 0 <= k < |turns| && turns[k].outcome.Transmits()
  }

  /** One pass of the main loop; `now` is a 32-bit clock reading. */
  function Tick(q: Queue, now: nat, answers: seq<Answers>): (r: (Queue, seq<Turn>))
    requires |answers| == 2
  {
    if !Spaced(q, now) then (q, [])
    else
      var (slots, turns) := Serve(q.slots, 0, now, answers);
      (Queue(slots, if AnyTransmits(turns) then now else q.lastReplyMs), turns)
  }

  /** The first empty slot takes the job; a full queue drops it. */
  function Enqueue(q: Queue, job: Job): Queue {
    if q.slots[0].Empty? then q.(slots := [Waiting(job, false), q.slots[1]])
    else if q.slots[1].Empty? then q.(slots := [q.slots[0], Waiting(job, false)])
    else q
  }

  predicate Full(q: Queue) {
    q.slots[0].Waiting? && q.slots[1].Waiting?
  }

  // ---- What is done when -------------------------------------------------

  /** Each outcome, by what the network answers and how long the command has
      waited, and what is left in the slot. */
  lemma OutcomesIff(s: Slot, now: nat, a: Answers)
    requires s.Waiting?
    ensures var o, age, onLink := Decide(s, now, a), Age(now, s.job.t0), s.job.linked && a.backchannel;
      var held := s.job.linked && a.active && !onLink && age < 12000;
      && (o == RepliedOnLink <==> onLink)
      && (held ==> o == Waited)
      && (o == RepliedOpportunistic <==> !onLink && !held && a.known && (a.path || age >= 30000))
      && (o == RequestedPath <==> !onLink && !held && !a.path && !s.pathRequested && !(a.known && age >= 30000))
      && (o == GaveUp <==> !onLink && !a.known && (a.path || s.pathRequested) && age >= 60000)
    ensures var o := Decide(s, now, a);
      && After(s, o) == (if o == Waited then s else if o == RequestedPath then Waiting(s.job, true) else Empty)
      && (o.Transmits() <==> o != Waited && o != GaveUp)
      && (o.Replies() <==> o == RepliedOnLink || o == RepliedOpportunistic)
  {}

  /** A pass looks at the first slot, then at the second unless the first has
      transmitted, and notes the time of a transmission; within five seconds of
      the last one it does nothing. */
  lemma PassIs(q: Queue, now: nat, answers: seq<Answers>)
    requires |answers| == 2
    ensures q.lastReplyMs != 0 && Age(now, q.lastReplyMs) < 5000 ==> Tick(q, now, answers) == (q, [])
    ensures q.lastReplyMs == 0 || Age(now, q.lastReplyMs) >= 5000 ==>
      var (s, t) := (q.slots[0], q.slots[1]);
      var turns := TurnOf(s, now, answers[0]);
      var more := if AnyTransmits(turns) then [] else TurnOf(t, now, answers[1]);
      Tick(q, now, answers)
        == (Queue([Left(s, turns), Left(t, more)], if AnyTransmits(turns + more) then now else q.lastReplyMs),
            turns + more)
  {
    var (s, t) := (q.slots[0], q.slots[1]);
    var turns := TurnOf(s, now, answers[0]);
    var first := q.slots[0 := Left(s, turns)];
    SecondServed(q.slots, now, answers);
    SecondServed(first, now, answers);
    if s.Waiting? {
      assert turns + [] == turns;
      if turns[0].outcome.Transmits() {
        assert first == [Left(s, turns), t];
      }
      assert AnyTransmits(turns) <==> turns[0].outcome.Transmits();
    } else {
      assert [] + TurnOf(t, now, answers[1]) == TurnOf(t, now, answers[1]);
      assert q.slots == [s, t] && !AnyTransmits(turns);
    }
  }

  lemma SecondServed(slots: Slots, now: nat, answers: seq<Answers>)
    requires |answers| == 2
    ensures var t := slots[1];
      var turns := TurnOf(t, now, answers[1]);
      Serve(slots, 1, now, answers) == ([slots[0], Left(t, turns)], turns)
  {
    var t := slots[1];
    var after := slots[1 := Left(t, TurnOf(t, now, answers[1]))];
    assert after == [slots[0], Left(t, TurnOf(t, now, answers[1]))];
    assert slots == [slots[0], t] && Serve(after, 2, now, answers) == (after, []);
    if t.Waiting? {
      var turn := Turn(t.job, Decide(t, now, answers[1]));
      assert [turn] + [] == [turn] == TurnOf(t, now, answers[1]);
    } else {
      assert Serve(slots, 2, now, answers) == (slots, []);
    }
  }

  function TurnOf(s: Slot, now: nat, a: Answers): seq<Turn> {
    if s.Empty? then [] else [Turn(s.job, Decide(s, now, a))]
  }

  function Left(s: Slot, turns: seq<Turn>): Slot {
    if s.Empty? || turns == [] then s else After(s, turns[0].outcome)
  }

  /** A pass that gives a command up finds it waiting for at least a minute. */
  lemma GivenUpIsOld(q: Queue, now: nat, answers: seq<Answers>, m: nat) returns (i: nat)
    requires |answers| == 2 && m < |Tick(q, now, answers).1| && Tick(q, now, answers).1[m].outcome.GaveUp?
    ensures i < 2 && q.slots[i].Waiting? && q.slots[i].job == Tick(q, now, answers).1[m].job
    ensures Age(now, q.slots[i].job.t0) >= 60000
  {
    PassIs(q, now, answers);
    i := if q.slots[0].Waiting? && m == 0 then 0 else 1;
  }

  /** The link of a waiting command is left the time to identify its peer. */
  lemma LinkedCommandWaits(q: Queue, now: nat, answers: seq<Answers>, i: nat)
    requires |answers| == 2 && i < 2 && q.slots[i].Waiting? && q.slots[i].job.linked
    requires answers[i].active && !answers[i].backchannel && Age(now, q.slots[i].job.t0) < 12000
    ensures Tick(q, now, answers).0.slots[i] == q.slots[i]
  {
    PassIs(q, now, answers);
  }

  // ---- One transmission a pass -------------------------------------------

  /** A pass transmits at most once, and nothing is serviced after that. */
  lemma {:induction false} OneTransmission(slots: Slots, i: nat, now: nat, answers: seq<Answers>)
    requires i <= 2 && |answers| == 2
    ensures var turns := Serve(slots, i, now, answers).1;
      forall k | 0 <= k < |turns| - 1 :: !turns[k].outcome.Transmits()
    decreases 2 - i
  {
    if i < 2 {
      if slots[i].Empty? {
        OneTransmission(slots, i + 1, now, answers);
      } else {
        var o := Decide(slots[i], now, answers[i]);
        OneTransmission(slots[i := After(slots[i], o)], i + 1, now, answers);
      }
    }
  }

  // ---- Draining ----------------------------------------------------------

  function Burden(s: Slot): nat {
    match s
    case Empty => 0
    case Waiting(_, requested) => if requested then 1 else 2
  }

  /** What is left to do: per waiting slot one, and one more for a path request
      not yet made. */
  function Measure(slots: Slots): nat {
    Burden(slots[0]) + Burden(slots[1])
  }

  predicate Overdue(s: Slot, now: nat) {
    s.Waiting? ==> Age(now, s.job.t0) >= 60000
  }

  lemma OverdueMoves(s: Slot, now: nat, a: Answers)
    requires s.Waiting? && Overdue(s, now)
    ensures !(s.job.linked && a.active && Age(now, s.job.t0) < BACKCHANNEL_WAIT_MS)
    ensures Decide(s, now, a) != Waited
    ensures Burden(After(s, Decide(s, now, a))) < Burden(s)
  {}

  /** Whatever the network answers, a pass over overdue slots leaves less to
      do. */
  lemma OverdueServeDecreases(slots: Slots, now: nat, answers: seq<Answers>)
    requires |answers| == 2 && Overdue(slots[0], now) && Overdue(slots[1], now)
    ensures var slots' := Serve(slots, 0, now, answers).0;
      if Measure(slots) == 0 then slots' == slots else Measure(slots') < Measure(slots)
    ensures var slots' := Serve(slots, 0, now, answers).0;
      forall i | 0 <= i < 2 && slots'[i].Waiting? :: slots[i].Waiting? && slots'[i].job == slots[i].job
  {
    if slots[0].Waiting? {
      OverdueMoves(slots[0], now, answers[0]);
    }
    if slots[1].Waiting? {
      OverdueMoves(slots[1], now, answers[1]);
    }
    var o := if slots[0].Waiting? then Decide(slots[0], now, answers[0]) else Waited;
    var next := if slots[0].Waiting? then slots[0 := After(slots[0], o)] else slots;
    assert Serve(next, 2, now, answers).0 == next;
  }

  datatype Pass = Pass(now: nat, answers: seq<Answers>)

  type Schedule = s: seq<Pass> | forall k | 0 <= k < |s| :: |s[k].answers| == 2

  function Passes(q: Queue, passes: Schedule): Queue
    decreases passes
  {
    if passes == [] then q else Passes(Tick(q, passes[0].now, passes[0].answers).0, passes[1..])
  }

  /** The passes at which the spacing rule lets the scheduler work. */
  function WorkingPasses(q: Queue, passes: Schedule): nat
    decreases passes
  {
    if passes == [] then 0
    else
      (if Spaced(q, passes[0].now) then 1 else 0)
      + WorkingPasses(Tick(q, passes[0].now, passes[0].answers).0, passes[1..])
  }

  function Transmissions(q: Queue, passes: Schedule): nat
    decreases passes
  {
    if passes == [] then 0
    else
      var (q', turns) := Tick(q, passes[0].now, passes[0].answers);
      (if AnyTransmits(turns) then 1 else 0) + Transmissions(q', passes[1..])
  }

  predicate AllOverdue(q: Queue, passes: Schedule) {
    forall k, s | 0 <= k < |passes| && s in q.slots :: Overdue(s, passes[k].now)
  }

  /** With no new commands and every slot past its deadline at each pass, the
      queue empties once the working passes reach what was left to do, four
      at most, and no more transmissions than that are made on the way. */
  lemma {:induction false} OverdueQueueDrains(q: Queue, passes: Schedule)
    requires AllOverdue(q, passes)
    ensures Measure(q.slots) <= 4
    ensures WorkingPasses(q, passes) >= Measure(q.slots) ==> Passes(q, passes).slots == [Empty, Empty]
    ensures Transmissions(q, passes) + Measure(Passes(q, passes).slots) <= Measure(q.slots)
    decreases passes
  {
    if passes != [] {
      var p := passes[0];
      var q' := Tick(q, p.now, p.answers).0;
      assert q.slots[0] in q.slots && q.slots[1] in q.slots;
      OverdueServeDecreases(q.slots, p.now, p.answers);
      IdleServe(q.slots, p.now, p.answers);
      assert AllOverdue(q', passes[1..]) by {
        forall k, s | 0 <= k < |passes[1..]| && s in q'.slots ensures Overdue(s, passes[1..][k].now) {
          assert passes[1..][k] == passes[k + 1];
        }
      }
      OverdueQueueDrains(q', passes[1..]);
    }
  }

  lemma IdleServe(slots: Slots, now: nat, answers: seq<Answers>)
    requires |answers| == 2
    ensures Measure(slots) == 0 ==> Serve(slots, 0, now, answers) == (slots, []) && slots == [Empty, Empty]
  {}

  // ---- Runs: arrivals and passes in any order -------------------------------

  /** `time` counts milliseconds since boot without wrapping; the code sees it
      modulo 2^32. */
  datatype Event = Arrival(job: Job) | PassAt(time: nat, answers: seq<Answers>)

  type Events = s: seq<Event> | forall k | 0 <= k < |s| && s[k].PassAt? :: |s[k].answers| == 2

  function Run(events: Events): Queue {
    if events == [] then BOOT
    else
      var q := Run(events[..|events| - 1]);
      match events[|events| - 1]
      case Arrival(job) => Enqueue(q, job)
      case PassAt(time, answers) => Tick(q, Clock(time), answers).0
  }

  /** The turns taken at event `k`. */
  function TurnsAt(events: Events, k: nat): seq<Turn>
    requires k < |events|
  {
    if events[k].PassAt? then Tick(Run(events[..k]), Clock(events[k].time), events[k].answers).1 else []
  }

  predicate TransmitsAt(events: Events, k: nat)
    requires k < |events|
  {
    events[k].PassAt? && AnyTransmits(TurnsAt(events, k))
  }

  predicate InOrder(events: Events) {
    forall i, j | 0 <= i <= j < |events| && events[i].PassAt? && events[j].PassAt? ::
      events[i].time <= events[j].time
  }

  /** Only a transmission moves `lastReplyMs`. */
  lemma LastReplyStep(events: Events, before: Events, n: nat)
    requires events != [] && n == |events| - 1 && before == events[..n]
    ensures Run(events).lastReplyMs
      == if TransmitsAt(events, n) then Clock(events[n].time) else Run(before).lastReplyMs
  {}

  lemma TransmitsPrefix(events: Events, n: nat, i: nat)
    requires i < n <= |events|
    ensures TransmitsAt(events[..n], i) <==> TransmitsAt(events, i)
  {
    assert events[..n][..i] == events[..i];
  }

  /** `lastReplyMs` is the clock of transmission `l`. */
  predicate StoredFrom(events: Events, l: nat) {
    l < |events| && TransmitsAt(events, l) && Run(events).lastReplyMs == Clock(events[l].time)
  }

  lemma StoredStays(events: Events, n: nat, l: nat)
    requires n + 1 == |events| && !TransmitsAt(events, n) && StoredFrom(events[..n], l)
    ensures StoredFrom(events, l)
  {
    LastReplyStep(events, events[..n], n);
    TransmitsPrefix(events, n, l);
  }

  /** `lastReplyMs` is the clock of the latest transmission. */
  lemma {:induction false} LastReplyIsLatest(events: Events, i: nat) returns (l: nat)
    requires i < |events| && TransmitsAt(events, i)
    ensures i <= l && StoredFrom(events, l)
    decreases |events|
  {
    var n := |events| - 1;
    if TransmitsAt(events, n) {
      LastReplyStep(events, events[..n], n);
      l := n;
    } else {
      TransmitsPrefix(events, n, i);
      l := LastReplyIsLatest(events[..n], i);
      StoredStays(events, n, l);
    }
  }

  /** Any two transmissions are at least five seconds apart, unless the earlier
      one fell on a clock reading of zero, which the code takes for "never". */
  lemma TransmissionsAreSpaced(events: Events, i: nat, j: nat)
    requires InOrder(events) && i < j < |events|
    requires TransmitsAt(events, i) && TransmitsAt(events, j)
    requires forall k | i <= k < j && TransmitsAt(events, k) :: Clock(events[k].time) != 0
    ensures events[j].time - events[i].time >= 5000
  {
    var before: Events := events[..j];
    assert before[..i] == events[..i];
    var l := LastReplyIsLatest(before, i);
    assert before[..l] == events[..l];
    AgeBelowGap(events[l].time, events[j].time);
  }

  /** The rule the spacing rests on, exactly: after a transmission at clock
      reading `then` the next pass works if `then` was zero or five seconds of
      clock have gone by. */
  lemma SpacedAfterTransmission(q: Queue, then_: nat, now: nat, answers: seq<Answers>)
    requires |answers| == 2 && AnyTransmits(Tick(q, then_, answers).1)
    ensures Spaced(Tick(q, then_, answers).0, now) <==> then_ == 0 || Age(now, then_) >= 5000
  {}

  /** A transmission on clock reading zero, at boot or when the clock wraps, is
      forgotten: the next one can follow a millisecond later. */
  lemma ZeroReadingBunches(a: Job, b: Job, time: nat) returns (events: Events)
    requires Clock(time) == 0
    ensures |events| == 4 && InOrder(events) && TransmitsAt(events, 2) && TransmitsAt(events, 3)
    ensures events[2].PassAt? && events[3].PassAt? && events[2].time == time && events[3].time == time + 1
  {
    var yes := [Answers(false, false, true, true), Answers(false, false, true, true)];
    var two := Queue([Waiting(a, false), Waiting(b, false)], 0);
    var one := Queue([Empty, Waiting(b, false)], 0);
    events := [Arrival(a), Arrival(b), PassAt(time, yes), PassAt(time + 1, yes)];
    assert events[..0] == [] && events[..1] == [events[0]] && events[..2] == [events[0], events[1]];
    assert [events[0], events[1]][..1] == [events[0]] && [events[0]][..0] == [];
    assert events[..3] == [events[0], events[1], events[2]] && events[..3][..2] == events[..2];
    assert Run(events[..1]) == Enqueue(BOOT, a);
    assert Run(events[..2]) == Enqueue(Run(events[..1]), b) == two;
    FirstReplies(two.slots, 0, yes);
    FirstReplies(one.slots, Clock(time + 1), yes);
  }

  /** With the identity and a path known, the first waiting job is replied to. */
  lemma FirstReplies(slots: Slots, now: nat, yes: seq<Answers>)
    requires |yes| == 2 && forall k | 0 <= k < 2 :: yes[k] == Answers(false, false, true, true)
    requires slots[0].Waiting? || slots[1].Waiting?
    ensures var i := if slots[0].Waiting? then 0 else 1;
      Serve(slots, 0, now, yes) == (slots[i := Empty], [Turn(slots[i].job, RepliedOpportunistic)])
    ensures AnyTransmits(Serve(slots, 0, now, yes).1)
  {
    assert slots[0].Empty? ==> Serve(slots, 0, now, yes) == Serve(slots, 1, now, yes);
    assert Serve(slots, 0, now, yes).1[0].outcome.Transmits();
  }

  lemma AgeBelowGap(earlier: nat, later: nat)
    requires earlier <= later
    ensures Age(Clock(later), Clock(earlier)) <= later - earlier
  {}

  // ---- Conservation ----------------------------------------------------------
  // Counted job by job: how often `x` was accepted, answered, given up and is
  // still waiting.

  function PendingCount(slots: Slots, x: Job): nat {
    SlotCount(slots[0], x) + SlotCount(slots[1], x)
  }

  function SlotCount(s: Slot, x: Job): nat {
    if s.Waiting? && s.job == x then 1 else 0
  }

  function ReplyCount(turns: seq<Turn>, x: Job): nat {
    if turns == [] then 0
    else (if turns[0].job == x && turns[0].outcome.Replies() then 1 else 0) + ReplyCount(turns[1..], x)
  }

  function GiveUpCount(turns: seq<Turn>, x: Job): nat {
    if turns == [] then 0
    else (if turns[0].job == x && turns[0].outcome.GaveUp? then 1 else 0) + GiveUpCount(turns[1..], x)
  }

  ghost predicate Balanced(slots: Slots, r: (Slots, seq<Turn>), x: Job) {
    PendingCount(slots, x) == PendingCount(r.0, x) + ReplyCount(r.1, x) + GiveUpCount(r.1, x)
  }

  lemma {:induction false} ServeIsBalanced(slots: Slots, i: nat, now: nat, answers: seq<Answers>, x: Job)
    requires i <= 2 && |answers| == 2
    ensures Balanced(slots, Serve(slots, i, now, answers), x)
    decreases 2 - i
  {
    if i < 2 {
      if slots[i].Empty? {
        ServeIsBalanced(slots, i + 1, now, answers, x);
      } else {
        var o := Decide(slots[i], now, answers[i]);
        var slots' := slots[i := After(slots[i], o)];
        var t := Turn(slots[i].job, o);
        if o.Transmits() {
          assert [t][1..] == [];
        } else {
          ServeIsBalanced(slots', i + 1, now, answers, x);
          var rest := Serve(slots', i + 1, now, answers).1;
          assert ([t] + rest)[1..] == rest;
        }
      }
    }
  }

  function Accepts(events: Events, k: nat): bool
    requires k < |events|
  {
    events[k].Arrival? && !Full(Run(events[..k]))
  }

  function AcceptedTimes(events: Events, x: Job): nat {
    if events == [] then 0
    else
      var n := |events| - 1;
      AcceptedTimes(events[..n], x) + (if Accepts(events, n) && events[n].job == x then 1 else 0)
  }

  function RepliedTimes(events: Events, x: Job): nat {
    if events == [] then 0
    else RepliedTimes(events[..|events| - 1], x) + ReplyCount(TurnsAt(events, |events| - 1), x)
  }

  function GivenUpTimes(events: Events, x: Job): nat {
    if events == [] then 0
    else GivenUpTimes(events[..|events| - 1], x) + GiveUpCount(TurnsAt(events, |events| - 1), x)
  }

  /** In every run each accepted command is replied to once, given up once, or
      still pending. */
  lemma {:induction false} CommandsAreConserved(events: Events, x: Job)
    ensures AcceptedTimes(events, x)
      == RepliedTimes(events, x) + GivenUpTimes(events, x) + PendingCount(Run(events).slots, x)
  {
    if events != [] {
      var before: Events := events[..|events| - 1];
      CommandsAreConserved(before, x);
      match events[|events| - 1]
      case Arrival(job) =>
      case PassAt(time, answers) => ServeIsBalanced(Run(before).slots, 0, Clock(time), answers, x);
    }
  }
}
