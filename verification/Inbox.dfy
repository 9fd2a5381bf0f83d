/** The LXMF inbox as it runs: static tables overwritten in place by message
    callbacks and by the main loop, and the runs they go through together. */
module Inbox {
  import opened Basics
  import opened Bits
  import opened MsgpackReader
  import Command
  import Cooldown
  import Lxmf
  import MessageRing
  import ReplyQueue

  type Answers = ReplyQueue.Answers

  /** Everything the inbox remembers. */
  datatype State = State(ring: MessageRing.Ring, table: Cooldown.Table, queue: ReplyQueue.Queue)

  const BOOT: State := State(MessageRing.BOOT, Cooldown.BOOT, ReplyQueue.BOOT)

  /** What the inbox makes of a message it would answer. */
  datatype Request = Request(id: MessageRing.Id, src: seq<byte>, kind: Command.Kind, stamp: Numeric)

  /** The request in a message, if it is one. Signature bytes identify it. */
  function RequestOf(data: seq<byte>): Option<Request> {
    match Lxmf.Unpacked(data)
    case None => None
    case Some(m) =>
      var kind := Command.Matched(m.content);
      if kind == Command.NoCommand then None else Some(Request(data[32..40], m.source, kind, m.timestamp))
  }

  function JobOf(r: Request, linked: bool, t0: nat): ReplyQueue.Job {
    ReplyQueue.Job(r.src, r.kind, t0, r.stamp, linked)
  }

  /** The inbox after a request: duplicates are told first, then the cooldown is
      charged, and only then is the queue asked. */
  function Offered(s: State, r: Request, linked: bool, now: nat, t0: nat): State
    requires s.ring.Valid()
  {
    var ring := MessageRing.Offer(s.ring, r.id);
    if MessageRing.Seen(s.ring, r.id) then s
    else if !Cooldown.Admits(s.table, r.src, now) then s.(ring := ring)
    else State(ring, Cooldown.Admit(s.table, r.src, now), ReplyQueue.Enqueue(s.queue, JobOf(r, linked, t0)))
  }

  /** The inbox after a pass of the main loop. */
  function Ticked(s: State, online: bool, now: nat, answers: seq<Answers>): State
    requires |answers| == 2
  {
    if !online then s else s.(queue := ReplyQueue.Tick(s.queue, now, answers).0)
  }

  // ---- Runs -----------------------------------------------------------------

  /** What happens to the inbox. Times count milliseconds since boot; the code
      sees them modulo 2^32. */
  datatype Event =
    | Arrive(request: Request, linked: bool, time: nat, t0: nat)
    | Pass(online: bool, time: nat, answers: seq<Answers>)

  type Events = s: seq<Event> | forall k | 0 <= k < |s| && s[k].Pass? :: |s[k].answers| == 2

  function Step(s: State, e: Event): (s': State)
    requires s.ring.Valid() && (e.Pass? ==> |e.answers| == 2)
    ensures s'.ring.Valid()
  {
    match e
    case Arrive(request, linked, time, t0) =>
      Offered(s, request, linked, Clock(time), Clock(t0))
    case Pass(online, time, answers) => Ticked(s, online, Clock(time), answers)
  }

  function Run(events: Events): (s: State)
    ensures s.ring.Valid()
  {
    if events == [] then BOOT
    else Step(Run(events[..|events| - 1]), events[|events| - 1])
  }

  /** Request `k` is not a duplicate. */
  predicate Fresh(events: Events, k: nat)
    requires k < |events|
  {
    events[k].Arrive? && !MessageRing.Seen(Run(events[..k]).ring, events[k].request.id)
  }

  /** ... and its sender is not cooling down. */
  predicate Admitted(events: Events, k: nat)
    requires k < |events|
  {
    Fresh(events, k)
    && Cooldown.Admits(Run(events[..k]).table, events[k].request.src, Clock(events[k].time))
  }

  /** What each table saw of the run. */
  function Ids(events: Events): seq<MessageRing.Id> {
    if events == [] then []
    else
      var n := |events| - 1;
      Ids(events[..n]) + (if events[n].Arrive? then [events[n].request.id] else [])
  }

  function AttemptOf(e: Event): Cooldown.Attempt
    requires e.Arrive?
  {
    Cooldown.Attempt(e.request.src, Clock(e.time))
  }

  function Attempts(events: Events): seq<Cooldown.Attempt> {
    if events == [] then []
    else
      var n := |events| - 1;
      Attempts(events[..n]) + (if Fresh(events, n) then [AttemptOf(events[n])] else [])
  }

  function QueueEvents(events: Events): (es: ReplyQueue.Events) {
    if events == [] then []
    else
      var n := |events| - 1;
      var e := events[n];
      var before := QueueEvents(events[..n]);
      if Admitted(events, n) then before + [ReplyQueue.Arrival(JobOf(e.request, e.linked, Clock(e.t0)))]
      else if e.Pass? && e.online then before + [ReplyQueue.PassAt(e.time, e.answers)]
      else before
  }

  lemma RingStep(ids: seq<MessageRing.Id>, id: MessageRing.Id)
    ensures MessageRing.Run(ids + [id]) == MessageRing.Offer(MessageRing.Run(ids), id)
  {
    assert (ids + [id])[..|ids|] == ids;
  }

  lemma TableStep(attempts: seq<Cooldown.Attempt>, a: Cooldown.Attempt)
    ensures Cooldown.Run(attempts + [a]) == Cooldown.Admit(Cooldown.Run(attempts), a.src, a.now)
  {
    assert (attempts + [a])[..|attempts|] == attempts;
  }

  lemma ArrivalStep(es: ReplyQueue.Events, job: ReplyQueue.Job)
    ensures ReplyQueue.Run(es + [ReplyQueue.Arrival(job)]) == ReplyQueue.Enqueue(ReplyQueue.Run(es), job)
  {
    assert (es + [ReplyQueue.Arrival(job)])[..|es|] == es;
  }

  lemma PassStep(es: ReplyQueue.Events, time: nat, answers: seq<Answers>)
    requires |answers| == 2
    ensures ReplyQueue.Run(es + [ReplyQueue.PassAt(time, answers)])
      == ReplyQueue.Tick(ReplyQueue.Run(es), Clock(time), answers).0
  {
    assert (es + [ReplyQueue.PassAt(time, answers)])[..|es|] == es;
  }

  lemma RunSplits(events: Events)
    requires events != []
    ensures Run(events) == Step(Run(events[..|events| - 1]), events[|events| - 1])
  {}

  /** Each table goes through the run of its own that the other modules reason
      about: the ring sees every request, the cooldown every fresh one, the
      queue every admitted one and every pass made while the radio is up. */
  lemma {:induction false} RunProjects(events: Events)
    ensures Run(events)
      == State(MessageRing.Run(Ids(events)), Cooldown.Run(Attempts(events)), ReplyQueue.Run(QueueEvents(events)))
  {
    if events != [] {
      var before: Events := events[..|events| - 1];
      RunProjects(before);
      RunSplits(events);
      if events[|events| - 1].Arrive? {
        ArriveProjects(before, events[|events| - 1], events);
      } else {
        PassProjects(before, events[|events| - 1], events);
      }
    }
  }

  lemma PassProjects(before: Events, e: Event, events: Events)
    requires e.Pass? && |e.answers| == 2
    requires events != [] && before == events[..|events| - 1] && e == events[|events| - 1]
    ensures Ids(events) == Ids(before) && Attempts(events) == Attempts(before)
    ensures ReplyQueue.Run(QueueEvents(events))
      == if e.online then ReplyQueue.Tick(ReplyQueue.Run(QueueEvents(before)), Clock(e.time), e.answers).0
         else ReplyQueue.Run(QueueEvents(before))
  {
    if e.online {
      PassStep(QueueEvents(before), e.time, e.answers);
    }
  }

  /** The three parts of a request's step, as the tables see them. */
  lemma OfferedParts(s: State, r: Request, linked: bool, now: nat, t0: nat, isFresh: bool, admitted: bool)
    requires s.ring.Valid() && isFresh == !MessageRing.Seen(s.ring, r.id)
    requires admitted == (isFresh && Cooldown.Admits(s.table, r.src, now))
    ensures var s' := Offered(s, r, linked, now, t0);
      && s'.ring == MessageRing.Offer(s.ring, r.id)
      && s'.table == (if isFresh then Cooldown.Admit(s.table, r.src, now) else s.table)
      && s'.queue == (if admitted then ReplyQueue.Enqueue(s.queue, JobOf(r, linked, t0)) else s.queue)
  {}

  lemma ArriveProjects(before: Events, e: Event, events: Events)
    requires e.Arrive? && events != [] && before == events[..|events| - 1] && e == events[|events| - 1]
    requires Run(before)
      == State(MessageRing.Run(Ids(before)), Cooldown.Run(Attempts(before)), ReplyQueue.Run(QueueEvents(before)))
    ensures Step(Run(before), e)
      == State(MessageRing.Run(Ids(events)), Cooldown.Run(Attempts(events)), ReplyQueue.Run(QueueEvents(events)))
  {
    var s, clock := Run(before), Clock(e.time);
    var isFresh := !MessageRing.Seen(s.ring, e.request.id);
    var admitted := isFresh && Cooldown.Admits(s.table, e.request.src, clock);
    OfferedParts(s, e.request, e.linked, clock, Clock(e.t0), isFresh, admitted);
    ProjectionsStep(before, e, events, isFresh, admitted);
    RingStep(Ids(before), e.request.id);
    if isFresh {
      TableStep(Attempts(before), AttemptOf(e));
    }
    if admitted {
      ArrivalStep(QueueEvents(before), JobOf(e.request, e.linked, Clock(e.t0)));
    }
  }

  lemma ProjectionsStep(before: Events, e: Event, events: Events, isFresh: bool, admitted: bool)
    requires e.Arrive? && events != [] && before == events[..|events| - 1] && e == events[|events| - 1]
    requires isFresh == !MessageRing.Seen(Run(before).ring, e.request.id)
    requires admitted == (isFresh && Cooldown.Admits(Run(before).table, e.request.src, Clock(e.time)))
    ensures Ids(events) == Ids(before) + [e.request.id]
    ensures Attempts(events) == if isFresh then Attempts(before) + [AttemptOf(e)] else Attempts(before)
    ensures QueueEvents(events)
      == if admitted then QueueEvents(before) + [ReplyQueue.Arrival(JobOf(e.request, e.linked, Clock(e.t0)))]
         else QueueEvents(before)
  {}

  // ---- Admissions of one sender -------------------------------------------------------

  /** Where an event ends; a message takes its second clock reading last. */
  function EndOf(e: Event): nat {
    if e.Arrive? then e.t0 else e.time
  }

  predicate InOrder(events: Events) {
    && (forall k | 0 <= k < |events| :: events[k].time <= EndOf(events[k]))
    && (forall i, j | 0 <= i < j < |events| :: EndOf(events[i]) <= events[j].time)
  }

  /** Attempts of a part of the run come first, and the attempt of a fresh
      request follows those before it. */
  lemma {:induction false} AttemptsPrefix(events: Events, k: nat)
    requires k <= |events|
    ensures var n := |Attempts(events[..k])|;
      && n <= |Attempts(events)| && Attempts(events)[..n] == Attempts(events[..k])
      && (k < |events| && Fresh(events, k) ==> n < |Attempts(events)| && Attempts(events)[n] == AttemptOf(events[k]))
    decreases events
  {
    if k == |events| {
      assert events[..k] == events;
    } else {
      var before: Events := events[..|events| - 1];
      assert before[..k] == events[..k];
      AttemptsPrefix(before, k);
      if k < |before| {
        assert Fresh(before, k) == Fresh(events, k);
      }
    }
  }

  lemma AttemptsGrow(events: Events, k: nat, l: nat)
    requires k <= l <= |events|
    ensures |Attempts(events[..k])| <= |Attempts(events[..l])|
    ensures k < l && Fresh(events, k) ==> |Attempts(events[..k])| < |Attempts(events[..l])|
  {
    assert events[..l][..k] == events[..k];
    AttemptsPrefix(events[..l], k);
  }

  /** The request behind attempt `n`. */
  lemma {:induction false} AttemptOrigin(events: Events, n: nat) returns (k: nat)
    requires n < |Attempts(events)|
    ensures k < |events| && Fresh(events, k) && |Attempts(events[..k])| == n
    decreases events
  {
    var before: Events := events[..|events| - 1];
    if n < |Attempts(before)| {
      k := AttemptOrigin(before, n);
      assert before[..k] == events[..k];
    } else {
      k := |before|;
    }
  }

  lemma AttemptAdmitted(events: Events, k: nat)
    requires k < |events| && Fresh(events, k)
    ensures var n := |Attempts(events[..k])|;
      && n < |Attempts(events)| && Attempts(events)[n] == AttemptOf(events[k])
      && Cooldown.Admitted(Attempts(events), n) == Admitted(events, k)
  {
    AttemptsPrefix(events, k);
    RunProjects(events[..k]);
  }

  /** What attempt `n` is, in terms of the request behind it. */
  lemma AttemptIs(events: Events, n: nat) returns (k: nat)
    requires n < |Attempts(events)|
    ensures k < |events| && Fresh(events, k) && |Attempts(events[..k])| == n
    ensures Attempts(events)[n] == AttemptOf(events[k])
    ensures Cooldown.Admitted(Attempts(events), n) == Admitted(events, k)
  {
    k := AttemptOrigin(events, n);
    AttemptAdmitted(events, k);
  }

  /** Before the clock wraps. */
  predicate BeforeWrap(events: Events) {
    InOrder(events) && forall k | 0 <= k < |events| :: events[k].time < Cooldown.CLOCK
  }

  lemma TimesGrow(events: Events, i: nat, j: nat)
    requires InOrder(events) && i <= j < |events|
    ensures events[i].time <= events[j].time
  {}

  lemma ReadingIsTime(events: Events, k: nat)
    requires BeforeWrap(events) && k < |events| && events[k].Arrive?
    ensures AttemptOf(events[k]) == Cooldown.Attempt(events[k].request.src, events[k].time)
    ensures events[k].time < Cooldown.CLOCK
  {}

  /** Attempt `n` is the request `k`, with its reading not yet wrapped. */
  lemma AttemptWas(events: Events, n: nat) returns (k: nat)
    requires BeforeWrap(events) && n < |Attempts(events)|
    ensures k < |events| && Fresh(events, k) && events[k].Arrive? && |Attempts(events[..k])| == n
    ensures Attempts(events)[n] == Cooldown.Attempt(events[k].request.src, events[k].time)
    ensures events[k].time < Cooldown.CLOCK
    ensures Cooldown.Admitted(Attempts(events), n) == Admitted(events, k)
  {
    k := AttemptIs(events, n);
    ReadingIsTime(events, k);
  }

  lemma AttemptsOrdered(events: Events)
    requires BeforeWrap(events)
    ensures Cooldown.Ordered(Attempts(events))
  {
    hide Attempts, Fresh, InOrder, BeforeWrap;
    var attempts := Attempts(events);
    forall m, n | 0 <= m <= n < |attempts| ensures attempts[m].now <= attempts[n].now < Cooldown.CLOCK {
      AttemptsInOrder(events, m, n);
    }
  }

  lemma AttemptsInOrder(events: Events, m: nat, n: nat)
    requires BeforeWrap(events) && m <= n < |Attempts(events)|
    ensures Attempts(events)[m].now <= Attempts(events)[n].now < Cooldown.CLOCK
  {
    hide Attempts, Fresh, InOrder, Admitted;
    var k := AttemptWas(events, m);
    var l := AttemptWas(events, n);
    if l < k {
      AttemptsGrow(events, l, k);
    } else {
      TimesGrow(events, k, l);
    }
  }

  /** The other senders admitted before event `j`, at `since` or later. */
  function OthersAdmitted(events: Events, j: nat, src: seq<byte>, since: nat): set<seq<byte>> {
    set k: nat | k < j && k < |events| && Admitted(events, k) && events[k].time >= since && events[k].request.src != src
      :: events[k].request.src
  }

  lemma OtherWas(events: Events, j: nat, src: seq<byte>, since: nat, o: seq<byte>) returns (k: nat)
    requires j <= |events| && o in OthersAdmitted(events, j, src, since)
    ensures k < j && Fresh(events, k) && events[k].Arrive? && Admitted(events, k)
    ensures events[k].time >= since && events[k].request.src == o != src
  {
    k :| 0 <= k < j && Admitted(events, k) && events[k].time >= since
         && events[k].request.src != src && events[k].request.src == o;
  }

  lemma AttemptOfOther(attempts: seq<Cooldown.Attempt>, src: seq<byte>, since: nat, o: seq<byte>) returns (n: nat)
    requires o in Cooldown.OthersSince(attempts, src, since)
    ensures n < |attempts| && Cooldown.Admitted(attempts, n) && attempts[n].now >= since && attempts[n].src == o != src
  {
    n :| 0 <= n < |attempts| && Cooldown.Admitted(attempts, n) && attempts[n].now >= since
         && attempts[n].src != src && attempts[n].src == o;
  }

  lemma OtherAttempt(attempts: seq<Cooldown.Attempt>, n: nat, src: seq<byte>, since: nat)
    requires n < |attempts| && Cooldown.Admitted(attempts, n) && attempts[n].now >= since && attempts[n].src != src
    ensures attempts[n].src in Cooldown.OthersSince(attempts, src, since)
  {}

  lemma OtherRequest(events: Events, k: nat, src: seq<byte>, since: nat)
    requires k < |events| && events[k].Arrive? && Admitted(events, k)
    requires events[k].time >= since && events[k].request.src != src
    ensures events[k].request.src in OthersAdmitted(events, |events|, src, since)
  {}

  lemma OthersAreOthers(events: Events, src: seq<byte>, since: nat)
    requires BeforeWrap(events)
    ensures Cooldown.OthersSince(Attempts(events), src, since) == OthersAdmitted(events, |events|, src, since)
  {
    hide Attempts, Fresh, Admitted, InOrder, BeforeWrap, OthersAdmitted;
    var here, there := OthersAdmitted(events, |events|, src, since), Cooldown.OthersSince(Attempts(events), src, since);
    forall o | o in there ensures o in here {
      var n := AttemptOfOther(Attempts(events), src, since, o);
      var k := AttemptWas(events, n);
      OtherRequest(events, k, src, since);
    }
    forall o | o in here ensures o in there {
      var k := OtherWas(events, |events|, src, since, o);
      AttemptAdmitted(events, k);
      ReadingIsTime(events, k);
      OtherAttempt(Attempts(events), |Attempts(events[..k])|, src, since);
    }
  }

  lemma AdmittedIsFresh(events: Events, k: nat)
    requires k < |events| && Admitted(events, k)
    ensures Fresh(events, k) && events[k].Arrive?
  {}

  lemma OthersPrefix(events: Events, j: nat, src: seq<byte>, since: nat)
    requires j <= |events|
    ensures OthersAdmitted(events[..j], j, src, since) == OthersAdmitted(events, j, src, since)
  {
    forall k: nat | k < j ensures Admitted(events[..j], k) == Admitted(events, k) && events[..j][k] == events[k] {
      assert events[..j][..k] == events[..k];
    }
  }

  /** `i` is the latest admission of the sender of the fresh request `j`. */
  predicate LatestAdmission(events: Events, i: nat, j: nat) {
    && i < j < |events| && Admitted(events, i) && Fresh(events, j) && events[i].request.src == events[j].request.src
    && forall k | i < k < j && events[k].Arrive? && events[k].request.src == events[j].request.src ::
         !Admitted(events, k)
  }

  /** No other sender was admitted, up to event `j`, at the very reading of
      admission `i`. */
  predicate Untied(events: Events, i: nat, j: nat)
    requires i < |events| && events[i].Arrive? && j <= |events|
  {
    forall k | 0 <= k < j && Admitted(events, k) && events[k].request.src != events[i].request.src ::
      events[k].time != events[i].time
  }

  lemma LatestAttempt(events: Events, i: nat, j: nat)
    requires j + 1 == |events| && LatestAdmission(events, i, j)
    ensures var a, b := |Attempts(events[..i])|, |Attempts(events[..j])|;
      && b + 1 == |Attempts(events)| && Attempts(events)[..b] == Attempts(events[..j])
      && Cooldown.LatestAdmission(Attempts(events), a, b)
  {
    var attempts, a, b := Attempts(events), |Attempts(events[..i])|, |Attempts(events[..j])|;
    AttemptAdmitted(events, i);
    AttemptAdmitted(events, j);
    AttemptsGrow(events, i, j);
    forall n | a < n < b && attempts[n].src == attempts[b].src ensures !Cooldown.Admitted(attempts, n) {
      var k := AttemptIs(events, n);
      if k <= i {
        AttemptsGrow(events, k, i);
      } else if k >= j {
        AttemptsGrow(events, j, k);
      }
    }
  }

  lemma UntiedAttempt(events: Events, i: nat)
    requires BeforeWrap(events) && i < |events| && Fresh(events, i) && events[i].Arrive? && Untied(events, i, |events|)
    ensures var a := |Attempts(events[..i])|; a < |Attempts(events)| && Cooldown.Untied(Attempts(events), a)
  {
    hide Attempts, Fresh, InOrder, BeforeWrap;
    var attempts, a := Attempts(events), |Attempts(events[..i])|;
    AttemptAdmitted(events, i);
    ReadingIsTime(events, i);
    forall n | 0 <= n < |attempts| && Cooldown.Admitted(attempts, n) && attempts[n].src != attempts[a].src
      ensures attempts[n].now != attempts[a].now
    {
      var k := AttemptWas(events, n);
    }
  }

  lemma UntiedPrefix(events: Events, i: nat, j: nat)
    requires i < j <= |events| && events[i].Arrive? && Untied(events, i, j)
    ensures Untied(events[..j], i, j)
  {
    forall k | 0 <= k < j ensures Admitted(events[..j], k) == Admitted(events, k) && events[..j][k] == events[k] {
      assert events[..j][..k] == events[..k];
    }
  }

  /** In every run of messages and passes before the clock wraps: a fresh request
      is admitted after its sender's latest admission just when 15 s have gone by
      or four other senders were admitted since. */
  lemma AdmittedAgainIff(events: Events, i: nat, j: nat)
    requires BeforeWrap(events) && LatestAdmission(events, i, j) && Untied(events, i, j)
    ensures Admitted(events, j) <==>
      || events[j].time - events[i].time >= 15000
      || |OthersAdmitted(events, j, events[i].request.src, events[i].time)| >= 4
  {
    var upTo: Events := events[..j + 1];
    PrefixAdmission(events, i, j);
    PrefixBeforeWrap(events, j);
    LatestAttempt(upTo, i, j);
    LastIsAdmittedIff(upTo, i, j);
    assert upTo[..j] == events[..j];
    OthersPrefix(events, j, events[i].request.src, events[i].time);
  }

  lemma PrefixBeforeWrap(events: Events, j: nat)
    requires BeforeWrap(events) && j < |events|
    ensures BeforeWrap(events[..j + 1]) && BeforeWrap(events[..j])
  {}

  /** The rule for the last event of a run. */
  lemma LastIsAdmittedIff(events: Events, i: nat, j: nat)
    requires BeforeWrap(events) && j + 1 == |events| && LatestAdmission(events, i, j) && Untied(events, i, j)
    requires BeforeWrap(events[..j])
    ensures Admitted(events, j) <==>
      || events[j].time - events[i].time >= 15000
      || |OthersAdmitted(events[..j], j, events[i].request.src, events[i].time)| >= 4
  {
    hide Attempts, InOrder, BeforeWrap, OthersAdmitted, Untied, Admitted;
    var a, b := |Attempts(events[..i])|, |Attempts(events[..j])|;
    AdmittedIsFresh(events, i);
    LatestAttempt(events, i, j);
    AttemptsOrdered(events);
    UntiedPrefix(events, i, j);
    PrefixFresh(events, i, j);
    UntiedAttempt(events[..j], i);
    AttemptAdmitted(events, i);
    AttemptAdmitted(events, j);
    ReadingIsTime(events, i);
    ReadingIsTime(events, j);
    OthersAreOthers(events[..j], events[i].request.src, events[i].time);
    Cooldown.AdmittedAgainIff(Attempts(events), a, b);
  }

  lemma PrefixFresh(events: Events, i: nat, j: nat)
    requires i < j <= |events| && Fresh(events, i)
    ensures Fresh(events[..j], i) && events[..j][..i] == events[..i]
  {
    assert events[..j][..i] == events[..i];
  }

  lemma PrefixAdmission(events: Events, i: nat, j: nat)
    requires LatestAdmission(events, i, j)
    ensures LatestAdmission(events[..j + 1], i, j) && Admitted(events[..j + 1], j) == Admitted(events, j)
    ensures Untied(events, i, j) ==> Untied(events[..j + 1], i, j)
  {
    forall k | 0 <= k <= j
      ensures Admitted(events[..j + 1], k) == Admitted(events, k) && Fresh(events[..j + 1], k) == Fresh(events, k)
    {
      assert events[..j + 1][..k] == events[..k];
    }
  }

  // ---- One message, one reply ------------------------------------------------------

  /** The place of event `k` among the offered ids. */
  lemma {:induction false} IdsPrefix(events: Events, k: nat)
    requires k < |events| && events[k].Arrive?
    ensures var n := |Ids(events[..k])|;
      n < |Ids(events)| && Ids(events)[..n] == Ids(events[..k]) && Ids(events)[n] == events[k].request.id
    decreases events
  {
    var before: Events := events[..|events| - 1];
    if k < |before| {
      assert before[..k] == events[..k];
      IdsPrefix(before, k);
    }
  }

  lemma {:induction false} IdsGrow(events: Events, i: nat, j: nat)
    requires i < j < |events| && events[i].Arrive?
    ensures |Ids(events[..i])| < |Ids(events[..j])|
  {
    assert events[..j][..i] == events[..i];
    IdsPrefix(events[..j], i);
  }

  lemma FreshPasses(events: Events, k: nat)
    requires k < |events| && Fresh(events, k)
    ensures var n := |Ids(events[..k])|; n < |Ids(events)| && MessageRing.Passes(Ids(events), n)
  {
    IdsPrefix(events, k);
    RunProjects(events[..k]);
  }

  /** A message is taken for fresh, and so queued, at most once until eight
      messages with other ids have been. */
  lemma AnsweredOnce(events: Events, i: nat, j: nat)
    requires i < j < |events| && Fresh(events, i) && Fresh(events, j)
    requires events[i].request.id == events[j].request.id
    ensures |MessageRing.PassedBetween(Ids(events), |Ids(events[..i])|, |Ids(events[..j])|)
             - {events[i].request.id}| >= 8
  {
    var a, b := |Ids(events[..i])|, |Ids(events[..j])|;
    IdsGrow(events, i, j);
    IdsPrefix(events, i);
    IdsPrefix(events, j);
    FreshPasses(events, i);
    FreshPasses(events, j);
    MessageRing.EightOthersPassed(Ids(events), a, b);
  }

  // ---- ... but not for good ----------------------------------------------------------

  /** One sender's nine different messages, the first of them sent again when
      its cooldown is over. */
  function RetriedLate(ids: seq<MessageRing.Id>, src: seq<byte>, kind: Command.Kind, stamp: Numeric): Events
    requires |ids| == 9
  {
    seq(10, k requires 0 <= k < 10 =>
      var time := if k == 9 then 15000 else 0;
      Arrive(Request(if k == 9 then ids[0] else ids[k], src, kind, stamp), false, time, time))
  }

  lemma {:induction false} RetriedIds(ids: seq<MessageRing.Id>, src: seq<byte>, kind: Command.Kind, stamp: Numeric,
                                      n: nat)
    requires |ids| == 9 && n <= 10
    ensures Ids(RetriedLate(ids, src, kind, stamp)[..n]) == (ids + [ids[0]])[..n]
  {
    if n > 0 {
      var events := RetriedLate(ids, src, kind, stamp);
      RetriedIds(ids, src, kind, stamp, n - 1);
      assert events[..n][..n - 1] == events[..n - 1];
    }
  }

  lemma RetriedAreFresh(ids: seq<MessageRing.Id>, src: seq<byte>, kind: Command.Kind, stamp: Numeric, k: nat)
    requires |ids| == 9 && MessageRing.Different(ids) && k < 10
    ensures Fresh(RetriedLate(ids, src, kind, stamp), k)
  {
    var events := RetriedLate(ids, src, kind, stamp);
    RetriedIds(ids, src, kind, stamp, k);
    RunProjects(events[..k]);
    MessageRing.ForgottenAfterEight(ids);
    assert MessageRing.Passes(ids + [ids[0]], k);
  }

  /** The sender's slot since its first message, and the queue with that one. */
  function Cooling(src: seq<byte>): Cooldown.Table {
    Cooldown.BOOT[0 := Cooldown.Slot(true, src, 0)]
  }

  function Queued(job: ReplyQueue.Job): ReplyQueue.Queue {
    ReplyQueue.Enqueue(ReplyQueue.BOOT, job)
  }

  lemma CoolingTable(src: seq<byte>)
    ensures Cooldown.Admits(Cooldown.BOOT, src, 0) && Cooldown.Admit(Cooldown.BOOT, src, 0) == Cooling(src)
    ensures !Cooldown.Admits(Cooling(src), src, 0) && Cooldown.Admits(Cooling(src), src, 15000)
  {
    Cooldown.FreeSlotTaken(Cooldown.BOOT, 0, src, 0);
    assert Cooldown.Find(Cooling(src), src, 0) == 0;
  }

  /** All but the first of the nine only make the ring forget it. */
  lemma {:induction false} RetriedState(ids: seq<MessageRing.Id>, src: seq<byte>, kind: Command.Kind, stamp: Numeric,
                                        n: nat)
    requires |ids| == 9 && MessageRing.Different(ids) && 1 <= n <= 9
    ensures var s := Run(RetriedLate(ids, src, kind, stamp)[..n]);
      s.table == Cooling(src) && s.queue == Queued(ReplyQueue.Job(src, kind, 0, stamp, false))
  {
    var events := RetriedLate(ids, src, kind, stamp);
    assert events[..n][..n - 1] == events[..n - 1];
    RunSplits(events[..n]);
    RetriedAreFresh(ids, src, kind, stamp, n - 1);
    CoolingTable(src);
    if n == 1 {
      assert Run(events[..0]) == BOOT;
    } else {
      RetriedState(ids, src, kind, stamp, n - 1);
    }
  }

  /** Sent again after its sender's cooldown and eight other messages, a message
      is accepted a second time, even while the first reply is still pending. */
  lemma AnsweredTwice(ids: seq<MessageRing.Id>, src: seq<byte>, kind: Command.Kind, stamp: Numeric)
    requires |ids| == 9 && MessageRing.Different(ids)
    ensures var events := RetriedLate(ids, src, kind, stamp);
      && events[0].request == events[9].request && Admitted(events, 0) && Admitted(events, 9)
      && Run(events).queue.slots == [ReplyQueue.Waiting(ReplyQueue.Job(src, kind, 0, stamp, false), false),
                                     ReplyQueue.Waiting(ReplyQueue.Job(src, kind, 15000, stamp, false), false)]
  {
    var events := RetriedLate(ids, src, kind, stamp);
    RetriedAreFresh(ids, src, kind, stamp, 0);
    RetriedAreFresh(ids, src, kind, stamp, 9);
    CoolingTable(src);
    assert Run(events[..0]) == BOOT;
    RetriedState(ids, src, kind, stamp, 9);
    RunSplits(events);
  }

  /** The inbox after any message. */
  function Handled(s: State, data: seq<byte>, linked: bool, now: nat, t0: nat): State
    requires s.ring.Valid()
  {
    var r := RequestOf(data);
    if r.None? then s else Offered(s, r.value, linked, now, t0)
  }

  // ---- Messages, from their bytes ------------------------------------------------

  /** What a sender's LXMF stack packs into a message. */
  datatype Draft = Draft(own: seq<byte>, text: seq<byte>, fields: seq<byte>, timestamp: nat, clock: nat,
                         sign: Lxmf.Signer)

  ghost predicate SentAs(d: Draft, dest: seq<byte>, message: seq<byte>) {
    && |dest| == 16 && Lxmf.Doubles(d.timestamp, d.clock) && |d.text| < 0x1_0000_0000
    && Lxmf.Packed(Some(dest), d.own, d.text, d.fields, d.timestamp, d.clock, d.sign) == Some(message)
  }

  /** The signature the sender computes over the rest of the message. */
  function SignatureOf(d: Draft, message: seq<byte>): seq<byte>
    requires |message| > 96
  {
    d.sign(message[..32] + message[96..])
  }

  /** The command a draft asks for. */
  function Asks(d: Draft): Command.Kind {
    Command.Matched(Lxmf.Content(Command.CString(d.text)))
  }

  /** A packed command is recognised: as coming from its sender, with its kind and
      its timestamp, and under the first eight bytes of its signature. */
  lemma SentIsRequest(d: Draft, dest: seq<byte>, message: seq<byte>)
    requires SentAs(d, dest, message)
    ensures |message| > 96 && |SignatureOf(d, message)| == 64
    ensures RequestOf(message)
      == if Asks(d) == Command.NoCommand then None
         else Some(Request(SignatureOf(d, message)[..8], d.own, Asks(d),
                           Double(if 0 < d.timestamp <= 0x7ff0_0000_0000_0000 then d.timestamp else d.clock)))
  {
    hide Command.Matched, Lxmf.Content, Lxmf.Unpacked;
    Lxmf.PackedBytes(dest, d.own, d.text, d.fields, d.timestamp, d.clock, d.sign, message);
    Lxmf.PackedUnpacks(dest, d.own, d.text, d.fields, d.timestamp, d.clock, d.sign, message);
    SliceOfSlice(message, 32, 96, 0, 8);
  }

  /** Two commands count as one message just when their signatures agree on the
      first eight bytes. */
  lemma OneIdIff(d: Draft, e: Draft, dest: seq<byte>, message: seq<byte>, other: seq<byte>)
    requires SentAs(d, dest, message) && SentAs(e, dest, other)
    requires Asks(d) != Command.NoCommand && Asks(e) != Command.NoCommand
    ensures RequestOf(message).Some? && RequestOf(other).Some? && |message| > 96 && |other| > 96
    ensures |SignatureOf(d, message)| == 64 && |SignatureOf(e, other)| == 64
    ensures RequestOf(message).value.id == RequestOf(other).value.id
      <==> SignatureOf(d, message)[..8] == SignatureOf(e, other)[..8]
  {
    SentIsRequest(d, dest, message);
    SentIsRequest(e, dest, other);
  }

  /** The same bytes sent again change nothing, whenever and however they come. */
  lemma ResentIsIgnored(s: State, data: seq<byte>, linked: bool, now: nat, t0: nat, again: bool, later: nat, t1: nat)
    requires s.ring.Valid()
    ensures Handled(Handled(s, data, linked, now, t0), data, again, later, t1) == Handled(s, data, linked, now, t0)
  {
    var r := RequestOf(data);
    if r.Some? {
      OfferIsSeen(s.ring, r.value.id);
    }
  }

  lemma OfferIsSeen(ring: MessageRing.Ring, id: MessageRing.Id)
    requires ring.Valid()
    ensures MessageRing.Seen(MessageRing.Offer(ring, id), id)
  {
    if !MessageRing.Seen(ring, id) {
      assert MessageRing.Offer(ring, id).slots[ring.next] == id;
    }
  }

  /** After boot the commands of two senders whose signatures differ in their
      first eight bytes both wait for their replies, whatever the clock reads. A
      signature that starts with eight zeros is the one a zeroed ring holds. */
  lemma TwoSendersWait(d: Draft, e: Draft, dest: seq<byte>, message: seq<byte>, other: seq<byte>,
                       linked: bool, now: nat, t0: nat, again: bool, later: nat, t1: nat)
    requires SentAs(d, dest, message) && SentAs(e, dest, other) && |message| > 96 && |other| > 96
    requires Asks(d) != Command.NoCommand && Asks(e) != Command.NoCommand && d.own != e.own
    requires var a, b := SignatureOf(d, message), SignatureOf(e, other);
      && |a| == 64 && |b| == 64 && a[..8] != b[..8]
      && a[..8] != [0, 0, 0, 0, 0, 0, 0, 0] && b[..8] != [0, 0, 0, 0, 0, 0, 0, 0]
    ensures var stamp := if 0 < d.timestamp <= 0x7ff0_0000_0000_0000 then d.timestamp else d.clock;
      var stamp' := if 0 < e.timestamp <= 0x7ff0_0000_0000_0000 then e.timestamp else e.clock;
      Handled(Handled(BOOT, message, linked, now, t0), other, again, later, t1).queue.slots
        == [ReplyQueue.Waiting(ReplyQueue.Job(d.own, Asks(d), t0, Double(stamp), linked), false),
            ReplyQueue.Waiting(ReplyQueue.Job(e.own, Asks(e), t1, Double(stamp'), again), false)]
  {
    SentIsRequest(d, dest, message);
    SentIsRequest(e, dest, other);
    TwoRequestsWait(RequestOf(message).value, RequestOf(other).value, linked, now, t0, again, later, t1);
  }

  lemma TwoRequestsWait(r: Request, q: Request, linked: bool, now: nat, t0: nat, again: bool, later: nat, t1: nat)
    requires r.id != q.id && r.id != MessageRing.ZERO_ID && q.id != MessageRing.ZERO_ID && r.src != q.src
    ensures Offered(Offered(BOOT, r, linked, now, t0), q, again, later, t1).queue.slots
      == [ReplyQueue.Waiting(JobOf(r, linked, t0), false), ReplyQueue.Waiting(JobOf(q, again, t1), false)]
  {
    Cooldown.FreeSlotTaken(Cooldown.BOOT, 0, r.src, now);
    var s := Offered(BOOT, r, linked, now, t0);
    assert s.queue.slots == [ReplyQueue.Waiting(JobOf(r, linked, t0), false), ReplyQueue.Empty];
    assert Cooldown.Find(s.table, q.src, 0) == 4;
  }

  // ---- The tables in place -----------------------------------------------------

  class LxmfInbox {
    const pending: array<ReplyQueue.Slot>
    const senders: array<Cooldown.Slot>
    const recent: array<MessageRing.Id>
    var next: nat
    var lastReplyMs: nat

    constructor ()
      ensures Valid() && View() == BOOT
      ensures fresh(pending) && fresh(senders) && fresh(recent)
    {
      pending := new ReplyQueue.Slot[2](_ => ReplyQueue.Empty);
      senders := new Cooldown.Slot[4](_ => Cooldown.FREE);
      recent := new MessageRing.Id[8](_ => MessageRing.ZERO_ID);
      next := 0;
      lastReplyMs := 0;
      new;
      assert pending[..] == ReplyQueue.BOOT.slots;
      assert senders[..] == Cooldown.BOOT;
      assert recent[..] == MessageRing.ZEROS;
    }

    ghost predicate Valid()
      reads this
    {
      pending.Length == 2 && senders.Length == 4 && recent.Length == 8 && next < 8
    }

    ghost function View(): State
      requires Valid()
      reads this, pending, senders, recent
    {
      State(MessageRing.Ring(recent[..], next), senders[..], ReplyQueue.Queue(pending[..], lastReplyMs))
    }

    method SeenBefore(id: MessageRing.Id) returns (seen: bool)
      requires Valid()
      modifies this`next, recent
      ensures Valid() && seen == MessageRing.Seen(old(View()).ring, id)
      ensures View() == old(View()).(ring := MessageRing.Offer(old(View()).ring, id))
    {
      for i := 0 to 8
        invariant id !in recent[..i]
      {
        if recent[i] == id {
          return true;
        }
      }
      recent[next] := id;
      next := (next + 1) % 8;
      return false;
    }

    method FindSender(src: seq<byte>) returns (k: nat)
      requires Valid()
      ensures k == Cooldown.Find(senders[..], src, 0)
    {
      k := 0;
      while k < 4 && !(senders[k].used && senders[k].src == src)
        invariant k <= 4 && Cooldown.Find(senders[..], src, k) == Cooldown.Find(senders[..], src, 0)
      {
        k := k + 1;
      }
    }

    method FindVictim(now: nat) returns (k: nat)
      requires Valid()
      ensures k == Cooldown.Victim(senders[..], now, 0, 0)
    {
      k := 0;
      for i := 0 to 4
        invariant k < 4 && Cooldown.Victim(senders[..], now, i, k) == Cooldown.Victim(senders[..], now, 0, 0)
      {
        if !senders[i].used {
          k := i;
          return;
        }
        if Age(now, senders[i].lastMs) > Age(now, senders[k].lastMs) {
          k := i;
        }
      }
    }

    method SenderAllowed(src: seq<byte>, now: nat) returns (ok: bool)
      requires Valid()
      modifies senders
      ensures Valid() && ok == Cooldown.Admits(old(View()).table, src, now)
      ensures View() == old(View()).(table := Cooldown.Admit(old(View()).table, src, now))
    {
      var k := FindSender(src);
      if k < 4 {
        if Age(now, senders[k].lastMs) < 15000 {
          return false;
        }
      } else {
        k := FindVictim(now);
      }
      senders[k] := Cooldown.Slot(true, src, now);
      return true;
    }

    /** The first free slot takes the job. */
    method EnqueueJob(job: ReplyQueue.Job)
      requires Valid()
      modifies pending
      ensures Valid() && View() == old(View()).(queue := ReplyQueue.Enqueue(old(View()).queue, job))
    {
      for i := 0 to 2
        invariant pending[..] == old(pending[..])
        invariant forall j | 0 <= j < i :: pending[j].Waiting?
      {
        if pending[i].Empty? {
          pending[i] := ReplyQueue.Waiting(job, false);
          return;
        }
      }
    }

    /** A message arrives; `now` and `t0` are the two clock readings taken. */
    method HandleMessage(data: seq<byte>, linked: bool, now: nat, t0: nat)
      requires Valid()
      modifies this`next, pending, senders, recent
      ensures Valid() && View() == Handled(old(View()), data, linked, now, t0)
    {
      var r := Recognized(data);
      if r.Some? {
        AdmitRequest(r.value, linked, now, t0);
      }
    }

    method Recognized(data: seq<byte>) returns (r: Option<Request>)
      ensures r == RequestOf(data)
    {
      var msg := Lxmf.Unpack(data);
      if msg.None? {
        return None;
      }
      var kind := Command.Match(msg.value.content);
      if kind == Command.NoCommand {
        return None;
      }
      return Some(Request(data[32..40], msg.value.source, kind, msg.value.timestamp));
    }

    method AdmitRequest(r: Request, linked: bool, now: nat, t0: nat)
      requires Valid()
      modifies this`next, pending, senders, recent
      ensures Valid() && View() == Offered(old(View()), r, linked, now, t0)
    {
      var seen := SeenBefore(r.id);
      if seen {
        return;
      }
      var allowed := SenderAllowed(r.src, now);
      if !allowed {
        return;
      }
      EnqueueJob(JobOf(r, linked, t0));
    }

    /** One pending reply is moved forward if it can be. */
    method Service(i: nat, now: nat, a: Answers) returns (transmitted: bool)
      requires Valid() && i < 2 && pending[i].Waiting?
      modifies pending
      ensures Valid()
      ensures var p := old(pending[i]);
        pending[..] == old(pending[..])[i := ReplyQueue.After(p, ReplyQueue.Decide(p, now, a))]
      ensures transmitted == ReplyQueue.Decide(old(pending[i]), now, a).Transmits()
    {
      var p := pending[i];
      var age := Age(now, p.job.t0);
      if p.job.linked && a.backchannel {
        pending[i] := ReplyQueue.Empty;
        return true;
      }
      if p.job.linked && a.active && age < 12000 {
        return false;
      }
      if a.known && (a.path || age >= 30000) {
        pending[i] := ReplyQueue.Empty;
        return true;
      }
      if !a.path && !p.pathRequested {
        pending[i] := p.(pathRequested := true);
        return true;
      }
      if age >= 60000 {
        pending[i] := ReplyQueue.Empty;
      }
      return false;
    }

    method Tick(online: bool, now: nat, answers: seq<Answers>)
      requires Valid() && |answers| == 2
      modifies this`lastReplyMs, pending
      ensures Valid() && View() == Ticked(old(View()), online, now, answers)
    {
      if !online {
        return;
      }
      if lastReplyMs != 0 && Age(now, lastReplyMs) < 5000 {
        return;
      }
      ghost var start := pending[..];
      ghost var turns: seq<ReplyQueue.Turn> := [];
      for i := 0 to 2
        invariant Valid() && lastReplyMs == old(lastReplyMs) && !ReplyQueue.AnyTransmits(turns)
        invariant ReplyQueue.Serve(start, 0, now, answers).0 == ReplyQueue.Serve(pending[..], i, now, answers).0
        invariant ReplyQueue.Serve(start, 0, now, answers).1 == turns + ReplyQueue.Serve(pending[..], i, now, answers).1
      {
        if pending[i].Waiting? {
          ghost var turn := ReplyQueue.Turn(pending[i].job, ReplyQueue.Decide(pending[i], now, answers[i]));
          ghost var before := pending[..];
          var transmitted := Service(i, now, answers[i]);
          ServeStep(before, i, now, answers);
          if transmitted {
            lastReplyMs := now;
            assert ReplyQueue.AnyTransmits(turns + [turn]) by {
              assert (turns + [turn])[|turns|] == turn;
            }
            return;
          }
          NoneTransmit(turns, turn);
          assert turns + ([turn] + ReplyQueue.Serve(pending[..], i + 1, now, answers).1)
              == (turns + [turn]) + ReplyQueue.Serve(pending[..], i + 1, now, answers).1;
          turns := turns + [turn];
        }
      }
      assert turns + [] == turns;
    }
  }

  /** One slot's turn, unfolded. */
  lemma ServeStep(slots: ReplyQueue.Slots, i: nat, now: nat, answers: seq<Answers>)
    requires i < 2 && |answers| == 2 && slots[i].Waiting?
    ensures var o := ReplyQueue.Decide(slots[i], now, answers[i]);
      var slots' := slots[i := ReplyQueue.After(slots[i], o)];
      var turn := ReplyQueue.Turn(slots[i].job, o);
      ReplyQueue.Serve(slots, i, now, answers)
        == if o.Transmits() then (slots', [turn])
           else (ReplyQueue.Serve(slots', i + 1, now, answers).0,
                 [turn] + ReplyQueue.Serve(slots', i + 1, now, answers).1)
  {}

  lemma NoneTransmit(turns: seq<ReplyQueue.Turn>, turn: ReplyQueue.Turn)
    requires !ReplyQueue.AnyTransmits(turns) && !turn.outcome.Transmits()
    ensures !ReplyQueue.AnyTransmits(turns + [turn])
  {}
}
