/** The per-sender cooldown of the LXMF inbox: a four-slot table that evicts
    its longest-idle sender. */
module Cooldown {
  import opened Basics
  import opened Bits

  const SENDER_COOLDOWN_MS: nat := 15000
  const CLOCK: nat := 0x1_0000_0000

  type Hash = seq<byte>

  datatype Slot = Slot(used: bool, src: Hash, lastMs: nat)
  datatype Attempt = Attempt(src: Hash, now: nat)

  type Table = t: seq<Slot> | |t| == 4 witness [FREE, FREE, FREE, FREE]

  const FREE: Slot := Slot(false, [], 0)
  const BOOT: Table := [FREE, FREE, FREE, FREE]

  predicate Holds(s: Slot, src: Hash) {
    s.used && s.src == src
  }

  /** The first slot of `src` at or after `i`, or 4. */
  function Find(t: Table, src: Hash, i: nat): (k: nat)
    requires i <= 4
    ensures i <= k <= 4 && (k < 4 ==> Holds(t[k], src))
    ensures forall j | i <= j < k :: !Holds(t[j], src)
    decreases 4 - i
  {
    if i == 4 || Holds(t[i], src) then i else Find(t, src, i + 1)
  }

  /** The first free slot at or after `i`, else the oldest seen, the earlier
      one of two of one age; `best` is the choice among the slots before `i`. */
  function Victim(t: Table, now: nat, i: nat, best: nat): (k: nat)
    requires i <= 4 && best < 4
    ensures k < 4
    decreases 4 - i
  {
    if i == 4 then best
    else if !t[i].used then i
    else Victim(t, now, i + 1, if Age(now, t[i].lastMs) > Age(now, t[best].lastMs) then i else best)
  }

  predicate Admits(t: Table, src: Hash, now: nat) {
    var k := Find(t, src, 0);
    k == 4 || Age(now, t[k].lastMs) >= SENDER_COOLDOWN_MS
  }

  function Admit(t: Table, src: Hash, now: nat): Table {
    var k := Find(t, src, 0);
    if !Admits(t, src, now) then t
    else t[(if k < 4 then k else Victim(t, now, 0, 0)) := Slot(true, src, now)]
  }

  // ---- Runs -------------------------------------------------------------

  function Run(attempts: seq<Attempt>): Table {
    if attempts == [] then BOOT
    else
      var last := attempts[|attempts| - 1];
      Admit(Run(attempts[..|attempts| - 1]), last.src, last.now)
  }

  predicate Admitted(attempts: seq<Attempt>, k: nat)
    requires k < |attempts|
  {
    Admits(Run(attempts[..k]), attempts[k].src, attempts[k].now)
  }

  /** The clock does not run backwards and has not wrapped. */
  predicate Ordered(attempts: seq<Attempt>) {
    && (forall i | 0 <= i < |attempts| :: attempts[i].now < CLOCK)
    && (forall i, j | 0 <= i <= j < |attempts| :: attempts[i].now <= attempts[j].now)
  }

  /** Senders other than `src` admitted at `since` or later. */
  function OthersSince(attempts: seq<Attempt>, src: Hash, since: nat): set<Hash> {
    set k: nat | k < |attempts| && Admitted(attempts, k) && attempts[k].now >= since && attempts[k].src != src
      :: attempts[k].src
  }

  // ---- What the table knows -----------------------------------------------

  lemma VictimIsFreeOrOldest(t: Table, now: nat, i: nat, best: nat)
    requires i <= 4 && best < 4 && (i > 0 ==> best < i) && (i == 0 ==> best == 0)
    requires forall j | 0 <= j < i :: t[j].used && Age(now, t[j].lastMs) <= Age(now, t[best].lastMs)
    ensures var k := Victim(t, now, i, best);
      !t[k].used || forall j | 0 <= j < 4 :: t[j].used && Age(now, t[j].lastMs) <= Age(now, t[k].lastMs)
    decreases 4 - i
  {
    if i < 4 && t[i].used {
      VictimIsFreeOrOldest(t, now, i + 1, if Age(now, t[i].lastMs) > Age(now, t[best].lastMs) then i else best);
    }
  }

  /** Every used slot stands for an admission, and no sender has two slots. */
  ghost predicate Faithful(attempts: seq<Attempt>, t: Table) {
    && (forall j | 0 <= j < 4 && t[j].used :: Recorded(attempts, t[j]))
    && (forall i, j | 0 <= i < j < 4 && t[i].used && t[j].used :: t[i].src != t[j].src)
  }

  ghost predicate Recorded(attempts: seq<Attempt>, s: Slot) {
    exists k: nat :: k < |attempts| && Admitted(attempts, k) && attempts[k] == Attempt(s.src, s.lastMs)
  }

  /** An admission writes one slot and no sender gets a second one. */
  lemma AdmitWrites(t: Table, src: Hash, now: nat)
    requires forall i, j | 0 <= i < j < 4 && t[i].used && t[j].used :: t[i].src != t[j].src
    ensures var t' := Admit(t, src, now);
      && (forall j | 0 <= j < 4 :: t'[j] == t[j] || (Admits(t, src, now) && t'[j] == Slot(true, src, now)))
      && (forall i, j | 0 <= i < j < 4 && t'[i].used && t'[j].used :: t'[i].src != t'[j].src)
  {}

  lemma {:induction false} RunIsFaithful(attempts: seq<Attempt>)
    ensures Faithful(attempts, Run(attempts))
  {
    if attempts != [] {
      var n := |attempts| - 1;
      var before, a := attempts[..n], attempts[n];
      var t, t' := Run(before), Run(attempts);
      assert attempts == before + [a];
      RunIsFaithful(before);
      AdmitWrites(t, a.src, a.now);
      forall j | 0 <= j < 4 && t'[j].used ensures Recorded(attempts, t'[j]) {
        FaithfulSlot(before, a, t, t'[j], j);
      }
    }
  }

  lemma FaithfulSlot(before: seq<Attempt>, a: Attempt, t: Table, s: Slot, j: nat)
    requires j < 4 && t == Run(before) && s.used
    requires t[j].used ==> Recorded(before, t[j])
    requires s == t[j] || (Admits(t, a.src, a.now) && s == Slot(true, a.src, a.now))
    ensures Recorded(before + [a], s)
  {
    if s == t[j] {
      RecordedStays(before, a, s);
    } else {
      assert (before + [a])[..|before|] == before && Admitted(before + [a], |before|);
    }
  }

  lemma RecordedStays(before: seq<Attempt>, a: Attempt, s: Slot)
    requires Recorded(before, s)
    ensures Recorded(before + [a], s)
  {
    var k: nat :| k < |before| && Admitted(before, k) && before[k] == Attempt(s.src, s.lastMs);
    AdmittedStays(before, a, k);
  }

  lemma AdmittedStays(before: seq<Attempt>, a: Attempt, k: nat)
    requires k < |before|
    ensures Admitted(before + [a], k) == Admitted(before, k)
  {
    assert (before + [a])[..k] == before[..k];
  }

  // ---- The cooldown theorem -----------------------------------------------

  /** `src`, admitted at `since`, still holds a slot at least that fresh, or
      four other senders have been admitted from then on. */
  ghost predicate HeldOrCrowdedOut(attempts: seq<Attempt>, t: Table, src: Hash, since: nat) {
    || (exists j :: 0 <= j < 4 && Holds(t[j], src) && t[j].lastMs >= since)
    || |OthersSince(attempts, src, since)| >= 4
  }

  lemma OthersStay(before: seq<Attempt>, a: Attempt, src: Hash, since: nat)
    ensures OthersSince(before, src, since) <= OthersSince(before + [a], src, since)
    ensures |OthersSince(before, src, since)| <= |OthersSince(before + [a], src, since)|
  {
    forall k: nat | k < |before| ensures Admitted(before + [a], k) == Admitted(before, k) {
      AdmittedStays(before, a, k);
    }
    var small, large := OthersSince(before, src, since), OthersSince(before + [a], src, since);
    forall s | s in small ensures s in large {
      var k: nat :| k < |before| && Admitted(before, k) && before[k].now >= since
                    && before[k].src != src && before[k].src == s;
      assert Admitted(before + [a], k) && (before + [a])[k] == before[k];
    }
    SubsetSize(small, large);
  }

  lemma SubsetSize<T>(a: set<T>, b: set<T>)
    requires a <= b
    ensures |a| <= |b|
  {
    assert |b| == |a| + |b - a| by { assert b == a + (b - a); }
  }

  /** A used slot at least as fresh as `since` is one of the others. */
  lemma SlotIsOther(attempts: seq<Attempt>, s: Slot, src: Hash, since: nat)
    requires s.used && Recorded(attempts, s) && s.src != src && s.lastMs >= since
    ensures s.src in OthersSince(attempts, src, since)
  {}

  lemma FourAreEnough<T>(s: set<T>, a: T, b: T, c: T, d: T)
    requires {a, b, c, d} <= s
    requires a != b && a != c && a != d && b != c && b != d && c != d
    ensures |s| >= 4
  {
    SubsetSize({a, b, c, d}, s);
  }

  lemma AgeIsDifference(now: nat, last: nat)
    requires last <= now < CLOCK
    ensures Age(now, last) == now - last
  {}

  /** Whoever loses a slot to another sender was the longest idle of four. */
  lemma EvictedWasOldest(before: seq<Attempt>, a: Attempt, t: Table, j: nat)
    requires Ordered(before + [a]) && t == Run(before) && Faithful(before, t)
    requires j < 4 && t[j].used && t[j].src != a.src && Admit(t, a.src, a.now)[j] != t[j]
    ensures forall i | 0 <= i < 4 :: t[i].used && t[i].src != a.src && t[i].lastMs >= t[j].lastMs
    ensures Admit(t, a.src, a.now) == t[j := Slot(true, a.src, a.now)]
  {
    VictimIsFreeOrOldest(t, a.now, 0, 0);
    assert Find(t, a.src, 0) == 4 && Victim(t, a.now, 0, 0) == j;
    forall i | 0 <= i < 4 ensures t[i].lastMs >= t[j].lastMs {
      SlotNotLater(before, a, t[i]);
      SlotNotLater(before, a, t[j]);
      AgeIsDifference(a.now, t[i].lastMs);
      AgeIsDifference(a.now, t[j].lastMs);
    }
  }

  lemma SlotNotLater(before: seq<Attempt>, a: Attempt, s: Slot)
    requires Ordered(before + [a]) && s.used && Recorded(before, s)
    ensures s.lastMs <= a.now < CLOCK
  {
    var k: nat :| k < |before| && before[k] == Attempt(s.src, s.lastMs);
    var all := before + [a];
    assert all[k] == before[k] && all[|before|] == a;
  }

  lemma RecordedNotLater(attempts: seq<Attempt>, now: nat, s: Slot)
    requires Recorded(attempts, s) && forall k | 0 <= k < |attempts| :: attempts[k].now <= now
    ensures s.lastMs <= now
  {}

  lemma EvictionCrowdsOut(before: seq<Attempt>, a: Attempt, t: Table, j: nat, since: nat)
    requires Ordered(before + [a]) && t == Run(before)
    requires j < 4 && t[j].used && t[j].src != a.src && t[j].lastMs >= since
    requires Admit(t, a.src, a.now)[j] != t[j]
    ensures |OthersSince(before + [a], t[j].src, since)| >= 4
  {
    var all := before + [a];
    var t' := Run(all);
    assert all[..|before|] == before;
    RunIsFaithful(before);
    RunIsFaithful(all);
    EvictedWasOldest(before, a, t, j);
    SlotNotLater(before, a, t[j]);
    forall i | 0 <= i < 4 ensures t'[i].src in OthersSince(all, t[j].src, since) {
      SlotIsOther(all, t'[i], t[j].src, since);
    }
    FourAreEnough(OthersSince(all, t[j].src, since), t'[0].src, t'[1].src, t'[2].src, t'[3].src);
  }

  lemma {:induction false} HeldOrFourOthers(attempts: seq<Attempt>, k: nat)
    requires Ordered(attempts) && k < |attempts| && Admitted(attempts, k)
    ensures HeldOrCrowdedOut(attempts, Run(attempts), attempts[k].src, attempts[k].now)
    decreases attempts
  {
    var n := |attempts| - 1;
    var before, a := attempts[..n], attempts[n];
    var t := Run(before);
    assert attempts == before + [a];
    if k == n {
      AdmittedIsHeld(t, a.src, a.now);
    } else {
      AdmittedStays(before, a, k);
      HeldOrFourOthers(before, k);
      HeldStep(before, a, t, attempts[k].src, attempts[k].now);
    }
  }

  lemma AdmittedIsHeld(t: Table, src: Hash, now: nat)
    requires Admits(t, src, now)
    ensures exists j :: 0 <= j < 4 && Holds(Admit(t, src, now)[j], src) && Admit(t, src, now)[j].lastMs >= now
  {
    var k := Find(t, src, 0);
    var j := if k < 4 then k else Victim(t, now, 0, 0);
    assert Admit(t, src, now)[j] == Slot(true, src, now);
  }

  lemma HeldStep(before: seq<Attempt>, a: Attempt, t: Table, src: Hash, since: nat)
    requires Ordered(before + [a]) && t == Run(before) && since <= a.now
    requires HeldOrCrowdedOut(before, t, src, since)
    ensures HeldOrCrowdedOut(before + [a], Admit(t, a.src, a.now), src, since)
  {
    if |OthersSince(before, src, since)| >= 4 {
      OthersStay(before, a, src, since);
    } else {
      var j :| 0 <= j < 4 && Holds(t[j], src) && t[j].lastMs >= since;
      var t' := Admit(t, a.src, a.now);
      if a.src == src {
        if Admits(t, src, a.now) {
          AdmittedIsHeld(t, src, a.now);
        } else {
          assert t'[j] == t[j];
        }
      } else if t'[j] == t[j] {
      } else {
        EvictionCrowdsOut(before, a, t, j, since);
      }
    }
  }

  /** While the clock has not wrapped: a sender admitted twice within the
      cooldown saw at least four other senders admitted in between. */
  lemma FourOthersWithinCooldown(attempts: seq<Attempt>, i: nat, j: nat)
    requires Ordered(attempts) && i < j < |attempts|
    requires Admitted(attempts, i) && Admitted(attempts, j) && attempts[i].src == attempts[j].src
    requires attempts[j].now - attempts[i].now < 15000
    ensures |OthersSince(attempts[..j], attempts[i].src, attempts[i].now)| >= 4
    ensures forall k | 0 <= k < j :: attempts[k].now <= attempts[j].now
  {
    var before, a := attempts[..j], attempts[j];
    assert before + [a] == attempts[..j + 1];
    assert before[..i] == attempts[..i] && Admitted(before, i);
    HeldOrFourOthers(before, i);
    if |OthersSince(before, a.src, attempts[i].now)| < 4 {
      FreshSlotRefuses(before, a, attempts[i].now);
    }
  }

  lemma FreshSlotRefuses(before: seq<Attempt>, a: Attempt, since: nat)
    requires Ordered(before + [a]) && a.now - since < SENDER_COOLDOWN_MS
    requires exists h :: 0 <= h < 4 && Holds(Run(before)[h], a.src) && Run(before)[h].lastMs >= since
    ensures !Admits(Run(before), a.src, a.now)
  {
    var t := Run(before);
    var h :| 0 <= h < 4 && Holds(t[h], a.src) && t[h].lastMs >= since;
    RunIsFaithful(before);
    OnlySlot(before, t, a.src, h);
    SlotNotLater(before, a, t[h]);
    AgeIsDifference(a.now, t[h].lastMs);
  }

  lemma OnlySlot(attempts: seq<Attempt>, t: Table, src: Hash, h: nat)
    requires Faithful(attempts, t) && h < 4 && Holds(t[h], src)
    ensures Find(t, src, 0) == h
  {}

  /** With at most four senders about, the cooldown is kept. */
  lemma FewSendersAreSpaced(attempts: seq<Attempt>, i: nat, j: nat)
    requires Ordered(attempts) && i < j < |attempts|
    requires Admitted(attempts, i) && Admitted(attempts, j) && attempts[i].src == attempts[j].src
    requires |set k | 0 <= k < |attempts| :: attempts[k].src| <= 4
    ensures attempts[j].now - attempts[i].now >= 15000
  {
    if attempts[j].now - attempts[i].now < SENDER_COOLDOWN_MS {
      FourOthersWithinCooldown(attempts, i, j);
      var others := OthersSince(attempts[..j], attempts[i].src, attempts[i].now);
      var senders := set k | 0 <= k < |attempts| :: attempts[k].src;
      assert attempts[i].src !in others && attempts[i].src in senders;
      SubsetSize(others + {attempts[i].src}, senders);
    }
  }

  /** The rule over one table: an attempt is refused just when the sender still holds a
      slot written less than the cooldown ago. */
  lemma RefusedIff(t: Table, src: Hash, now: nat)
    requires forall i, j | 0 <= i < j < 4 && t[i].used && t[j].used :: t[i].src != t[j].src
    ensures !Admits(t, src, now)
      <==> exists j :: 0 <= j < 4 && Holds(t[j], src) && Age(now, t[j].lastMs) < 15000
  {
    var k := Find(t, src, 0);
    if j :| 0 <= j < 4 && Holds(t[j], src) && Age(now, t[j].lastMs) < SENDER_COOLDOWN_MS {
      assert k == j;
    }
  }

  // ---- The exact rule over a run --------------------------------------------

  /** `i` is the latest admission of the sender of attempt `j`. */
  ghost predicate LatestAdmission(attempts: seq<Attempt>, i: nat, j: nat) {
    && i < j < |attempts| && attempts[i].src == attempts[j].src && Admitted(attempts, i)
    && forall k | i < k < j && attempts[k].src == attempts[j].src :: !Admitted(attempts, k)
  }

  ghost predicate HeldLater(t: Table, o: Hash, since: nat) {
    exists g :: 0 <= g < 4 && Holds(t[g], o) && t[g].lastMs > since
  }

  /** While `src` still holds the slot it was given at `since`, so does every
      sender admitted at a later reading. */
  ghost predicate OutlivedByLater(attempts: seq<Attempt>, t: Table, src: Hash, since: nat) {
    forall h | 0 <= h < 4 && Holds(t[h], src) ::
      t[h].lastMs == since && forall o | o in OthersSince(attempts, src, since + 1) :: HeldLater(t, o, since)
  }

  /** The attempt that adds a sender to the others. */
  lemma NewOther(before: seq<Attempt>, a: Attempt, src: Hash, since: nat, o: Hash)
    requires o in OthersSince(before + [a], src, since) && o !in OthersSince(before, src, since)
    ensures o == a.src && a.now >= since && Admits(Run(before), a.src, a.now)
  {
    var all := before + [a];
    var k: nat :| k < |all| && Admitted(all, k) && all[k].now >= since && all[k].src != src && all[k].src == o;
    if k < |before| {
      AdmittedStays(before, a, k);
      assert false;
    }
    assert all[..|before|] == before;
  }

  lemma JustAdmitted(before: seq<Attempt>, a: Attempt)
    requires Ordered(before + [a]) && Admits(Run(before), a.src, a.now)
    ensures OutlivedByLater(before + [a], Run(before + [a]), a.src, a.now)
  {
    var all := before + [a];
    assert all[..|before|] == before && all[|before|] == a;
    RunIsFaithful(all);
    AdmittedIsHeld(Run(before), a.src, a.now);
    NoneLater(all, a.src, a.now);
    forall h | 0 <= h < 4 && Holds(Run(all)[h], a.src) ensures Run(all)[h].lastMs == a.now {
      HolderIsFresh(all, Run(all), a.src, a.now, h);
    }
  }

  lemma NoneLater(attempts: seq<Attempt>, src: Hash, now: nat)
    requires forall k | 0 <= k < |attempts| :: attempts[k].now <= now
    ensures OthersSince(attempts, src, now + 1) == {}
  {}

  lemma HolderIsFresh(attempts: seq<Attempt>, t: Table, src: Hash, now: nat, h: nat)
    requires Faithful(attempts, t) && h < 4 && Holds(t[h], src)
    requires forall k | 0 <= k < |attempts| :: attempts[k].now <= now
    requires exists j :: 0 <= j < 4 && Holds(t[j], src) && t[j].lastMs >= now
    ensures t[h].lastMs == now
  {
    RecordedNotLater(attempts, now, t[h]);
    var j :| 0 <= j < 4 && Holds(t[j], src) && t[j].lastMs >= now;
    assert !(h < j) && !(j < h);
  }

  /** A sender admitted later than the holder of slot `h` keeps its own slot
      as long as that one is not taken. */
  lemma LaterIsKept(before: seq<Attempt>, a: Attempt, t: Table, src: Hash, since: nat, h: nat, o: Hash)
    requires Ordered(before + [a]) && t == Run(before) && Admits(t, a.src, a.now) && a.src != src
    requires h < 4 && Holds(t[h], src) && t[h].lastMs == since && HeldLater(t, o, since)
    ensures HeldLater(Admit(t, a.src, a.now), o, since)
  {
    var t' := Admit(t, a.src, a.now);
    var g :| 0 <= g < 4 && Holds(t[g], o) && t[g].lastMs > since;
    RunIsFaithful(before);
    SlotNotLater(before, a, t[g]);
    if t'[g] != t[g] {
      if o == a.src {
        AdmittedIsHeld(t, a.src, a.now);
      } else {
        EvictedWasOldest(before, a, t, g);
      }
    }
  }

  lemma OutlivedStep(before: seq<Attempt>, a: Attempt, t: Table, src: Hash, since: nat)
    requires Ordered(before + [a]) && t == Run(before) && OutlivedByLater(before, t, src, since)
    requires a.src == src ==> !Admits(t, a.src, a.now)
    ensures OutlivedByLater(before + [a], Admit(t, a.src, a.now), src, since)
  {
    var all, t' := before + [a], Admit(t, a.src, a.now);
    forall h | 0 <= h < 4 && Holds(t'[h], src)
      ensures t'[h].lastMs == since && forall o | o in OthersSince(all, src, since + 1) :: HeldLater(t', o, since)
    {
      assert t'[h] == t[h];
      forall o | o in OthersSince(all, src, since + 1) ensures HeldLater(t', o, since) {
        if o !in OthersSince(before, src, since + 1) {
          NewOther(before, a, src, since + 1, o);
          AdmittedIsHeld(t, a.src, a.now);
        } else if Admits(t, a.src, a.now) {
          LaterIsKept(before, a, t, src, since, h, o);
        }
      }
    }
  }

  lemma {:induction false} Outlived(attempts: seq<Attempt>, i: nat, n: nat)
    requires Ordered(attempts) && i < n <= |attempts| && Admitted(attempts, i)
    requires forall k | i < k < n && attempts[k].src == attempts[i].src :: !Admitted(attempts, k)
    ensures OutlivedByLater(attempts[..n], Run(attempts[..n]), attempts[i].src, attempts[i].now)
  {
    var before, a := attempts[..n - 1], attempts[n - 1];
    assert before + [a] == attempts[..n];
    if i == n - 1 {
      JustAdmitted(before, a);
    } else {
      Outlived(attempts, i, n - 1);
      assert attempts[..n][..n - 1] == before;
      OutlivedStep(before, a, Run(before), attempts[i].src, attempts[i].now);
    }
  }

  /** Five senders do not fit in four slots. */
  lemma FullHouse(t: Table, src: Hash, others: set<Hash>, h: nat, since: nat)
    requires h < 4 && Holds(t[h], src) && src !in others && forall o | o in others :: HeldLater(t, o, since)
    ensures |others| < 4
  {
    var all := {t[0].src, t[1].src, t[2].src, t[3].src};
    SubsetSize(others + {src}, all);
    SizeOfFour(t[0].src, t[1].src, t[2].src, t[3].src);
  }

  lemma SizeOfFour<T>(a: T, b: T, c: T, d: T)
    ensures |{a, b, c, d}| <= 4
  {}

  /** A sender that saw four others admitted at later readings than its own last
      admission has lost its slot: it is admitted however soon it returns. */
  lemma FourLaterOthersReopen(attempts: seq<Attempt>, i: nat, j: nat)
    requires Ordered(attempts) && LatestAdmission(attempts, i, j)
    requires |OthersSince(attempts[..j], attempts[i].src, attempts[i].now + 1)| >= 4
    ensures Admitted(attempts, j)
  {
    var t, src := Run(attempts[..j]), attempts[j].src;
    Outlived(attempts, i, j);
    var h := Find(t, src, 0);
    if h < 4 {
      FullHouse(t, src, OthersSince(attempts[..j], src, attempts[i].now + 1), h, attempts[i].now);
    }
  }

  /** Once the cooldown is over the sender is admitted, evicted or not. */
  lemma LateIsAdmitted(attempts: seq<Attempt>, i: nat, j: nat)
    requires Ordered(attempts) && LatestAdmission(attempts, i, j)
    requires attempts[j].now - attempts[i].now >= 15000
    ensures Admitted(attempts, j)
  {
    Outlived(attempts, i, j);
    AgeIsDifference(attempts[j].now, attempts[i].now);
  }

  lemma FewOthersRefuse(attempts: seq<Attempt>, i: nat, j: nat)
    requires Ordered(attempts) && i < j < |attempts|
    requires Admitted(attempts, i) && attempts[i].src == attempts[j].src
    requires attempts[j].now - attempts[i].now < 15000
    requires |OthersSince(attempts[..j], attempts[i].src, attempts[i].now)| < 4
    ensures !Admitted(attempts, j)
  {
    if Admitted(attempts, j) {
      FourOthersWithinCooldown(attempts, i, j);
    }
  }

  /** No other sender was admitted at the very reading of attempt `i`. */
  ghost predicate Untied(attempts: seq<Attempt>, i: nat)
    requires i < |attempts|
  {
    forall k | 0 <= k < |attempts| && Admitted(attempts, k) && attempts[k].src != attempts[i].src ::
      attempts[k].now != attempts[i].now
  }

  lemma UntiedOthers(attempts: seq<Attempt>, i: nat)
    requires i < |attempts| && Untied(attempts, i)
    ensures var src, since := attempts[i].src, attempts[i].now;
      OthersSince(attempts, src, since) == OthersSince(attempts, src, since + 1)
  {}

  /** The rule, exactly: after its last admission a sender is admitted again just
      when 15 s have gone by or four other senders were admitted since. */
  lemma AdmittedAgainIff(attempts: seq<Attempt>, i: nat, j: nat)
    requires Ordered(attempts) && LatestAdmission(attempts, i, j) && Untied(attempts[..j], i)
    ensures Admitted(attempts, j) <==>
      || attempts[j].now - attempts[i].now >= 15000
      || |OthersSince(attempts[..j], attempts[i].src, attempts[i].now)| >= 4
  {
    UntiedOthers(attempts[..j], i);
    if attempts[j].now - attempts[i].now >= SENDER_COOLDOWN_MS {
      LateIsAdmitted(attempts, i, j);
    } else if |OthersSince(attempts[..j], attempts[i].src, attempts[i].now)| >= 4 {
      FourLaterOthersReopen(attempts, i, j);
    } else {
      FewOthersRefuse(attempts, i, j);
    }
  }

  lemma HolderWasAdmitted(attempts: seq<Attempt>, j: nat, s: Slot)
    requires j <= |attempts| && Recorded(attempts[..j], s)
    ensures exists k :: 0 <= k < j && attempts[k].src == s.src && Admitted(attempts, k)
  {
    var before := attempts[..j];
    var k: nat :| k < j && Admitted(before, k) && before[k] == Attempt(s.src, s.lastMs);
    assert before[..k] == attempts[..k];
  }

  /** A sender never admitted before is never refused, whatever the clock did. */
  lemma NewcomerIsAdmitted(attempts: seq<Attempt>, j: nat)
    requires j < |attempts|
    requires forall k | 0 <= k < j && attempts[k].src == attempts[j].src :: !Admitted(attempts, k)
    ensures Admitted(attempts, j)
  {
    var t, src := Run(attempts[..j]), attempts[j].src;
    RunIsFaithful(attempts[..j]);
    var h := Find(t, src, 0);
    if h < 4 {
      HolderWasAdmitted(attempts, j, t[h]);
    }
  }

  lemma FreeSlotTaken(t: Table, i: nat, src: Hash, now: nat)
    requires i < 4 && !t[i].used
    requires forall j | 0 <= j < i :: t[j].used && t[j].src != src
    requires forall j | i <= j < 4 :: !t[j].used
    ensures Admits(t, src, now) && Admit(t, src, now) == t[i := Slot(true, src, now)]
  {
    FreeVictim(t, i, now, 0, 0);
    assert Find(t, src, 0) == 4;
  }

  lemma FreeVictim(t: Table, i: nat, now: nat, k: nat, best: nat)
    requires k <= i < 4 && !t[i].used && best < 4
    requires forall j | 0 <= j < i :: t[j].used
    ensures Victim(t, now, k, best) == i
    decreases i - k
  {
    if k < i {
      FreeVictim(t, i, now, k + 1, if Age(now, t[k].lastMs) > Age(now, t[best].lastMs) then k else best);
    }
  }

  /** Five senders at 1 ms intervals, then the first again. */
  function Crowd(a: Hash, b: Hash, c: Hash, d: Hash, e: Hash): seq<Attempt> {
    [Attempt(a, 0), Attempt(b, 1), Attempt(c, 2), Attempt(d, 3), Attempt(e, 4), Attempt(a, 5)]
  }

  /** One sender is not always held to one admission per cooldown: with four
      others in between it gets a second one 5 ms after the first. */
  lemma EvictedSenderReturnsEarly(a: Hash, b: Hash, c: Hash, d: Hash, e: Hash)
    requires |{a, b, c, d, e}| == 5
    ensures var run := Crowd(a, b, c, d, e); Ordered(run) && Admitted(run, 0) && Admitted(run, 5)
  {
    AllDifferent(a, b, c, d, e);
    CrowdStarts(a, b, c, d, e);
    CrowdFills(a, b, c, d, e);
    TableFills(a, b, c, d);
    FifthEvictsFirst(a, b, c, d, e);
  }

  lemma CrowdStarts(a: Hash, b: Hash, c: Hash, d: Hash, e: Hash)
    ensures Ordered(Crowd(a, b, c, d, e)) && Admitted(Crowd(a, b, c, d, e), 0)
  {
    assert Crowd(a, b, c, d, e)[..0] == [];
    FreeSlotTaken(BOOT, 0, a, 0);
  }

  lemma CrowdFills(a: Hash, b: Hash, c: Hash, d: Hash, e: Hash)
    ensures Run(Crowd(a, b, c, d, e)[..5])
      == Admit(Admit(Admit(Admit(Admit(BOOT, a, 0), b, 1), c, 2), d, 3), e, 4)
  {
    var run := Crowd(a, b, c, d, e);
    assert run[..5] == [run[0], run[1], run[2], run[3], run[4]];
    RunOfFive(run[0], run[1], run[2], run[3], run[4]);
  }

  function FullTable(a: Hash, b: Hash, c: Hash, d: Hash): Table {
    [Slot(true, a, 0), Slot(true, b, 1), Slot(true, c, 2), Slot(true, d, 3)]
  }

  lemma TableFills(a: Hash, b: Hash, c: Hash, d: Hash)
    requires a != b && a != c && a != d && b != c && b != d && c != d
    ensures Admit(Admit(Admit(Admit(BOOT, a, 0), b, 1), c, 2), d, 3) == FullTable(a, b, c, d)
  {
    var t1 := BOOT[0 := Slot(true, a, 0)];
    var t2 := t1[1 := Slot(true, b, 1)];
    var t3 := t2[2 := Slot(true, c, 2)];
    FreeSlotTaken(BOOT, 0, a, 0);
    FreeSlotTaken(t1, 1, b, 1);
    FreeSlotTaken(t2, 2, c, 2);
    FreeSlotTaken(t3, 3, d, 3);
  }

  lemma FifthEvictsFirst(a: Hash, b: Hash, c: Hash, d: Hash, e: Hash)
    requires e != a && e != b && e != c && e != d && a != b && a != c && a != d
    ensures Admits(Admit(FullTable(a, b, c, d), e, 4), a, 5)
  {
    var t := FullTable(a, b, c, d);
    assert Find(t, e, 0) == 4;
    VictimIsFreeOrOldest(t, 4, 0, 0);
    assert Victim(t, 4, 0, 0) == 0;
    var t' := t[0 := Slot(true, e, 4)];
    assert Admit(t, e, 4) == t';
    assert Find(t', a, 0) == 4;
  }

  lemma AllDifferent<T>(a: T, b: T, c: T, d: T, e: T)
    requires |{a, b, c, d, e}| == 5
    ensures a != b && a != c && a != d && a != e && b != c && b != d && b != e && c != d && c != e && d != e
  {}

  lemma RunOfFive(a: Attempt, b: Attempt, c: Attempt, d: Attempt, e: Attempt)
    ensures Run([a, b, c, d, e])
      == Admit(Admit(Admit(Admit(Admit(BOOT, a.src, a.now), b.src, b.now), c.src, c.now), d.src, d.now), e.src, e.now)
  {
    assert [a, b, c, d, e][..4] == [a, b, c, d] && [a, b, c, d][..3] == [a, b, c];
    assert [a, b, c][..2] == [a, b] && [a, b][..1] == [a] && [a][..0] == [];
    assert Run([a]) == Admit(BOOT, a.src, a.now);
    assert Run([a, b]) == Admit(Run([a]), b.src, b.now);
    assert Run([a, b, c]) == Admit(Run([a, b]), c.src, c.now);
    assert Run([a, b, c, d]) == Admit(Run([a, b, c]), d.src, d.now);
  }
}
