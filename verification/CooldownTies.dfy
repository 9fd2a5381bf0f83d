/** The exact cooldown rule where several senders are admitted at one reading of
    the clock: then the order of the slots decides who is evicted. */
module CooldownTies {
  import opened Basics
  import opened Bits
  import opened Cooldown

  /** The slot an admission writes. */
  function PlaceOf(t: Table, src: Hash, now: nat): (k: nat)
    ensures k < 4
  {
    var k := Find(t, src, 0);
    if k < 4 then k else Victim(t, now, 0, 0)
  }

  function Place(attempts: seq<Attempt>, k: nat): nat
    requires k < |attempts|
  {
    PlaceOf(Run(attempts[..k]), attempts[k].src, attempts[k].now)
  }

  /** Of two slots the one to be evicted first is the longer idle one, and the
      earlier one of two of one reading. */
  predicate Outlasts(lastMs: nat, g: nat, since: nat, h: nat) {
    lastMs > since || (lastMs == since && g > h)
  }

  /** The others that stand between the sender of admission `i` and eviction,
      before attempt `n`: those it left behind in slots that outlast its own, and
      those admitted since, at a later reading or into its own or a later slot. */
  function Rivals(attempts: seq<Attempt>, i: nat, n: nat): set<Hash>
    requires i < n <= |attempts|
  {
    LeftBehind(Run(attempts[..i + 1]), attempts[i].src, attempts[i].now, Place(attempts, i))
    + AdmittedPast(attempts, i, n)
  }

  function LeftBehind(t: Table, src: Hash, since: nat, h: nat): set<Hash> {
    set g | 0 <= g < 4 && t[g].used && t[g].src != src && Outlasts(t[g].lastMs, g, since, h) :: t[g].src
  }

  function AdmittedPast(attempts: seq<Attempt>, i: nat, n: nat): set<Hash>
    requires i < n <= |attempts|
  {
    set k | i < k < n && Admitted(attempts, k) && attempts[k].src != attempts[i].src
            && (attempts[k].now > attempts[i].now || Place(attempts, k) >= Place(attempts, i)) :: attempts[k].src
  }

  /** Slot `k` is evicted no later than slot `j`. */
  predicate NoLater(t: Table, now: nat, k: nat, j: nat)
    requires k < 4 && j < 4
  {
    var a, b := Age(now, t[j].lastMs), Age(now, t[k].lastMs);
    t[j].used && (a < b || (a == b && j >= k))
  }

  lemma VictimIsFirstOldest(t: Table, now: nat, i: nat, best: nat)
    requires i <= 4 && best < 4 && (i > 0 ==> best < i) && (i == 0 ==> best == 0)
    requires forall j | 0 <= j < i :: NoLater(t, now, best, j)
    ensures var k := Victim(t, now, i, best); !t[k].used || forall j | 0 <= j < 4 :: NoLater(t, now, k, j)
    decreases 4 - i
  {
    if i < 4 && t[i].used {
      var next := if Age(now, t[i].lastMs) > Age(now, t[best].lastMs) then i else best;
      forall j | 0 <= j < i + 1 ensures NoLater(t, now, next, j) {
        if j < i {
          assert NoLater(t, now, best, j);
        }
      }
      VictimIsFirstOldest(t, now, i + 1, next);
    }
  }

  /** Whoever loses a slot to another sender was first in line. */
  lemma EvictedWasFirst(before: seq<Attempt>, a: Attempt, t: Table, w: nat)
    requires Ordered(before + [a]) && t == Run(before)
    requires Admits(t, a.src, a.now) && w == PlaceOf(t, a.src, a.now) && t[w].used && t[w].src != a.src
    ensures forall g | 0 <= g < 4 && g != w ::
      t[g].used && t[g].src != a.src && Outlasts(t[g].lastMs, g, t[w].lastMs, w)
    ensures Find(t, a.src, 0) == 4
  {
    RunIsFaithful(before);
    VictimIsFirstOldest(t, a.now, 0, 0);
    assert Find(t, a.src, 0) == 4;
    forall g | 0 <= g < 4 && g != w ensures t[g].used && Outlasts(t[g].lastMs, g, t[w].lastMs, w) {
      assert NoLater(t, a.now, w, g);
      SlotNotLater(before, a, t[g]);
      SlotNotLater(before, a, t[w]);
      AgeIsDifference(a.now, t[g].lastMs);
      AgeIsDifference(a.now, t[w].lastMs);
    }
  }

  /** `o` holds a slot that outlasts the one at `h`. */
  ghost predicate HeldPast(t: Table, o: Hash, since: nat, h: nat) {
    exists g :: 0 <= g < 4 && Holds(t[g], o) && Outlasts(t[g].lastMs, g, since, h)
  }

  /** `src` still holds the slot it was given, and the rivals are those whose
      slots outlast it. */
  ghost predicate InLine(t: Table, src: Hash, since: nat, h: nat, rivals: set<Hash>) {
    && h < 4 && t[h] == Slot(true, src, since) && src !in rivals
    && (forall o | o in rivals :: HeldPast(t, o, since, h))
    && (forall g | 0 <= g < 4 && g != h && t[g].used && Outlasts(t[g].lastMs, g, since, h) :: t[g].src in rivals)
  }

  /** ... or it has lost the slot to four rivals. */
  ghost predicate Queued(t: Table, src: Hash, since: nat, h: nat, rivals: set<Hash>) {
    || InLine(t, src, since, h, rivals)
    || ((forall g | 0 <= g < 4 :: !Holds(t[g], src)) && |rivals| >= 4)
  }

  /** Three slots that outlast the one at `h`, and another sender. */
  lemma FourRivals(t: Table, rivals: set<Hash>, f: nat, g: nat, k: nat, o: Hash)
    requires f < g < k < 4 && t[f].src in rivals && t[g].src in rivals && t[k].src in rivals
    requires t[f].src != o && t[g].src != o && t[k].src != o
    requires t[f].src != t[g].src && t[f].src != t[k].src && t[g].src != t[k].src
    ensures |rivals + {o}| >= 4
  {
    FourAreEnough(rivals + {o}, t[f].src, t[g].src, t[k].src, o);
  }

  lemma FourInLine(t: Table, src: Hash, since: nat, h: nat, rivals: set<Hash>, o: Hash)
    requires InLine(t, src, since, h, rivals)
    requires forall g | 0 <= g < 4 && g != h :: t[g].used && t[g].src != o && Outlasts(t[g].lastMs, g, since, h)
    requires forall f, g | 0 <= f < g < 4 && t[f].used && t[g].used :: t[f].src != t[g].src
    ensures |rivals + {o}| >= 4
  {
    if h == 0 {
      FourRivals(t, rivals, 1, 2, 3, o);
    } else if h == 1 {
      FourRivals(t, rivals, 0, 2, 3, o);
    } else if h == 2 {
      FourRivals(t, rivals, 0, 1, 3, o);
    } else {
      FourRivals(t, rivals, 0, 1, 2, o);
    }
  }

  lemma EvictedIsGone(t: Table, src: Hash, h: nat, a: Attempt, t': Table)
    requires h < 4 && Holds(t[h], src) && a.src != src && t' == t[h := Slot(true, a.src, a.now)]
    requires forall f, g | 0 <= f < g < 4 && t[f].used && t[g].used :: t[f].src != t[g].src
    ensures forall g | 0 <= g < 4 :: !Holds(t'[g], src)
  {}

  lemma EvictionTakesFour(before: seq<Attempt>, a: Attempt, t: Table, src: Hash, since: nat, h: nat, rivals: set<Hash>)
    requires Ordered(before + [a]) && t == Run(before) && Admits(t, a.src, a.now) && a.src != src
    requires InLine(t, src, since, h, rivals) && PlaceOf(t, a.src, a.now) == h
    ensures |rivals + {a.src}| >= 4 && forall g | 0 <= g < 4 :: !Holds(Admit(t, a.src, a.now)[g], src)
  {
    EvictedWasFirst(before, a, t, h);
    RunIsFaithful(before);
    FourInLine(t, src, since, h, rivals, a.src);
    EvictedIsGone(t, src, h, a, Admit(t, a.src, a.now));
  }

  /** A rival's slot is not the one taken, unless the rival takes it again. */
  lemma RivalKeepsPlace(before: seq<Attempt>, a: Attempt, t: Table, src: Hash, since: nat, h: nat, w: nat, o: Hash)
    requires Ordered(before + [a]) && t == Run(before) && Admits(t, a.src, a.now)
    requires h < 4 && t[h] == Slot(true, src, since)
    requires w == PlaceOf(t, a.src, a.now) != h && HeldPast(t, o, since, h)
    ensures HeldPast(t[w := Slot(true, a.src, a.now)], o, since, h)
  {
    var t' := t[w := Slot(true, a.src, a.now)];
    var g :| 0 <= g < 4 && Holds(t[g], o) && Outlasts(t[g].lastMs, g, since, h);
    RunIsFaithful(before);
    SlotNotLater(before, a, t[g]);
    if g == w && o != a.src {
      EvictedWasFirst(before, a, t, w);
      assert false;
    }
    assert Holds(t'[g], o) && Outlasts(t'[g].lastMs, g, since, h);
  }

  /** The others keep their places when someone is admitted elsewhere. */
  lemma LineMoves(before: seq<Attempt>, a: Attempt, t: Table, src: Hash, since: nat, h: nat, rivals: set<Hash>, w: nat)
    requires Ordered(before + [a]) && t == Run(before) && Admits(t, a.src, a.now) && a.src != src && since <= a.now
    requires InLine(t, src, since, h, rivals) && w == PlaceOf(t, a.src, a.now) != h
    ensures InLine(Admit(t, a.src, a.now), src, since, h, if a.now > since || w >= h then rivals + {a.src} else rivals)
  {
    var t' := t[w := Slot(true, a.src, a.now)];
    assert Admit(t, a.src, a.now) == t';
    forall o | o in rivals ensures HeldPast(t', o, since, h) {
      RivalKeepsPlace(before, a, t, src, since, h, w, o);
    }
    if a.now > since || w >= h {
      assert Holds(t'[w], a.src) && Outlasts(t'[w].lastMs, w, since, h);
    }
  }

  lemma RivalStep(attempts: seq<Attempt>, i: nat, n: nat)
    requires i < n < |attempts|
    ensures Rivals(attempts, i, n + 1)
      == if Admitted(attempts, n) && attempts[n].src != attempts[i].src
            && (attempts[n].now > attempts[i].now || Place(attempts, n) >= Place(attempts, i))
         then Rivals(attempts, i, n) + {attempts[n].src} else Rivals(attempts, i, n)
  {
    hide Place, Admitted, LeftBehind;
    var more, less := AdmittedPast(attempts, i, n + 1), AdmittedPast(attempts, i, n);
    forall o | o in more ensures o in less || (Admitted(attempts, n) && o == attempts[n].src) {}
    assert less <= more;
  }

  lemma QueuedStep(attempts: seq<Attempt>, i: nat, n: nat)
    requires Ordered(attempts) && i < n < |attempts|
    requires attempts[n].src == attempts[i].src ==> !Admitted(attempts, n)
    requires Queued(Run(attempts[..n]), attempts[i].src, attempts[i].now, Place(attempts, i), Rivals(attempts, i, n))
    ensures Queued(Run(attempts[..n + 1]), attempts[i].src, attempts[i].now, Place(attempts, i),
                   Rivals(attempts, i, n + 1))
  {
    hide InLine, Rivals;
    var before, a := attempts[..n], attempts[n];
    var src, since, h, rivals := attempts[i].src, attempts[i].now, Place(attempts, i), Rivals(attempts, i, n);
    var t := Run(before);
    assert attempts[..n + 1] == before + [a] && (before + [a])[..n] == before;
    RivalStep(attempts, i, n);
    if Admitted(attempts, n) {
      if InLine(t, src, since, h, rivals) {
        InLineStep(before, a, t, src, since, h, rivals);
      } else {
        StaysGone(t, src, a);
        SubsetSize(rivals, Rivals(attempts, i, n + 1));
      }
    }
  }

  lemma StaysGone(t: Table, src: Hash, a: Attempt)
    requires a.src != src && forall g | 0 <= g < 4 :: !Holds(t[g], src)
    ensures forall g | 0 <= g < 4 :: !Holds(Admit(t, a.src, a.now)[g], src)
  {}

  lemma InLineStep(before: seq<Attempt>, a: Attempt, t: Table, src: Hash, since: nat, h: nat, rivals: set<Hash>)
    requires Ordered(before + [a]) && t == Run(before) && Admits(t, a.src, a.now) && a.src != src && since <= a.now
    requires InLine(t, src, since, h, rivals)
    ensures Queued(Admit(t, a.src, a.now), src, since, h,
                   if a.now > since || PlaceOf(t, a.src, a.now) >= h then rivals + {a.src} else rivals)
  {
    if PlaceOf(t, a.src, a.now) == h {
      EvictionTakesFour(before, a, t, src, since, h, rivals);
    } else {
      LineMoves(before, a, t, src, since, h, rivals, PlaceOf(t, a.src, a.now));
    }
  }

  lemma StartsInLine(attempts: seq<Attempt>, i: nat)
    requires Ordered(attempts) && i < |attempts| && Admitted(attempts, i)
    ensures InLine(Run(attempts[..i + 1]), attempts[i].src, attempts[i].now, Place(attempts, i),
                   Rivals(attempts, i, i + 1))
  {
    var before, a := attempts[..i], attempts[i];
    assert attempts[..i + 1] == before + [a] && (before + [a])[..i] == before;
    var t, h, rivals := Run(attempts[..i + 1]), Place(attempts, i), Rivals(attempts, i, i + 1);
    RunIsFaithful(attempts[..i + 1]);
    assert AdmittedPast(attempts, i, i + 1) == {};
    assert t[h] == Slot(true, a.src, a.now);
    forall o | o in rivals ensures HeldPast(t, o, a.now, h) {
      var g :| 0 <= g < 4 && t[g].used && t[g].src != a.src && Outlasts(t[g].lastMs, g, a.now, h) && t[g].src == o;
      assert Holds(t[g], o);
    }
  }

  lemma {:induction false} StaysQueued(attempts: seq<Attempt>, i: nat, n: nat)
    requires Ordered(attempts) && i < n <= |attempts| && Admitted(attempts, i)
    requires forall k | i < k < n && attempts[k].src == attempts[i].src :: !Admitted(attempts, k)
    ensures Queued(Run(attempts[..n]), attempts[i].src, attempts[i].now, Place(attempts, i), Rivals(attempts, i, n))
    decreases n
  {
    hide InLine, Rivals, Place, Ordered, Admitted, Run;
    if n == i + 1 {
      StartsInLine(attempts, i);
    } else {
      StaysQueued(attempts, i, n - 1);
      QueuedStep(attempts, i, n - 1);
    }
  }

  lemma LineIsShort(t: Table, src: Hash, since: nat, h: nat, rivals: set<Hash>)
    requires InLine(t, src, since, h, rivals)
    ensures |rivals| < 4
  {
    var all := {t[0].src, t[1].src, t[2].src, t[3].src};
    forall o | o in rivals + {src} ensures o in all {
      if o != src {
        var g :| 0 <= g < 4 && Holds(t[g], o);
      }
    }
    SubsetSize(rivals + {src}, all);
    SizeOfFour(t[0].src, t[1].src, t[2].src, t[3].src);
  }

  /** The rule for every run before the clock wraps, ties included: after its last
      admission a sender is admitted again just when 15 s have gone by or it has
      four rivals. */
  lemma AdmittedAgainExactly(attempts: seq<Attempt>, i: nat, j: nat)
    requires Ordered(attempts) && LatestAdmission(attempts, i, j)
    ensures Admitted(attempts, j) <==>
      attempts[j].now - attempts[i].now >= 15000 || |Rivals(attempts, i, j)| >= 4
  {
    var t, src, since, h := Run(attempts[..j]), attempts[i].src, attempts[i].now, Place(attempts, i);
    StaysQueued(attempts, i, j);
    if InLine(t, src, since, h, Rivals(attempts, i, j)) {
      LineIsShort(t, src, since, h, Rivals(attempts, i, j));
      RunIsFaithful(attempts[..j]);
      OnlySlot(attempts[..j], t, src, h);
      AgeIsDifference(attempts[j].now, since);
    } else {
      assert Find(t, src, 0) == 4;
    }
  }
}
