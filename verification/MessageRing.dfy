/** The ring of recently answered message ids: a fixed buffer overwritten in
    place, and the sliding window it stands for. */
module MessageRing {
  import opened Bits

  const RECENT_IDS: nat := 8

  type Id = s: seq<byte> | |s| == 8 witness [0, 0, 0, 0, 0, 0, 0, 0]

  /** Static storage starts zeroed, so the ring is born holding the zero id. */
  const ZERO_ID: Id := [0, 0, 0, 0, 0, 0, 0, 0]

  datatype Ring = Ring(slots: seq<Id>, next: nat) {
    predicate Valid() {
      |slots| == RECENT_IDS && next < RECENT_IDS
    }
  }

  const ZEROS: seq<Id> := [ZERO_ID, ZERO_ID, ZERO_ID, ZERO_ID, ZERO_ID, ZERO_ID, ZERO_ID, ZERO_ID]

  const BOOT: Ring := Ring(ZEROS, 0)

  predicate Seen(r: Ring, id: Id) {
    id in r.slots
  }

  /** The ring after a message with this id was offered. */
  function Offer(r: Ring, id: Id): (r': Ring)
    requires r.Valid()
    ensures r'.Valid()
  {
    if Seen(r, id) then r else Ring(r.slots[r.next := id], (r.next + 1) % RECENT_IDS)
  }

  // ---- The window over a run ------------------------------------------

  function Run(ids: seq<Id>): (r: Ring)
    ensures r.Valid()
  {
    if ids == [] then BOOT else Offer(Run(ids[..|ids| - 1]), ids[|ids| - 1])
  }

  /** The ids recorded so far, oldest first, behind the eight of the boot state. */
  function Recorded(ids: seq<Id>): (log: seq<Id>)
    ensures |log| >= RECENT_IDS
  {
    if ids == [] then ZEROS
    else
      var before := ids[..|ids| - 1];
      var id := ids[|ids| - 1];
      if Seen(Run(before), id) then Recorded(before) else Recorded(before) + [id]
  }

  /** The last eight recorded ids. */
  function Window(log: seq<Id>): seq<Id>
    requires |log| >= RECENT_IDS
  {
    log[|log| - RECENT_IDS..]
  }

  /** Slot `i` holds the window's entry that is `i - next` places on, wrapping. */
  ghost predicate HoldsWindow(r: Ring, w: seq<Id>) {
    && r.Valid() && |w| == RECENT_IDS
    && (forall i | 0 <= i < RECENT_IDS - r.next :: w[i] == r.slots[r.next + i])
    && (forall i | RECENT_IDS - r.next <= i < RECENT_IDS :: w[i] == r.slots[r.next + i - RECENT_IDS])
  }

  lemma HeldMembers(r: Ring, w: seq<Id>, id: Id)
    requires HoldsWindow(r, w)
    ensures id in r.slots <==> id in w
  {
    if id in r.slots {
      var k :| 0 <= k < RECENT_IDS && r.slots[k] == id;
      if k >= r.next {
        assert w[k - r.next] == id;
      } else {
        assert w[k + RECENT_IDS - r.next] == id;
      }
    }
  }

  lemma RecordSlides(r: Ring, w: seq<Id>, id: Id)
    requires HoldsWindow(r, w) && !Seen(r, id)
    ensures HoldsWindow(Offer(r, id), w[1..] + [id])
  {}

  lemma WindowSlides(log: seq<Id>, id: Id)
    requires |log| >= RECENT_IDS
    ensures Window(log + [id]) == Window(log)[1..] + [id]
  {}

  lemma OfferKeepsWindow(r: Ring, log: seq<Id>, id: Id)
    requires |log| >= RECENT_IDS && HoldsWindow(r, Window(log))
    ensures HoldsWindow(Offer(r, id), Window(if Seen(r, id) then log else log + [id]))
  {
    if !Seen(r, id) {
      RecordSlides(r, Window(log), id);
      WindowSlides(log, id);
    }
  }

  /** The ring is the window of the last eight recorded ids, in order. */
  lemma {:induction false} RingIsWindow(ids: seq<Id>)
    ensures HoldsWindow(Run(ids), Window(Recorded(ids)))
  {
    if ids == [] {
      BootHoldsWindow(BOOT, ZEROS);
    } else {
      var before, id := ids[..|ids| - 1], ids[|ids| - 1];
      RingIsWindow(before);
      OfferKeepsWindow(Run(before), Recorded(before), id);
      RunStep(ids, before, id, Run(before));
    }
  }

  lemma BootHoldsWindow(r: Ring, log: seq<Id>)
    requires r == BOOT && log == ZEROS
    ensures HoldsWindow(r, Window(log))
  {}

  lemma RunStep(ids: seq<Id>, before: seq<Id>, id: Id, r: Ring)
    requires ids != [] && before == ids[..|ids| - 1] && id == ids[|ids| - 1] && r == Run(before)
    ensures Run(ids) == Offer(r, id)
    ensures Recorded(ids) == if Seen(r, id) then Recorded(before) else Recorded(before) + [id]
  {}

  /** A message counts as seen exactly while its id is one of the last eight
      recorded. */
  lemma SeenIsInWindow(ids: seq<Id>, id: Id)
    ensures Seen(Run(ids), id) <==> id in Window(Recorded(ids))
  {
    RingIsWindow(ids);
    HeldMembers(Run(ids), Window(Recorded(ids)), id);
  }

  /** No recorded id occurs among the eight recorded before it. */
  lemma {:induction false} NotAmongEightBefore(ids: seq<Id>, j: nat)
    requires RECENT_IDS <= j < |Recorded(ids)|
    ensures Recorded(ids)[j] !in Recorded(ids)[j - RECENT_IDS..j]
  {
    var before, id := ids[..|ids| - 1], ids[|ids| - 1];
    if j < |Recorded(before)| {
      NotAmongEightBefore(before, j);
      assert Recorded(ids)[..|Recorded(before)|] == Recorded(before);
      assert Recorded(ids)[j - RECENT_IDS..j] == Recorded(before)[j - RECENT_IDS..j];
    } else {
      SeenIsInWindow(before, id);
      assert Recorded(ids)[j - RECENT_IDS..j] == Window(Recorded(before));
    }
  }

  /** An id is recorded again only after eight other ids, all distinct, were
      recorded in between. */
  lemma EightOthersInBetween(ids: seq<Id>, i: nat, j: nat)
    requires RECENT_IDS <= i < j < |Recorded(ids)|
    requires Recorded(ids)[i] == Recorded(ids)[j]
    ensures i < j - RECENT_IDS
    ensures forall k | j - RECENT_IDS <= k < j :: Recorded(ids)[k] != Recorded(ids)[i]
    ensures forall k, l | j - RECENT_IDS <= k < l < j :: Recorded(ids)[k] != Recorded(ids)[l]
  {
    var log := Recorded(ids);
    NotAmongEightBefore(ids, j);
    assert forall k | j - RECENT_IDS <= k < j :: log[k] in log[j - RECENT_IDS..j];
    forall k, l | j - RECENT_IDS <= k < l < j ensures log[k] != log[l] {
      NotAmongEightBefore(ids, l);
      assert log[k] in log[l - RECENT_IDS..l];
    }
  }

  /** The zeroed ring takes a message with the all-zero id for a duplicate
      until eight ids have been recorded; every other first-time id passes. */
  lemma FirstOffer(ids: seq<Id>, id: Id)
    requires id !in ids
    ensures Seen(Run(ids), id) <==> id == ZERO_ID && |Recorded(ids)| < 2 * RECENT_IDS
  {
    SeenIsInWindow(ids, id);
    RecordedComeFrom(ids);
    var log := Recorded(ids);
    var base := |log| - RECENT_IDS;
    assert forall k | 0 <= k < RECENT_IDS :: Window(log)[k] == log[base + k];
    if id == ZERO_ID && |log| < 2 * RECENT_IDS {
      assert Window(log)[0] == ZERO_ID;
    }
  }

  lemma {:induction false} RecordedComeFrom(ids: seq<Id>)
    ensures forall k | 0 <= k < RECENT_IDS :: Recorded(ids)[k] == ZERO_ID
    ensures forall k | RECENT_IDS <= k < |Recorded(ids)| :: Recorded(ids)[k] in ids
  {
    if ids != [] {
      RecordedComeFrom(ids[..|ids| - 1]);
    }
  }

  // ---- Between two passes of one id --------------------------------------------

  /** Message `k` was not taken for a duplicate. */
  predicate Passes(ids: seq<Id>, k: nat)
    requires k < |ids|
  {
    !Seen(Run(ids[..k]), ids[k])
  }

  /** The ids that passed after message `i` and before message `j`. */
  function PassedBetween(ids: seq<Id>, i: nat, j: nat): set<Id> {
    set k: nat | i < k < j && k < |ids| && Passes(ids, k) :: ids[k]
  }

  /** Every id recorded after message `i` was offered by a message that passed. */
  lemma {:induction false} RecordedSincePassed(ids: seq<Id>, i: nat, l: nat)
    requires i < |ids| && |Recorded(ids[..i + 1])| <= l < |Recorded(ids)|
    ensures Recorded(ids)[l] in PassedBetween(ids, i, |ids|)
    decreases |ids|
  {
    var n := |ids| - 1;
    var before := ids[..n];
    assert ids[..|ids|] == ids;
    if i < n && l < |Recorded(before)| {
      assert before[..i + 1] == ids[..i + 1];
      RecordedSincePassed(before, i, l);
      var k: nat :| i < k < n && Passes(before, k) && before[k] == Recorded(before)[l];
      assert before[..k] == ids[..k] && Passes(ids, k);
    } else if i < n {
      assert Passes(ids, n);
    }
  }

  lemma {:induction false} RecordedGrows(ids: seq<Id>, i: nat)
    requires i <= |ids|
    ensures |Recorded(ids[..i])| <= |Recorded(ids)| && Recorded(ids)[..|Recorded(ids[..i])|] == Recorded(ids[..i])
    decreases |ids|
  {
    if i < |ids| {
      var before := ids[..|ids| - 1];
      assert before[..i] == ids[..i];
      RecordedGrows(before, i);
    } else {
      assert ids[..i] == ids;
    }
  }

  lemma PassIsRecorded(ids: seq<Id>, i: nat)
    requires i < |ids| && Passes(ids, i)
    ensures Recorded(ids[..i + 1]) == Recorded(ids[..i]) + [ids[i]]
  {
    assert ids[..i + 1][..i] == ids[..i];
  }

  lemma EightDistinct(s: seq<Id>, in_: set<Id>)
    requires |s| == 8 && forall k | 0 <= k < 8 :: s[k] in in_
    requires forall k, l | 0 <= k < l < 8 :: s[k] != s[l]
    ensures |in_| >= 8
  {
    DistinctPrefix(s, 8);
    var all := set k | 0 <= k < 8 :: s[k];
    assert in_ == all + (in_ - all);
  }

  lemma {:induction false} DistinctPrefix(s: seq<Id>, n: nat)
    requires n <= |s| && forall k, l | 0 <= k < l < n :: s[k] != s[l]
    ensures |set k | 0 <= k < n :: s[k]| == n
  {
    var all := set k | 0 <= k < n :: s[k];
    if n == 0 {
      assert all == {};
    } else {
      DistinctPrefix(s, n - 1);
      var less := set k | 0 <= k < n - 1 :: s[k];
      assert all == less + {s[n - 1]};
    }
  }

  lemma RecordedBetween(ids: seq<Id>, i: nat, j: nat, l: nat)
    requires i < j < |ids| && |Recorded(ids[..i + 1])| <= l < |Recorded(ids[..j])|
    ensures Recorded(ids[..j])[l] in PassedBetween(ids, i, j)
  {
    var upTo := ids[..j];
    assert upTo[..i + 1] == ids[..i + 1];
    RecordedSincePassed(upTo, i, l);
    var m: nat :| i < m < j && Passes(upTo, m) && upTo[m] == Recorded(upTo)[l];
    assert upTo[..m] == ids[..m] && Passes(ids, m);
  }

  /** Where the two passes of one id stand in the log. */
  lemma TwoPlaces(ids: seq<Id>, i: nat, j: nat) returns (log: seq<Id>, a: nat, b: nat)
    requires i < j < |ids| && Passes(ids, i) && Passes(ids, j) && ids[i] == ids[j]
    ensures log == Recorded(ids[..j + 1]) && a == |Recorded(ids[..i])| && b == |Recorded(ids[..j])|
    ensures a < b == |log| - 1 && log[..b] == Recorded(ids[..j]) && log[a] == log[b] == ids[i]
    ensures |Recorded(ids[..i + 1])| == a + 1
  {
    log, a, b := Recorded(ids[..j + 1]), |Recorded(ids[..i])|, |Recorded(ids[..j])|;
    var upTo := ids[..j];
    PassIsRecorded(ids, i);
    PassIsRecorded(ids, j);
    assert upTo[..i + 1] == ids[..i + 1];
    RecordedGrows(upTo, i + 1);
    assert Recorded(upTo)[..a + 1][a] == Recorded(upTo)[a];
  }

  /** A message id passes a second time only after eight others have passed. */
  lemma EightOthersPassed(ids: seq<Id>, i: nat, j: nat)
    requires i < j < |ids| && Passes(ids, i) && Passes(ids, j) && ids[i] == ids[j]
    ensures |PassedBetween(ids, i, j) - {ids[i]}| >= 8
  {
    var log, a, b := TwoPlaces(ids, i, j);
    EightOthersInBetween(ids[..j + 1], a, b);
    var last := log[b - 8..b];
    forall k | 0 <= k < 8 ensures last[k] in PassedBetween(ids, i, j) - {ids[i]} {
      var l := b - 8 + k;
      assert last[k] == log[l] == log[..b][l];
      RecordedBetween(ids, i, j, l);
    }
    forall k, l | 0 <= k < l < 8 ensures last[k] != last[l] {
      assert last[k] == log[b - 8 + k] && last[l] == log[b - 8 + l];
    }
    EightDistinct(last, PassedBetween(ids, i, j) - {ids[i]});
  }

  /** A message that passed stands in the log from then on. */
  lemma PassedIsRecorded(ids: seq<Id>, i: nat, j: nat, k: nat) returns (l: nat)
    requires i < k < j <= |ids| && Passes(ids, k)
    ensures |Recorded(ids[..i + 1])| <= l < |Recorded(ids[..j])| && Recorded(ids[..j])[l] == ids[k]
  {
    l := |Recorded(ids[..k])|;
    assert ids[..j][..k + 1] == ids[..k + 1] && ids[..k][..i + 1] == ids[..i + 1];
    PassIsRecorded(ids, k);
    RecordedGrows(ids[..j], k + 1);
    RecordedGrows(ids[..k], i + 1);
    assert Recorded(ids[..j])[..l + 1][l] == Recorded(ids[..j])[l];
  }

  lemma SetOfFew(s: seq<Id>, in_: set<Id>)
    requires forall id | id in in_ :: id in s
    ensures |in_| <= |s|
    decreases |s|
  {
    if s == [] {
      assert in_ == {};
    } else {
      SetOfFew(s[1..], in_ - {s[0]});
      assert in_ <= (in_ - {s[0]}) + {s[0]};
    }
  }

  /** At most as many ids passed as were recorded. */
  lemma FewRecorded(ids: seq<Id>, i: nat, j: nat)
    requires i < j <= |ids| && |Recorded(ids[..i + 1])| <= |Recorded(ids[..j])|
    ensures |PassedBetween(ids, i, j)| <= |Recorded(ids[..j])| - |Recorded(ids[..i + 1])|
  {
    var a, log := |Recorded(ids[..i + 1])|, Recorded(ids[..j]);
    forall id | id in PassedBetween(ids, i, j) ensures id in log[a..] {
      var k: nat :| i < k < j && Passes(ids, k) && ids[k] == id;
      var l := PassedIsRecorded(ids, i, j, k);
      assert log[a..][l - a] == id;
    }
    SetOfFew(log[a..], PassedBetween(ids, i, j));
  }

  lemma EightOthersReopen(ids: seq<Id>, i: nat, j: nat)
    requires i < j < |ids| && Passes(ids, i) && ids[i] == ids[j]
    requires ids[i] !in PassedBetween(ids, i, j) && |PassedBetween(ids, i, j)| >= 8
    ensures Passes(ids, j)
  {
    var upTo := ids[..j];
    var log := Recorded(upTo);
    assert upTo[..i + 1] == ids[..i + 1];
    RecordedGrows(upTo, i + 1);
    FewRecorded(ids, i, j);
    SeenIsInWindow(upTo, ids[j]);
    if Seen(Run(upTo), ids[j]) {
      var w :| 0 <= w < 8 && Window(log)[w] == ids[j];
      RecordedBetween(ids, i, j, |log| - 8 + w);
      assert false;
    }
  }

  /** The rule, exactly: after it last passed, a message id passes again just
      when at least eight others have passed since. */
  lemma PassesAgainIff(ids: seq<Id>, i: nat, j: nat)
    requires i < j < |ids| && Passes(ids, i) && ids[i] == ids[j] && ids[i] !in PassedBetween(ids, i, j)
    ensures Passes(ids, j) <==> |PassedBetween(ids, i, j)| >= 8
  {
    if Passes(ids, j) {
      EightOthersPassed(ids, i, j);
      assert PassedBetween(ids, i, j) - {ids[i]} == PassedBetween(ids, i, j);
    } else if |PassedBetween(ids, i, j)| >= 8 {
      EightOthersReopen(ids, i, j);
    }
  }

  // ---- A retry after eight others ------------------------------------------------

  ghost predicate Different(ids: seq<Id>) {
    ZERO_ID !in ids && forall i, j | 0 <= i < j < |ids| :: ids[i] != ids[j]
  }

  /** Different ids all pass and are all recorded. */
  lemma {:induction false} DifferentAllPass(ids: seq<Id>, n: nat)
    requires Different(ids) && n <= |ids|
    ensures Recorded(ids[..n]) == ZEROS + ids[..n]
    ensures n < |ids| ==> Passes(ids, n)
  {
    if n == 0 {
      assert ids[..0] == [];
    } else {
      DifferentAllPass(ids, n - 1);
      PassIsRecorded(ids, n - 1);
      assert ZEROS + ids[..n - 1] + [ids[n - 1]] == ZEROS + ids[..n];
    }
    if n < |ids| {
      NextPasses(ids, n);
    }
  }

  lemma NextPasses(ids: seq<Id>, n: nat)
    requires Different(ids) && n < |ids| && Recorded(ids[..n]) == ZEROS + ids[..n]
    ensures Passes(ids, n)
  {
    SeenIsInWindow(ids[..n], ids[n]);
    LastEight(ids[..n], ids[n]);
  }

  lemma LastEight(ids: seq<Id>, id: Id)
    requires id != ZERO_ID && id !in ids
    ensures id !in Window(ZEROS + ids)
  {
    var log := ZEROS + ids;
    forall k | 0 <= k < RECENT_IDS ensures Window(log)[k] != id {
      assert Window(log)[k] == log[|ids| + k];
    }
  }

  /** A message sent again after eight others have passed is taken for new. */
  lemma ForgottenAfterEight(ids: seq<Id>)
    requires |ids| == 9 && Different(ids)
    ensures var run := ids + [ids[0]]; forall k | 0 <= k < 10 :: Passes(run, k)
  {
    var run := ids + [ids[0]];
    forall k | 0 <= k < 10 ensures Passes(run, k) {
      if k < 9 {
        DifferentAllPass(ids, k);
        assert run[..k] == ids[..k];
      } else {
        DifferentAllPass(ids, 9);
        assert run[..9] == ids && ids[..9] == ids;
        SeenIsInWindow(ids, ids[0]);
        assert Window(ZEROS + ids) == ids[1..];
      }
    }
  }
}
