/** The configuration store and the staging area together: what the firmware
    saves are edits over what it last loaded, so every record it saves loads. */
module StagedRuns {
  import opened Basics
  import opened Bits
  import opened ConfigRecord
  import opened ConfigLoad
  import opened ConfigStore
  import opened Staging
  import opened Console

  /** What the defaults are made of. */
  datatype Chip = Chip(board: Board, id0: Word32, id1: Word32)

  function DefaultsOf(chip: Chip): Config {
    Defaults(chip.board, chip.id0, chip.id1)
  }

  /** The configuration the firmware runs on at state `k`: what the latest load
      returned, or the defaults if it returned nothing. */
  function LiveAt(t: seq<Machine>, k: nat, chip: Chip): Config
    requires k < |t|
  {
    if t[k].pc.LoadReturned? then if t[k].pc.result.Some? then t[k].pc.result.value else DefaultsOf(chip)
    else if k == 0 then DefaultsOf(chip)
    else LiveAt(t, k - 1, chip)
  }

  /** `c` is what some sequence of edits makes of the running configuration. */
  ghost predicate StagedFrom(c: Config, live: Config, chip: Chip) {
    exists actions: seq<Action>, divide: Divide, oracle: Oracle ::
      c == ActAll(live, actions, Context(live, chip.board, chip.id0, chip.id1, divide, oracle))
  }

  /** Whatever is saved was staged. */
  ghost predicate AllStaged(t: seq<Machine>, chip: Chip) {
    forall k | 0 <= k < |t| - 1 && WriteBegins(t[k], t[k + 1]) ::
      StagedFrom(t[k + 1].pc.config, LiveAt(t, k, chip), chip)
  }

  lemma StagedIsSavable(c: Config, live: Config, chip: Chip)
    requires StagedFrom(c, live, chip) && Savable(live) && BoardValid(chip.board)
    ensures Savable(c)
  {
    var actions: seq<Action>, divide: Divide, oracle: Oracle :|
      c == ActAll(live, actions, Context(live, chip.board, chip.id0, chip.id1, divide, oracle));
    StagingStaysFit(live, actions, Context(live, chip.board, chip.id0, chip.id1, divide, oracle));
  }

  /** The newest record's younger fields are in range, and so are those of what
      is being saved. */
  predicate Good(m: Machine) {
    Safe(m) && InRange(m.begun) && (Carries(m.pc) ==> Savable(m.pc.config))
  }

  predicate InRange(begun: seq<seq<byte>>) {
    begun != [] && Complete(begun[|begun| - 1]) && PlaceValid(Decoded(begun[|begun| - 1]))
  }

  lemma LoadedIsAccepted(data: seq<byte>)
    requires Complete(data)
    ensures Accepted(Decoded(data))
  {
    RecordIsOnto(data);
  }

  lemma RangeGrows(begun: seq<seq<byte>>, c: Config)
    requires Savable(c)
    ensures InRange(begun + [RecordOf(c)])
  {
    LoadAfterSave(c);
  }

  lemma NotSpoiled(m: Machine, m': Machine)
    requires Carries(m.pc) ==> Savable(m.pc.config)
    ensures !Spoils(m, m')
  {}

  lemma StillCarries(m: Machine, m': Machine)
    requires Next(m, m') && Carries(m'.pc) && !WriteBegins(m, m')
    ensures Carries(m.pc) && m'.pc.config == m.pc.config
  {}

  lemma StepIsGood(m: Machine, m': Machine)
    requires Good(m) && Next(m, m') && !Overwrites(m, m') && (WriteBegins(m, m') ==> Savable(m'.pc.config))
    ensures Good(m') && !Spoils(m, m')
  {
    hide Safe, Next, Spoils, Overwrites, Savable, InRange;
    NotSpoiled(m, m');
    StepIsSafeIff(m, m');
    BegunGrows(m, m');
    if m'.begun != m.begun {
      RangeGrows(m.begun, m.pc.config);
    }
    if Carries(m'.pc) && !WriteBegins(m, m') {
      StillCarries(m, m');
    }
  }

  lemma LiveIsSavable(m: Machine, live: Config, chip: Chip)
    requires Good(m) && m.pc.LoadReturned? && BoardValid(chip.board)
    requires live == if m.pc.result.Some? then m.pc.result.value else DefaultsOf(chip)
    ensures Savable(live)
  {
    if m.pc.result.Some? {
      LoadedIsSavable(m);
    } else {
      DefaultsAreSound(chip.board, chip.id0, chip.id1);
    }
  }

  lemma LoadedIsSavable(m: Machine)
    requires Good(m) && m.pc.LoadReturned? && m.pc.result.Some?
    ensures Savable(m.pc.result.value)
  {
    LoadedIsAccepted(Newest(m));
  }

  /** Nothing overwrites the newest record; a caller can also rely on recoveries
      that succeed. */
  ghost predicate Careful(t: seq<Machine>) {
    NeverOverwrites(t) || RecoveriesSucceed(t)
  }

  lemma NoOverwrite(m: Machine, m': Machine)
    requires Good(m) && Settled(m) && Next(m, m') && !RecoveryFailed(m, m')
    ensures !Overwrites(m, m') && Settled(m')
  {
    StepSettles(m, m');
  }

  lemma {:induction false} RunIsGood(t: seq<Machine>, original: seq<byte>, chip: Chip, k: nat)
    requires IsRun(t) && Careful(t) && AllStaged(t, chip) && BoardValid(chip.board) && k < |t|
    requires Starts(t[0], original) && PlaceValid(Decoded(original))
    ensures Good(t[k]) && Savable(LiveAt(t, k, chip)) && (RecoveriesSucceed(t) ==> Settled(t[k]))
    ensures k > 0 ==> !Spoils(t[k - 1], t[k]) && !Overwrites(t[k - 1], t[k])
  {
    if k == 0 {
      DefaultsAreSound(chip.board, chip.id0, chip.id1);
    } else {
      RunIsGood(t, original, chip, k - 1);
      if RecoveriesSucceed(t) {
        NoOverwrite(t[k - 1], t[k]);
      }
      if WriteBegins(t[k - 1], t[k]) {
        StagedIsSavable(t[k].pc.config, LiveAt(t, k - 1, chip), chip);
      }
      StepIsGood(t[k - 1], t[k]);
      if t[k].pc.LoadReturned? {
        LiveIsSavable(t[k], LiveAt(t, k, chip), chip);
      }
    }
  }

  lemma StagedNeverSpoils(t: seq<Machine>, original: seq<byte>, chip: Chip)
    requires IsRun(t) && Careful(t) && AllStaged(t, chip) && BoardValid(chip.board) && t != []
    requires Starts(t[0], original) && PlaceValid(Decoded(original))
    ensures NeverSpoils(t) && NeverOverwrites(t)
  {
    forall k | 0 <= k < |t| - 1 ensures !Spoils(t[k], t[k + 1]) && !Overwrites(t[k], t[k + 1]) {
      RunIsGood(t, original, chip, k + 1);
    }
  }

  /** Whatever is edited and committed, over any run of loads, saves and power
      cuts in which no save starts while there is no live record: the newest
      configuration is never lost. */
  lemma StagedRunsLoseNothing(t: seq<Machine>, original: seq<byte>, chip: Chip, k: nat)
    requires IsRun(t) && NeverOverwrites(t) && AllStaged(t, chip) && BoardValid(chip.board) && k < |t|
    requires Starts(t[0], original) && PlaceValid(Decoded(original))
    ensures t[k].begun != [] && Complete(Newest(t[k]))
    ensures t[k].disk.live == Some(Newest(t[k])) || Stranded(t[k])
    ensures t[k].pc.LoadReturned?
      ==> t[k].pc.result == if Stranded(t[k]) then None else Some(Decoded(Newest(t[k])))
  {
    StagedNeverSpoils(t, original, chip);
    NothingIsLost(t, original, k);
  }

  /** While recoveries succeed nothing more is asked of the run: every load
      yields the newest configuration. */
  lemma StagedLoadsSucceed(t: seq<Machine>, original: seq<byte>, chip: Chip, k: nat)
    requires IsRun(t) && RecoveriesSucceed(t) && AllStaged(t, chip) && BoardValid(chip.board) && k < |t|
    requires Starts(t[0], original) && PlaceValid(Decoded(original))
    ensures t[k].begun != [] && Complete(Newest(t[k]))
    ensures Running(t[k].pc) ==> t[k].disk.live == Some(Newest(t[k]))
    ensures t[k].pc.LoadReturned? ==> t[k].pc.result == Some(Decoded(Newest(t[k])))
  {
    StagedNeverSpoils(t, original, chip);
    LoadsSucceed(t, original, k);
  }
}
