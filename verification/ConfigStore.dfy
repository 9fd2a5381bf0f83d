/** The configuration files under power failures: every step of load and save,
    and what survives them. */
module ConfigStore {
  import opened Basics
  import opened Bits
  import opened ConfigRecord
  import opened ConfigLoad

  /** The live record and the scratch file beside it. */
  datatype Disk = Disk(live: Option<seq<byte>>, scratch: Option<seq<byte>>)

  /** Where the firmware is. */
  datatype Pc =
    | Off                               // no power
    | Reconciling                       // load has been entered
    | Recovering                        // about to rename the scratch file into place
    | Discarding                        // about to remove a stale scratch file
    | Reading                           // about to read the live record
    | Migrating(config: Config)         // rewriting an older record in place
    | LoadReturned(result: Option<Config>)    // load has returned
    | Writing(config: Config)           // write_file is at work on the scratch file
    | Written(config: Config, count: nat)
    | Renaming(config: Config)          // the scratch file was read back and matched
    | Moving(config: Config)            // the rename has unlinked the live record
    | CleaningUp                        // about to remove the scratch file after a failure
    | SaveReturned(ok: bool)                   // save has returned

  /** `begun` lists the original record and every record whose rename began to
      replace the live one. */
  datatype Machine = Machine(disk: Disk, pc: Pc, begun: seq<seq<byte>>)

  function RecordOf(c: Config): seq<byte> {
    if Representable(c) then (StampedRecord(c.(version := 3)); Encode(SavedForm(c))) else []
  }

  predicate Running(pc: Pc) {
    pc.LoadReturned? || pc.SaveReturned?
  }

  // ---- The steps -------------------------------------------------------------------

  /** Power can fail anywhere; the files keep what they hold. */
  predicate PowerCut(m: Machine, m': Machine) {
    m' == m.(pc := Off)
  }

  predicate LoadEntered(m: Machine, m': Machine) {
    (m.pc.Off? || Running(m.pc)) && m' == m.(pc := Reconciling)
  }

  predicate Reconciled(m: Machine, m': Machine) {
    && m.pc.Reconciling?
    && m' == m.(pc := if m.disk.scratch.None? then Reading else if m.disk.live.None? then Recovering else Discarding)
  }

  /** The scratch file becomes the live record. */
  predicate Recovered(m: Machine, m': Machine) {
    m.pc.Recovering? && m' == m.(disk := Disk(m.disk.scratch, None), pc := Reading)
  }

  /** Its rename can fail, and load does not look whether it did. */
  predicate RecoveryFailed(m: Machine, m': Machine) {
    m.pc.Recovering? && m' == m.(pc := Reading)
  }

  predicate Discarded(m: Machine, m': Machine) {
    && m.pc.Discarding? && m'.begun == m.begun && m'.pc == Reading && m'.disk.live == m.disk.live
    && (m'.disk.scratch == None || m'.disk.scratch == m.disk.scratch)
  }

  predicate ReadLive(m: Machine, m': Machine) {
    && m.pc.Reading?
    && match m.disk.live
       case None => m' == m.(pc := LoadReturned(None))
       case Some(data) =>
         match LoadBytes(data)
         case None => m' == m.(pc := LoadReturned(None))
         case Some(l) => m' == m.(pc := if l.migrated then Migrating(l.config) else LoadReturned(Some(l.config)))
  }

  /** The in-place rewrite unlinks the live record and may leave anything. */
  predicate MigrationWrites(m: Machine, m': Machine) {
    m.pc.Migrating? && m' == m.(disk := m.disk.(live := m'.disk.live))
  }

  predicate MigrationDone(m: Machine, m': Machine) {
    m.pc.Migrating? && m' == m.(pc := LoadReturned(Some(m.pc.config)))
  }

  /** Save validates, then starts on the scratch file. */
  predicate SaveEntered(m: Machine, m': Machine) {
    && Running(m.pc)
    && (m' == m.(pc := SaveReturned(false))
        || (m'.pc.Writing? && Representable(m'.pc.config) && Validate(m'.pc.config)
            && m' == m.(disk := m.disk.(scratch := None), pc := m'.pc)))
  }

  /** Any part of the record, or anything else, may have been written. */
  predicate ScratchWritten(m: Machine, m': Machine) {
    m.pc.Writing? && m' == m.(disk := m.disk.(scratch := m'.disk.scratch))
  }

  predicate WriteReturned(m: Machine, m': Machine) {
    m.pc.Writing? && m'.pc.Written? && m' == m.(pc := Written(m.pc.config, m'.pc.count))
  }

  /** Read back and compared. */
  predicate Verified(m: Machine, m': Machine) {
    && m.pc.Written?
    && m' == m.(pc := if m.pc.count == RECORD_SIZE && m.disk.scratch == Some(RecordOf(m.pc.config))
                      then Renaming(m.pc.config) else CleaningUp)
  }

  predicate RenamedAtOnce(m: Machine, m': Machine) {
    && m.pc.Renaming?
    && m' == Machine(Disk(m.disk.scratch, None), SaveReturned(true), m.begun + [RecordOf(m.pc.config)])
  }

  predicate RenameUnlinked(m: Machine, m': Machine) {
    && m.pc.Renaming?
    && m' == Machine(m.disk.(live := None), Moving(m.pc.config), m.begun + [RecordOf(m.pc.config)])
  }

  predicate RenameMoved(m: Machine, m': Machine) {
    m.pc.Moving? && m' == m.(disk := Disk(m.disk.scratch, None), pc := SaveReturned(true))
  }

  /** A rename that reports failure has not touched the live record. */
  predicate RenameFailed(m: Machine, m': Machine) {
    m.pc.Renaming? && m' == m.(pc := CleaningUp)
  }

  predicate CleanedUp(m: Machine, m': Machine) {
    && m.pc.CleaningUp? && m'.begun == m.begun && m'.pc == SaveReturned(false) && m'.disk.live == m.disk.live
    && (m'.disk.scratch == None || m'.disk.scratch == m.disk.scratch)
  }

  predicate LoadStep(m: Machine, m': Machine) {
    || LoadEntered(m, m') || Reconciled(m, m') || Recovered(m, m') || RecoveryFailed(m, m') || Discarded(m, m')
    || ReadLive(m, m') || MigrationWrites(m, m') || MigrationDone(m, m')
  }

  predicate SaveStep(m: Machine, m': Machine) {
    || SaveEntered(m, m') || ScratchWritten(m, m') || WriteReturned(m, m') || Verified(m, m')
    || RenamedAtOnce(m, m') || RenameUnlinked(m, m') || RenameMoved(m, m') || RenameFailed(m, m') || CleanedUp(m, m')
  }

  predicate Next(m: Machine, m': Machine) {
    PowerCut(m, m') || LoadStep(m, m') || SaveStep(m, m')
  }

  // ---- What every step keeps -----------------------------------------------------------

  /** A complete version-3 record. */
  predicate Complete(data: seq<byte>) {
    LoadBytes(data).Some? && !LoadBytes(data).value.migrated
  }

  function Newest(m: Machine): seq<byte>
    requires m.begun != []
  {
    m.begun[|m.begun| - 1]
  }

  /** The pcs of a save that still has something to commit. */
  predicate Carries(pc: Pc) {
    pc.Writing? || pc.Written? || pc.Renaming? || pc.Moving?
  }

  /** What save accepts. */
  predicate Accepted(c: Config) {
    Representable(c) && Validate(c)
  }

  /** The configurations whose saved record loads again: all that save accepts,
      but for version-1 ones with younger fields out of range. */
  predicate Savable(c: Config) {
    Accepted(c) && PlaceValid(c)
  }

  /** The newest record is in the scratch file alone. */
  predicate Stranded(m: Machine)
    requires m.begun != []
  {
    m.disk == Disk(None, Some(Newest(m)))
  }

  /** The newest record is live; only a cut-off rename, and a recovery that fails
      after it, leave it in the scratch file alone. */
  predicate Placed(m: Machine) {
    && m.begun != [] && !m.pc.Migrating?
    && (Carries(m.pc) ==> Accepted(m.pc.config))
    && (m.pc.Renaming? || m.pc.Moving? ==> m.disk.scratch == Some(RecordOf(m.pc.config)))
    && (m.disk.live == Some(Newest(m)) || (Stranded(m) && CanBeStranded(m.pc)))
    && (m.pc.Moving? ==> Stranded(m) && RecordOf(m.pc.config) == Newest(m))
    && (m.pc.Recovering? ==> Stranded(m))
    && (m.pc.Discarding? ==> m.disk.live.Some?)
  }

  predicate CanBeStranded(pc: Pc) {
    || pc.Moving? || pc.Off? || pc.Reconciling? || pc.Recovering? || pc.Reading?
    || pc == LoadReturned(None) || pc == SaveReturned(false)
  }

  /** It is complete, and load returned it, unless it is stranded. */
  predicate Safe(m: Machine) {
    && Placed(m) && Complete(Newest(m))
    && (m.pc.LoadReturned? ==> m.pc.result == if m.disk.live.None? then None else Some(Decoded(Newest(m))))
  }

  function Decoded(data: seq<byte>): Config
    requires Complete(data)
  {
    LoadBytes(data).value.config
  }

  lemma CompleteIff(c: Config)
    requires Accepted(c)
    ensures Complete(RecordOf(c)) <==> Savable(c)
  {
    LoadAfterSave(c);
  }

  /** A save starts on the scratch file. */
  predicate WriteBegins(m: Machine, m': Machine) {
    m'.pc.Writing? && !m.pc.Writing?
  }

  /** ... while there is no live record. */
  predicate Overwrites(m: Machine, m': Machine) {
    WriteBegins(m, m') && m.disk.live.None?
  }

  /** A rename begins for a record that load will refuse. */
  predicate Spoils(m: Machine, m': Machine) {
    m.pc.Renaming? && m'.begun != m.begun && !Savable(m.pc.config)
  }

  lemma ReconcileKeepsPlace(m: Machine, m': Machine)
    requires Placed(m)
    requires LoadEntered(m, m') || Reconciled(m, m') || Recovered(m, m') || RecoveryFailed(m, m') || Discarded(m, m')
    ensures Placed(m') && m'.begun == m.begun && !m'.pc.LoadReturned?
  {}

  lemma WriteKeepsPlace(m: Machine, m': Machine)
    requires Placed(m) && !Overwrites(m, m')
    requires SaveEntered(m, m') || ScratchWritten(m, m') || WriteReturned(m, m') || Verified(m, m')
    ensures Placed(m') && m'.begun == m.begun && !m'.pc.LoadReturned?
  {}

  lemma RenameKeepsPlace(m: Machine, m': Machine)
    requires Placed(m)
    requires RenamedAtOnce(m, m') || RenameUnlinked(m, m') || RenameMoved(m, m') || RenameFailed(m, m')
      || CleanedUp(m, m')
    ensures Placed(m') && !m'.pc.LoadReturned?
    ensures m'.begun == m.begun
      || (m.pc.Renaming? && Accepted(m.pc.config) && m'.begun == m.begun + [RecordOf(m.pc.config)])
  {}

  lemma ReadKeepsPlace(m: Machine, m': Machine, r: Option<ConfigLoad.Loaded>)
    requires Placed(m) && m.pc.Reading? && r == LoadBytes(Newest(m)) && r.Some? && !r.value.migrated && ReadLive(m, m')
    ensures m' == m.(pc := LoadReturned(if m.disk.live.None? then None else Some(r.value.config)))
  {}

  lemma LoadStepIsSafe(m: Machine, m': Machine)
    requires Safe(m) && LoadStep(m, m')
    ensures Safe(m')
  {
    if ReadLive(m, m') {
      ReadKeepsPlace(m, m', LoadBytes(Newest(m)));
    } else {
      ReconcileKeepsPlace(m, m');
    }
  }

  lemma SaveStepIsSafe(m: Machine, m': Machine)
    requires Safe(m) && SaveStep(m, m') && !Overwrites(m, m') && !Spoils(m, m')
    ensures Safe(m')
  {
    if SaveEntered(m, m') || ScratchWritten(m, m') || WriteReturned(m, m') || Verified(m, m') {
      WriteKeepsPlace(m, m');
    } else {
      RenameKeepsPlace(m, m');
      if m'.begun != m.begun {
        CompleteIff(m.pc.config);
      }
    }
  }

  lemma KeptWithoutOverwriting(m: Machine, m': Machine)
    requires Safe(m) && Next(m, m') && !Overwrites(m, m') && !Spoils(m, m')
    ensures Safe(m')
  {
    if PowerCut(m, m') {
    } else if LoadStep(m, m') {
      LoadStepIsSafe(m, m');
    } else {
      SaveStepIsSafe(m, m');
    }
  }

  lemma OverwritingLoses(m: Machine, m': Machine)
    requires Next(m, m') && Overwrites(m, m')
    ensures m'.disk == Disk(None, None) && !Placed(m')
  {
    assert SaveEntered(m, m');
  }

  lemma SpoilingLoses(m: Machine, m': Machine)
    requires Placed(m) && Next(m, m') && Spoils(m, m')
    ensures m'.begun == m.begun + [RecordOf(m.pc.config)] && !Complete(Newest(m'))
  {
    CompleteIff(m.pc.config);
    BegunGrows(m, m');
  }

  /** A step keeps the newest record, loadable and in one file or the other, if
      and only if it neither starts a save while there is no live record nor
      begins to rename a record that load will refuse. */
  lemma StepIsSafeIff(m: Machine, m': Machine)
    requires Safe(m) && Next(m, m')
    ensures Safe(m') <==> !Overwrites(m, m') && !Spoils(m, m')
    ensures Overwrites(m, m') ==> m'.disk == Disk(None, None)
  {
    if Overwrites(m, m') {
      OverwritingLoses(m, m');
    } else if Spoils(m, m') {
      SpoilingLoses(m, m');
    } else {
      KeptWithoutOverwriting(m, m');
    }
  }

  // ---- Runs -----------------------------------------------------------------------------

  ghost predicate IsRun(t: seq<Machine>) {
    forall k | 0 <= k < |t| - 1 :: Next(t[k], t[k + 1])
  }

  /** No record that load will refuse is renamed into place. */
  ghost predicate NeverSpoils(t: seq<Machine>) {
    forall k | 0 <= k < |t| - 1 :: !Spoils(t[k], t[k + 1])
  }

  ghost predicate NeverOverwrites(t: seq<Machine>) {
    forall k | 0 <= k < |t| - 1 :: !Overwrites(t[k], t[k + 1])
  }

  ghost predicate RecoveriesSucceed(t: seq<Machine>) {
    forall k | 0 <= k < |t| - 1 :: !RecoveryFailed(t[k], t[k + 1])
  }

  /** Power comes on over a complete record; the scratch file may hold anything. */
  predicate Starts(m: Machine, original: seq<byte>) {
    m.pc.Off? && m.disk.live == Some(original) && Complete(original) && m.begun == [original]
  }

  lemma StartIsSafe(m: Machine, original: seq<byte>)
    requires Starts(m, original)
    ensures Safe(m)
  {}

  lemma {:induction false} RunIsSafe(t: seq<Machine>, k: nat)
    requires IsRun(t) && NeverSpoils(t) && NeverOverwrites(t) && k < |t| && Safe(t[0])
    ensures Safe(t[k])
  {
    if k > 0 {
      RunIsSafe(t, k - 1);
      StepIsSafeIff(t[k - 1], t[k]);
    }
  }

  /** Through any run of loads, saves, failing recoveries and power cuts in which
      no save starts while there is no live record, and no record is renamed that
      load will refuse: the newest configuration
      whose rename had begun, or else the original, is at every moment in one of
      the two files, and a load that returns yields it, or nothing if it is in the
      scratch file alone. */
  lemma NothingIsLost(t: seq<Machine>, original: seq<byte>, k: nat)
    requires IsRun(t) && NeverSpoils(t) && NeverOverwrites(t) && k < |t| && Starts(t[0], original)
    ensures t[k].begun != [] && Complete(Newest(t[k]))
    ensures t[k].disk.live == Some(Newest(t[k])) || Stranded(t[k])
    ensures t[k].pc.LoadReturned?
      ==> t[k].pc.result == if Stranded(t[k]) then None else Some(Decoded(Newest(t[k])))
  {
    StartIsSafe(t[0], original);
    RunIsSafe(t, k);
  }

  /** Unless a recovery fails, the record is only stranded until load has
      recovered it. */
  predicate Settled(m: Machine) {
    m.disk.live.None? ==> m.pc.Moving? || m.pc.Off? || m.pc.Reconciling? || m.pc.Recovering?
  }

  lemma LoadStepSettles(m: Machine, m': Machine)
    requires Placed(m) && Settled(m) && LoadStep(m, m') && !RecoveryFailed(m, m')
    ensures Settled(m')
  {}

  lemma SaveStepSettles(m: Machine, m': Machine)
    requires Placed(m) && Settled(m) && SaveStep(m, m')
    ensures Settled(m')
  {}

  lemma StepSettles(m: Machine, m': Machine)
    requires Safe(m) && Settled(m) && Next(m, m') && !RecoveryFailed(m, m')
    ensures Settled(m') && !Overwrites(m, m') && (Safe(m') <==> !Spoils(m, m'))
  {
    if PowerCut(m, m') {
    } else if LoadStep(m, m') {
      LoadStepSettles(m, m');
    } else {
      SaveStepSettles(m, m');
    }
    if Overwrites(m, m') {
      OverwritingLoses(m, m');
    }
    StepIsSafeIff(m, m');
  }

  lemma {:induction false} RunSettles(t: seq<Machine>, k: nat)
    requires IsRun(t) && NeverSpoils(t) && RecoveriesSucceed(t) && k < |t| && Safe(t[0]) && Settled(t[0])
    ensures Safe(t[k]) && Settled(t[k])
    ensures k > 0 ==> !Overwrites(t[k - 1], t[k])
  {
    if k > 0 {
      RunSettles(t, k - 1);
      StepSettles(t[k - 1], t[k]);
    }
  }

  lemma SettledMeansLive(m: Machine)
    requires Safe(m) && Settled(m)
    ensures Running(m.pc) ==> m.disk.live == Some(Newest(m))
    ensures m.pc.LoadReturned? ==> m.pc.result == Some(Decoded(Newest(m)))
  {}

  /** While recoveries succeed, no save can start without a live record: every
      load that returns yields the newest configuration, and every load or save
      that has returned left its record live. */
  lemma LoadsSucceed(t: seq<Machine>, original: seq<byte>, k: nat)
    requires IsRun(t) && NeverSpoils(t) && RecoveriesSucceed(t) && k < |t| && Starts(t[0], original)
    ensures t[k].begun != [] && Complete(Newest(t[k]))
    ensures Running(t[k].pc) ==> t[k].disk.live == Some(Newest(t[k]))
    ensures t[k].pc.LoadReturned? ==> t[k].pc.result == Some(Decoded(Newest(t[k])))
  {
    StartIsSafe(t[0], original);
    RunSettles(t, k);
    SettledMeansLive(t[k]);
  }

  lemma RecoveredNeverOverwrites(t: seq<Machine>, original: seq<byte>)
    requires IsRun(t) && NeverSpoils(t) && RecoveriesSucceed(t) && t != [] && Starts(t[0], original)
    ensures NeverOverwrites(t)
  {
    StartIsSafe(t[0], original);
    forall l | 0 <= l < |t| - 1 ensures !Overwrites(t[l], t[l + 1]) {
      RunSettles(t, l + 1);
    }
  }

  /** Only a rename that begins adds a record. */
  lemma BegunGrows(m: Machine, m': Machine)
    requires Next(m, m')
    ensures m'.begun == m.begun || (m.pc.Renaming? && m'.begun == m.begun + [RecordOf(m.pc.config)])
  {}

  /** What `begun` holds: first the original, then records of saved
      configurations, each added when its rename begins. */
  lemma {:induction false} BegunRecords(t: seq<Machine>, original: seq<byte>, k: nat, i: nat)
    requires IsRun(t) && k < |t| && t[0].begun == [original] && i < |t[k].begun|
    ensures i == 0 ==> t[k].begun[i] == original
    ensures i > 0 ==> exists j :: 0 <= j < k && t[j].pc.Renaming? && t[k].begun[i] == RecordOf(t[j].pc.config)
    decreases k
  {
    if k > 0 {
      BegunGrows(t[k - 1], t[k]);
      if i < |t[k - 1].begun| {
        BegunRecords(t, original, k - 1, i);
      } else {
        BegunNonempty(t, original, k - 1);
      }
    }
  }

  lemma {:induction false} BegunNonempty(t: seq<Machine>, original: seq<byte>, k: nat)
    requires IsRun(t) && k < |t| && t[0].begun == [original]
    ensures t[k].begun != []
    decreases k
  {
    if k > 0 {
      BegunNonempty(t, original, k - 1);
      BegunGrows(t[k - 1], t[k]);
    }
  }

  lemma RunGrows(t: seq<Machine>, m: Machine)
    requires t != [] && IsRun(t) && Next(t[|t| - 1], m)
    ensures IsRun(t + [m])
    ensures NeverSpoils(t) && !Spoils(t[|t| - 1], m) ==> NeverSpoils(t + [m])
  {
    var all := t + [m];
    forall k | 0 <= k < |all| - 1
      ensures Next(all[k], all[k + 1])
      ensures NeverSpoils(t) && !Spoils(t[|t| - 1], m) ==> !Spoils(all[k], all[k + 1])
    {
      if k < |t| - 1 {
        assert all[k] == t[k] && all[k + 1] == t[k + 1];
      }
    }
  }

  /** A run so far, and its last state. */
  ghost predicate Reaches(t: seq<Machine>, first: Machine, last: Machine) {
    t != [] && IsRun(t) && NeverSpoils(t) && t[0] == first && t[|t| - 1] == last
  }

  lemma Step(t: seq<Machine>, first: Machine, m: Machine, m': Machine) returns (t': seq<Machine>)
    requires Reaches(t, first, m) && Next(m, m') && !Spoils(m, m')
    ensures Reaches(t', first, m')
  {
    RunGrows(t, m');
    t' := t + [m'];
  }

  lemma FirstBoot(start: Machine, original: seq<byte>) returns (t: seq<Machine>)
    requires Starts(start, original) && start.disk.scratch == None
    ensures Reaches(t, start, start.(pc := LoadReturned(Some(Decoded(original)))))
  {
    t := Step([start], start, start, start.(pc := Reconciling));
    t := Step(t, start, start.(pc := Reconciling), start.(pc := Reading));
    t := Step(t, start, start.(pc := Reading), start.(pc := LoadReturned(Some(Decoded(original)))));
  }

  /** A save that gets as far as its rename. */
  lemma SaveToRename(t: seq<Machine>, first: Machine, m: Machine, c: Config) returns (t': seq<Machine>)
    requires Reaches(t, first, m) && Running(m.pc) && m.disk.scratch == None && Savable(c)
    ensures Reaches(t', first, m.(disk := m.disk.(scratch := Some(RecordOf(c))), pc := Renaming(c)))
  {
    var written := m.(disk := m.disk.(scratch := Some(RecordOf(c))));
    t' := Step(t, first, m, m.(pc := Writing(c)));
    t' := Step(t', first, m.(pc := Writing(c)), written.(pc := Writing(c)));
    t' := Step(t', first, written.(pc := Writing(c)), written.(pc := Written(c, RECORD_SIZE)));
    t' := Step(t', first, written.(pc := Written(c, RECORD_SIZE)), written.(pc := Renaming(c)));
  }

  /** Over any complete record, and for any savable configuration: a save is cut
      off between unlinking and moving. */
  lemma CutOffSave(original: seq<byte>, c: Config) returns (t: seq<Machine>, m: Machine)
    requires Complete(original) && Savable(c)
    ensures m == Machine(Disk(None, Some(RecordOf(c))), Off, [original, RecordOf(c)])
    ensures |t| > 0 && Starts(t[0], original) && Reaches(t, t[0], m)
  {
    var start := Machine(Disk(Some(original), None), Off, [original]);
    var renaming := Machine(Disk(Some(original), Some(RecordOf(c))), Renaming(c), [original]);
    var moving := Machine(Disk(None, Some(RecordOf(c))), Moving(c), [original, RecordOf(c)]);
    m := moving.(pc := Off);
    t := FirstBoot(start, original);
    t := SaveToRename(t, start, start.(pc := LoadReturned(Some(Decoded(original)))), c);
    t := Step(t, start, renaming, moving);
    t := Step(t, start, moving, m);
  }

  /** If the recovery rename fails at the boot after that, load finds nothing; and
      if the firmware then saves, the newest record is gone from both files. */
  lemma FailedRecoveryLoses(original: seq<byte>, c: Config, other: Config)
    returns (t: seq<Machine>, found: Machine, lost: Machine)
    requires Complete(original) && Savable(c) && Savable(other)
    ensures |t| > 1 && Starts(t[0], original) && Reaches(t, t[0], lost) && t[|t| - 2] == found
    ensures found.pc == LoadReturned(None) && found.begun == lost.begun != []
    ensures Newest(found) == RecordOf(c) && Stranded(found)
    ensures Overwrites(found, lost) && Newest(lost) == RecordOf(c) && lost.disk == Disk(None, None)
  {
    var m;
    t, m := CutOffSave(original, c);
    var start := t[0];
    found, lost := m.(pc := LoadReturned(None)), Machine(Disk(None, None), Writing(other), m.begun);
    t := Step(t, start, m, m.(pc := Reconciling));
    t := Step(t, start, m.(pc := Reconciling), m.(pc := Recovering));
    t := Step(t, start, m.(pc := Recovering), m.(pc := Reading));
    t := Step(t, start, m.(pc := Reading), found);
    RunGrows(t, lost);
    t := t + [lost];
  }

  // ---- The code ------------------------------------------------------------------------

  function ReadFrom(file: Option<seq<byte>>): Option<Config> {
    if file.None? || LoadBytes(file.value).None? then None else Some(LoadBytes(file.value).value.config)
  }

  /** The record is of an older version, and loads. */
  predicate Migrates(data: seq<byte>) {
    LoadBytes(data).Some? && LoadBytes(data).value.migrated
  }

  /** What becomes of a rename. */
  datatype RenameAnswer = AtOnce | UnlinkThenMove | Refused

  /** What the flash makes of one save: the scratch file's content and the count
      reported for it, the rename, and whether a clean-up removes the file. */
  datatype Answers = Answers(content: Option<seq<byte>>, count: nat, rename: RenameAnswer, removal: bool)

  /** The two files, driven as load and save drive them. What the flash does with
      each call is given by its answers; every state it passes through is
      recorded, and is a step of the machine, so a power cut at any point is
      covered by it. */
  class Flash {
    var live: Option<seq<byte>>
    var scratch: Option<seq<byte>>
    ghost var trace: seq<Machine>

    /** Power-on, over whatever the files hold. */
    constructor (live: Option<seq<byte>>, scratch: Option<seq<byte>>, ghost begun: seq<seq<byte>>)
      ensures Valid() && this.live == live && this.scratch == scratch
      ensures trace == [Machine(Disk(live, scratch), Off, begun)]
    {
      this.live, this.scratch := live, scratch;
      trace := [Machine(Disk(live, scratch), Off, begun)];
    }

    ghost predicate Valid()
      reads this
    {
      trace != [] && Now().disk == Disk(live, scratch) && IsRun(trace)
    }

    ghost function Now(): Machine
      requires trace != []
      reads this
    {
      trace[|trace| - 1]
    }

    /** The run so far, and one more state. */
    ghost method Record(pc: Pc, begun: seq<seq<byte>>)
      requires trace != [] && IsRun(trace)
      requires var m' := Machine(Disk(live, scratch), pc, begun); Next(Now(), m')
      modifies this`trace
      ensures Valid() && trace == old(trace) + [Machine(Disk(live, scratch), pc, begun)]
    {
      RunGrows(trace, Machine(Disk(live, scratch), pc, begun));
      trace := trace + [Machine(Disk(live, scratch), pc, begun)];
    }

    /** Unlinks the scratch file, then writes what the flash makes of the record;
        the count it reports is the flash's answer too. */
    method WriteScratch(c: Config, answers: Answers)
      requires Valid() && Running(Now().pc) && Representable(c) && Validate(c)
      modifies this
      ensures Valid() && old(trace) <= trace && live == old(live) && scratch == answers.content
      ensures Now() == Machine(Disk(live, scratch), Written(c, answers.count), old(Now().begun))
    {
      ghost var begun := Now().begun;
      scratch := None;
      Record(Writing(c), begun);
      scratch := answers.content;
      Record(Writing(c), begun);
      Record(Written(c, answers.count), begun);
    }

    /** Atomic, or an unlink and a move, or a failure that leaves both files
        alone. */
    method RenameScratch(c: Config, how: RenameAnswer) returns (ok: bool)
      requires Valid() && Now().pc == Renaming(c)
      modifies this
      ensures Valid() && old(trace) <= trace && (ok <==> how != Refused)
      ensures ok ==> live == old(scratch) && scratch == None
      ensures ok ==> Now() == Machine(Disk(live, scratch), SaveReturned(true), old(Now().begun) + [RecordOf(c)])
      ensures !ok ==> live == old(live) && scratch == old(scratch)
      ensures !ok ==> Now() == Machine(Disk(live, scratch), CleaningUp, old(Now().begun))
    {
      ghost var begun := Now().begun;
      match how {
        case Refused =>
          Record(CleaningUp, begun);
          return false;
        case AtOnce =>
          live, scratch := scratch, None;
          Record(SaveReturned(true), begun + [RecordOf(c)]);
        case UnlinkThenMove =>
          live := None;
          Record(Moving(c), begun + [RecordOf(c)]);
          live, scratch := scratch, None;
          Record(SaveReturned(true), begun + [RecordOf(c)]);
      }
      ok := true;
    }

    method RemoveScratch(works: bool)
      requires Valid() && Now().pc.CleaningUp?
      modifies this
      ensures Valid() && old(trace) <= trace && live == old(live) && scratch == if works then None else old(scratch)
      ensures Now() == Machine(Disk(live, scratch), SaveReturned(false), old(Now().begun))
    {
      ghost var begun := Now().begun;
      if works {
        scratch := None;
      }
      Record(SaveReturned(false), begun);
    }

    /** Succeeds exactly for a valid configuration whose record was written whole
        and whose rename works. Then the stamped record is live; else the live
        record is as it was. */
    method Save(c: Config, answers: Answers) returns (ok: bool)
      requires Valid() && Running(Now().pc) && Representable(c)
      modifies this
      ensures Valid() && old(trace) <= trace && Now().pc == SaveReturned(ok)
      ensures ok <==>
        Validate(c) && answers.count == 96 && answers.content == Some(RecordOf(c)) && answers.rename != Refused
      ensures ok ==> live == Some(RecordOf(c)) && scratch == None
      ensures ok ==> Now().begun == old(Now().begun) + [RecordOf(c)]
      ensures !ok ==> live == old(live) && Now().begun == old(Now().begun)
      ensures !ok && Validate(c) && answers.removal ==> scratch == None
    {
      var valid := CheckFields(c);
      if !valid {
        Record(SaveReturned(false), Now().begun);
        return false;
      }
      var record := BuildRecord(c);
      WriteScratch(c, answers);
      if answers.count != 96 || scratch != Some(record) {
        Record(CleaningUp, Now().begun);
        RemoveScratch(answers.removal);
        return false;
      }
      Record(Renaming(c), Now().begun);
      ok := RenameScratch(c, answers.rename);
      if !ok {
        RemoveScratch(answers.removal);
      }
    }

    /** Reconciles the two files: a scratch file is renamed into place if there is
        no live record, else removed; `works` is whether the flash does it. */
    method Reconcile(works: bool)
      requires Valid() && (Now().pc.Off? || Running(Now().pc))
      modifies this
      ensures Valid() && old(trace) <= trace && Now() == Machine(Disk(live, scratch), Reading, old(Now().begun))
      ensures works ==> live == (if old(live).Some? then old(live) else old(scratch)) && scratch == None
      ensures !works ==> live == old(live) && scratch == old(scratch)
    {
      ghost var begun := Now().begun;
      Record(Reconciling, begun);
      if scratch.Some? {
        if live.None? {
          Record(Recovering, begun);
          if works {
            live, scratch := scratch, None;
          }
        } else {
          Record(Discarding, begun);
          if works {
            scratch := None;
          }
        }
      }
      Record(Reading, begun);
    }

    /** `works` as above; `rewritten` is what the in-place rewrite of an older
        record leaves behind. */
    method Load(works: bool, rewritten: Option<seq<byte>>) returns (r: Option<Config>)
      requires Valid() && (Now().pc.Off? || Running(Now().pc))
      modifies this
      ensures Valid() && old(trace) <= trace && Now().pc == LoadReturned(r) && Now().begun == old(Now().begun)
      ensures var found := if old(live).Some? then old(live) else if works then old(scratch) else None;
        && r == ReadFrom(found)
        && live == if found.Some? && Migrates(found.value) then rewritten else found
      ensures scratch == if works then None else old(scratch)
    {
      Reconcile(works);
      r := ReadAndMigrate(rewritten);
    }

    /** The live record as it loads; an older one is rewritten in place. */
    method ReadAndMigrate(rewritten: Option<seq<byte>>) returns (r: Option<Config>)
      requires Valid() && Now().pc.Reading?
      modifies this
      ensures Valid() && old(trace) <= trace && Now() == Machine(Disk(live, scratch), LoadReturned(r), old(Now().begun))
      ensures r == ReadFrom(old(live)) && scratch == old(scratch)
      ensures live == if old(live).Some? && Migrates(old(live).value) then rewritten else old(live)
    {
      ghost var begun := Now().begun;
      if live.None? {
        Record(LoadReturned(None), begun);
        return None;
      }
      var found := ReadFile(live.value);
      if found.None? {
        Record(LoadReturned(None), begun);
        return None;
      }
      var config := found.value.config;
      if found.value.migrated {
        Record(Migrating(config), begun);
        live := rewritten;
        Record(Migrating(config), begun);
      }
      Record(LoadReturned(Some(config)), begun);
      return Some(config);
    }
  }

  /** Power fails at any state `k` of any such run; the next boot finds the two
      files as they are then. If the recovery rename works, or is not needed, it
      brings back the newest configuration whose rename had begun; if it is
      needed and fails, the record stays where it is for the boot after. */
  method BootAfterCut(live: Option<seq<byte>>, scratch: Option<seq<byte>>, works: bool,
                      ghost t: seq<Machine>, ghost k: nat, ghost original: seq<byte>)
    returns (r: Option<Config>, live': Option<seq<byte>>, scratch': Option<seq<byte>>)
    requires IsRun(t) && NeverSpoils(t) && NeverOverwrites(t) && k < |t| && Starts(t[0], original)
    requires t[k].disk == Disk(live, scratch)
    ensures t[k].begun != [] && Complete(Newest(t[k]))
    ensures works || live.Some? ==> r == Some(Decoded(Newest(t[k]))) && live' == Some(Newest(t[k]))
    ensures !works && live.None? ==> r == None && live' == None && scratch' == Some(Newest(t[k]))
  {
    NothingIsLost(t, original, k);
    var flash := new Flash(live, scratch, t[k].begun);
    r := flash.Load(works, None);
    live', scratch' := flash.live, flash.scratch;
  }
}
