/** What recovery and the Windows worker do when nothing disturbs them, and why repeating them ends. */
module UpdateConvergence {
  import opened Wrappers
  import opened UpdateProtocol

  /** What one undisturbed recovery leaves of `d`, working files aside. The candidate of an unapproved update
      is discarded. */
  function Recovered(w: World, d: Disk): Disk {
    match d.record.pending
    case None => d
    case Some(Pending(phase, next)) =>
      match Classify(w, d.record.current, next, d.files)
      case None => d
      case Some(state) => RecoveredFrom(w, d, phase, next, state)
  }

  function RecoveredFrom(w: World, d: Disk, phase: Phase, next: Release, state: FileState): Disk
    requires d.record.pending == Some(Pending(phase, next))
    requires Classify(w, d.record.current, next, d.files) == Some(state)
  {
    var candidate, backup := CandidatePath(next), BackupPath(d.record.current);
    if phase == Staged then
      if state == STAGED || state == FileState(Old, Missing, Missing)
      then Disk(Cleared(d.record), d.files - {candidate})
      else d
    else if phase == Cleanup then
      if state.target.New? && state.candidate.Missing?
      then Disk(Committed(d.record), d.files - {backup})
      else d
    else if state.target.Old? && state.candidate.Missing? && (w.platform.Windows? || state.backup.Missing?) then
      Disk(Cleared(d.record), d.files - {backup})
    else if state == STAGED && w.platform.Unix? then
      Disk(Committed(d.record), Moved(d.files, candidate, Target))
    else if state.target.Old? && state.candidate.New? && w.platform.Windows? then
      Disk(Phased(d.record, Replacing), d.files[backup := Whole(d.record.current.digest)])
    else if phase == Ready then
      d
    else if state.target.New? && state.candidate.Missing? && (w.platform.Windows? || state.backup.Missing?) then
      Disk(Committed(d.record), d.files - {backup})
    else if state == FileState(Missing, Missing, Old) && w.platform.Windows? then
      Disk(Cleared(d.record), Moved(d.files, backup, Target))
    else if state == FileState(Missing, New, Old) && w.platform.Windows? then
      d.(files := d.files[Target := Whole(d.record.current.digest)])
    else
      d
  }

  /** The two maps agree on all other files. */
  ghost predicate AgreeBeside(paths: set<FilePath>, a: Files, b: Files) {
    forall p :: p !in paths ==> (p in a <==> p in b) && (p in a ==> a[p] == b[p])
  }

  /** The files that a change of the backup can touch. */
  function BackupPaths(current: Release): set<FilePath> {
    {BackupPath(current), WorkerTmp(Key(current.digest)), WorkerPart(Key(current.digest))}
  }

  /** The state of the files of a pending update. */
  function StateOf(w: World, d: Disk): Option<FileState>
    requires d.record.pending.Some?
  {
    Classify(w, d.record.current, d.record.pending.value.release, d.files)
  }

  /** The replacement is done: the record follows it and the backup goes. */
  lemma CommittingRecovers(w: World, d: Disk, d': Disk)
    requires d.record.pending.Some?
    requires StateOf(w, d) in {Some(FileState(New, Missing, Missing)), Some(FileState(New, Missing, Old))}
    requires d.record.pending.value.phase == Cleanup || (d.record.pending.value.phase == Replacing && (w.platform.Windows? || StateOf(w, d).value.backup.Missing?))
    requires d' == Disk(Committed(d.record), d.files - {BackupPath(d.record.current)})
    ensures SameRoles(d', Recovered(w, d))
  {
  }

  /** A cleanup that starts in `Replacing`. */
  lemma CleaningRecovers(w: World, d: Disk, d': Disk)
    requires d.record.pending.Some? && d.record.pending.value.phase == Replacing && w.platform.Windows?
    requires StateOf(w, d) == Some(FileState(New, Missing, Old))
    requires SameRoles(d', Recovered(w, d.(record := Phased(d.record, Cleanup))))
    ensures SameRoles(d', Recovered(w, d))
  {
  }

  /** The candidate is gone: the update is given up and the backup goes. */
  lemma ClearingRecovers(w: World, d: Disk, d': Disk)
    requires d.record.pending.Some? && d.record.pending.value.phase in {Ready, Replacing}
    requires StateOf(w, d) in {Some(FileState(Old, Missing, Missing)), Some(FileState(Old, Missing, Old))}
    requires w.platform.Windows? || StateOf(w, d).value.backup.Missing?
    requires d' == Disk(Cleared(d.record), d.files - {BackupPath(d.record.current)})
    ensures SameRoles(d', Recovered(w, d))
  {
  }

  lemma DiscardingRecovers(w: World, d: Disk, d': Disk)
    requires d.record.pending.Some? && d.record.pending.value.phase == Staged
    requires StateOf(w, d) in {Some(STAGED), Some(FileState(Old, Missing, Missing))}
    requires d' == Disk(Cleared(d.record), d.files - {CandidatePath(d.record.pending.value.release)})
    ensures SameRoles(d', Recovered(w, d))
  {
  }

  lemma InstallingRecovers(w: World, d: Disk, d': Disk)
    requires d.record.pending.Some? && d.record.pending.value.phase in {Ready, Replacing} && w.platform.Unix?
    requires StateOf(w, d) == Some(STAGED)
    requires d' == Disk(Committed(d.record), Moved(d.files, CandidatePath(d.record.pending.value.release), Target))
    ensures SameRoles(d', Recovered(w, d))
  {
  }

  lemma PreparingRecovers(w: World, d: Disk, d': Disk)
    requires d.record.pending.Some? && d.record.pending.value.phase in {Ready, Replacing} && w.platform.Windows?
    requires StateOf(w, d) in {Some(FileState(Old, New, Missing)), Some(FileState(Old, New, Old))}
    requires d'.record == Phased(d.record, Replacing) && AgreeBeside(BackupPaths(d.record.current), d'.files, d.files)
    requires ClassifyBackup(w, d.record.current, d'.files) == Some(Old)
    ensures SameRoles(d', Recovered(w, d))
  {
  }

  /** The stable file is gone: the backup is moved back, and the worker prepared again if there is a candidate. */
  lemma RestoringRecovers(w: World, d: Disk, d': Disk)
    requires d.record.pending.Some? && d.record.pending.value.phase == Replacing && w.platform.Windows?
    requires StateOf(w, d) == Some(FileState(Missing, Missing, Old))
    requires d' == Disk(Cleared(d.record), Moved(d.files, BackupPath(d.record.current), Target))
    ensures SameRoles(d', Recovered(w, d))
  {
  }

  lemma RestoringAndPreparingRecovers(w: World, d: Disk, d': Disk)
    requires d.record.pending.Some? && d.record.pending.value.phase == Replacing && w.platform.Windows?
    requires StateOf(w, d) == Some(FileState(Missing, New, Old))
    requires d'.record == d.record
    requires AgreeBeside(BackupPaths(d.record.current), d'.files, Moved(d.files, BackupPath(d.record.current), Target))
    requires ClassifyBackup(w, d.record.current, d'.files) == Some(Old)
    ensures SameRoles(d', Recovered(w, d))
  {
  }

  /** What one undisturbed attempt of the Windows worker leaves of `d`. */
  function Worked(w: World, d: Disk): Disk {
    match d.record.pending
    case None => d
    case Some(Pending(phase, next)) =>
      var state := Classify(w, d.record.current, next, d.files);
      if w.platform.Unix? then d
      else if phase == Replacing && state == Some(FileState(Old, New, Old)) then
        Disk(Phased(d.record, Cleanup), Moved(d.files, CandidatePath(next), Target))
      else if phase in {Replacing, Cleanup} && state == Some(FileState(New, Missing, Old)) then
        Disk(Phased(d.record, Cleanup), d.files)
      else d
  }

  /** Whether an undisturbed attempt of the worker that runs `self` has something to do, or nothing is left to do. */
  predicate WorkerFinishes(w: World, self: FilePath, d: Disk) {
    d.record.pending.Some? ==>
      && self == BackupPath(d.record.current) && self in d.files
      && StateOf(w, d).Some? && WorkerHandles(d.record.pending.value.phase, StateOf(w, d).value)
  }

  lemma InstallingWorks(w: World, d: Disk, d': Disk)
    requires d.record.pending.Some? && d.record.pending.value.phase == Replacing && w.platform.Windows?
    requires StateOf(w, d) == Some(FileState(Old, New, Old))
    requires d' == Disk(Phased(d.record, Cleanup), Moved(d.files, CandidatePath(d.record.pending.value.release), Target))
    ensures SameRoles(d', Worked(w, d))
  {
  }

  lemma CleaningWorks(w: World, d: Disk, d': Disk)
    requires d.record.pending.Some? && d.record.pending.value.phase in {Replacing, Cleanup} && w.platform.Windows?
    requires StateOf(w, d) == Some(FileState(New, Missing, Old))
    requires d' == Disk(Phased(d.record, Cleanup), d.files)
    ensures SameRoles(d', Worked(w, d))
  {
  }

  /** One start-up recovery followed by the worker that it may have started. */
  function Round(w: World, d: Disk): Disk {
    Worked(w, Recovered(w, d))
  }

  function Rounds(w: World, d: Disk, n: nat): Disk
    decreases n
  {
    if n == 0 then d else Rounds(w, Round(w, d), n - 1)
  }

  /** How far an update is from its end. */
  function Distance(d: Disk): nat {
    match d.record.pending
    case None => 0
    case Some(Pending(phase, next)) =>
      match phase
      case Staged | Cleanup => 1
      case _ => 2
  }

  lemma RecoveryKeepsInv(w: World, d: Disk)
    requires Inv(w, d)
    ensures Inv(w, Recovered(w, d))
  {
  }

  lemma WorkerKeepsInv(w: World, d: Disk)
    requires Inv(w, d)
    ensures Inv(w, Worked(w, d))
  {
  }

  /** Recovery ends an update, or leaves it to the worker. */
  lemma RecoveryProgresses(w: World, d: Disk)
    requires Inv(w, d) && d.record.pending.Some?
    ensures var e := Recovered(w, d);
            || (e.record.pending.None? && e.record.current in Choices(d))
            || (&& w.platform.Windows? && d.record.pending.value.phase in {Ready, Replacing} && e.record == Phased(d.record, Replacing)
                && StateOf(w, e) == Some(FileState(Old, New, Old)))
  {
  }

  /** Every round brings a pending update closer to its end, and ends with the old or the new release. */
  lemma RoundsProgress(w: World, d: Disk)
    requires Inv(w, d)
    ensures Inv(w, Round(w, d))
    ensures d.record.pending.Some? ==> Distance(Round(w, d)) < Distance(d)
    ensures d.record.pending.None? ==> Round(w, d) == d
    ensures Round(w, d).record.pending.None? ==>
      Round(w, d).record.current in Choices(d)
    ensures Round(w, d).record.pending.Some? ==>
      d.record.pending.Some? && Round(w, d).record == Phased(d.record, Round(w, d).record.pending.value.phase)
  {
    RecoveryKeepsInv(w, d);
    WorkerKeepsInv(w, Recovered(w, d));
    if d.record.pending.Some? {
      RecoveryProgresses(w, d);
    }
  }

  /** The releases that an update can end with. */
  function Choices(d: Disk): set<Release> {
    {d.record.current} + if d.record.pending.Some? then {d.record.pending.value.release} else {}
  }

  /** From every reachable disk, undisturbed rounds end the update. Afterwards the record names the release it
      started from or the pending one, describes the stable file, and no backup is left. */
  lemma {:induction false} RecoveryConverges(w: World, d: Disk)
    requires Inv(w, d)
    ensures var end := Rounds(w, d, Distance(d));
            && end.record.pending == None
            && end.record.current in Choices(d)
            && Target in end.files && Verifies(w, end.files[Target], end.record.current)
            && NoBackups(end)
    decreases Distance(d)
  {
    RoundsProgress(w, d);
    if d.record.pending.Some? {
      var d' := Round(w, d);
      RecoveryConverges(w, d');
      SettledStays(w, Rounds(w, d', Distance(d')), Distance(d) - 1 - Distance(d'));
      RoundsCompose(w, d', Distance(d'), Distance(d) - 1 - Distance(d'));
    }
  }

  lemma {:induction false} SettledStays(w: World, d: Disk, n: nat)
    requires d.record.pending == None
    ensures Rounds(w, d, n) == d
    decreases n
  {
    if n > 0 {
      SettledStays(w, d, n - 1);
    }
  }

  lemma {:induction false} RoundsCompose(w: World, d: Disk, m: nat, n: nat)
    ensures Rounds(w, d, m + n) == Rounds(w, Rounds(w, d, m), n)
    decreases m
  {
    if m > 0 {
      RoundsCompose(w, Round(w, d), m - 1, n);
    }
  }

  /** The same, stated of runs: wherever a run stops, recovery ends the update. */
  lemma EveryRunConverges(w: World, h: History)
    requires Legal(w, h)
    ensures var end := Rounds(w, h.Last(), Distance(h.Last()));
            && end.record.pending == None
            && end.record.current in Choices(h.Last())
            && Target in end.files && Verifies(w, end.files[Target], end.record.current)
            && BackupPath(end.record.current) !in end.files
  {
    RunsAreSafe(w, h);
    RecoveryConverges(w, h.Last());
  }
}
