/** The protocol of `src/executable_update.rs`, as the steps that may be taken on disk while a stamped
    runtime executable is replaced, and the properties of every run of those steps. */
module UpdateProtocol {
  import opened Wrappers

  // ---------------------------------------------------------------------
  // Data on disk
  // ---------------------------------------------------------------------

  /** A SHA-256 digest in hexadecimal. A complete file is identified with its digest. */
  type Digest = d: string | |d| == 64 witness seq(64, _ => '0')

  datatype Content = Torn | Whole(digest: Digest)

  datatype Release = Release(version: string, build: nat, digest: Digest)

  datatype Phase = Staged | Ready | Replacing | Cleanup

  datatype Pending = Pending(phase: Phase, release: Release)

  /** The part of the runtime metadata that an update reads and writes. */
  datatype Record = Record(current: Release, pending: Option<Pending>)

  /** The stable executable and the files beside it. File names keep only the first 16 characters of a
      digest, so that two digests can share a name. The last three kinds are working files. */
  datatype FilePath =
    | Target
    | Candidate(key: string)
    | Backup(key: string)
    | WorkerTmp(key: string)
    | CandidatePart(key: string)
    | WorkerPart(key: string)

  type Files = map<FilePath, Content>

  datatype Disk = Disk(record: Record, files: Files)

  datatype Platform = Unix | Windows

  /** `stamps` gives the version that a file is stamped with, for the files that belong to this runtime. */
  datatype World = World(platform: Platform, stamps: map<Digest, string>)

  function Key(digest: Digest): string {
    digest[..16]
  }

  function CandidatePath(release: Release): FilePath {
    Candidate(Key(release.digest))
  }

  function BackupPath(release: Release): FilePath {
    Backup(Key(release.digest))
  }

  predicate IsWorkingFile(p: FilePath) {
    p.WorkerTmp? || p.CandidatePart? || p.WorkerPart?
  }

  /** The two disks differ in working files only. */
  ghost predicate SameRoles(d: Disk, d': Disk) {
    && d.record == d'.record
    && forall p :: !IsWorkingFile(p) ==>
         (p in d.files <==> p in d'.files) && (p in d.files ==> d.files[p] == d'.files[p])
  }

  function Moved(files: Files, source: FilePath, dest: FilePath): Files
    requires source in files
  {
    (files - {source})[dest := files[source]]
  }

  // ---------------------------------------------------------------------
  // Classification
  // ---------------------------------------------------------------------

  datatype FileVersion = Missing | Old | New

  datatype FileState = FileState(target: FileVersion, candidate: FileVersion, backup: FileVersion)

  const STAGED := FileState(Old, New, Missing)

  /** The digest belongs to a file that is stamped for this runtime with the release's version. */
  predicate Genuine(w: World, release: Release) {
    release.digest in w.stamps && w.stamps[release.digest] == release.version
  }

  predicate Verifies(w: World, content: Content, release: Release) {
    content == Whole(release.digest) && Genuine(w, release)
  }

  function ClassifyTarget(w: World, current: Release, next: Release, files: Files): Option<FileVersion> {
    if Target !in files then
      Some(Missing)
    else if files[Target] == Whole(current.digest) then
      if Genuine(w, current) then Some(Old) else None
    else if files[Target] == Whole(next.digest) then
      if Genuine(w, next) then Some(New) else None
    else
      None
  }

  function ClassifyRole(w: World, path: FilePath, release: Release, present: FileVersion, files: Files): Option<FileVersion> {
    if path !in files then Some(Missing)
    else if Verifies(w, files[path], release) then Some(present)
    else None
  }

  function ClassifyCandidate(w: World, next: Release, files: Files): Option<FileVersion> {
    ClassifyRole(w, CandidatePath(next), next, New, files)
  }

  function ClassifyBackup(w: World, current: Release, files: Files): Option<FileVersion> {
    ClassifyRole(w, BackupPath(current), current, Old, files)
  }

  /** `None` when a file that is present fails verification. */
  function Classify(w: World, current: Release, next: Release, files: Files): Option<FileState> {
    match (ClassifyTarget(w, current, next, files), ClassifyCandidate(w, next, files), ClassifyBackup(w, current, files))
    case (Some(t), Some(c), Some(b)) => Some(FileState(t, c, b))
    case _ => None
  }

  // ---------------------------------------------------------------------
  // Steps
  // ---------------------------------------------------------------------

  /** One change of the disk. Every one is a single rename, removal or journal write. */
  datatype Step =
    | Work
    | PlaceCandidate(key: string)
    | DropCandidate(key: string)
    | RecordStaged(release: Release)
    | Approve
    | BeginReplace
    | PlaceBackup
    | Install
    | EnterCleanup
    | DropBackup
    | CommitNew
    | ClearPending
    | RestoreTarget

  function Phased(record: Record, phase: Phase): Record
    requires record.pending.Some?
  {
    record.(pending := Some(record.pending.value.(phase := phase)))
  }

  function Cleared(record: Record): Record {
    record.(pending := None)
  }

  function Committed(record: Record): Record
    requires record.pending.Some?
  {
    Record(record.pending.value.release, None)
  }

  /** Whether the step may be taken in `d`, and leads to `d'`. */
  ghost predicate Takes(w: World, step: Step, d: Disk, d': Disk) {
    match step
    case Work =>
      SameRoles(d, d')
    case PlaceCandidate(key) =>
      && d.record.pending == None
      && CandidatePart(key) in d.files
      && d' == d.(files := Moved(d.files, CandidatePart(key), Candidate(key)))
    case DropCandidate(key) =>
      d' == d.(files := d.files - {Candidate(key)})
    case RecordStaged(release) =>
      && d.record.pending == None
      && d' == d.(record := d.record.(pending := Some(Pending(Staged, release))))
      && Target in d.files && Verifies(w, d.files[Target], d.record.current)
      && Genuine(w, release) && release.digest != d.record.current.digest
      && ClassifyCandidate(w, release, d.files).Some?
      && BackupPath(d.record.current) !in d.files
    case _ =>
      && d.record.pending.Some?
      && TakesPending(w, step, d, d', d.record.pending.value.phase, d.record.current, d.record.pending.value.release)
  }

  ghost predicate TakesPending(w: World, step: Step, d: Disk, d': Disk, phase: Phase, current: Release, next: Release)
    requires d.record.pending.Some?
  {
    var target := ClassifyTarget(w, current, next, d.files);
    var candidate := ClassifyCandidate(w, next, d.files);
    var backup := ClassifyBackup(w, current, d.files);
    match step
    case Approve =>
      && phase == Staged && target == Some(Old) && backup == Some(Missing)
      && d' == d.(record := Phased(d.record, Ready))
    case BeginReplace =>
      && phase in {Ready, Replacing} && target == Some(Old)
      && backup == Some(if w.platform.Unix? then Missing else Old)
      && d' == d.(record := Phased(d.record, Replacing))
    case PlaceBackup =>
      var working := WorkerTmp(Key(current.digest));
      && w.platform.Windows? && phase in {Ready, Replacing} && target == Some(Old) && backup == Some(Missing)
      && working in d.files && Verifies(w, d.files[working], current)
      && d' == d.(files := Moved(d.files, working, BackupPath(current)))
    case Install =>
      && phase == Replacing && target == Some(Old) && candidate == Some(New)
      && backup == Some(if w.platform.Unix? then Missing else Old)
      && d' == d.(files := Moved(d.files, CandidatePath(next), Target))
    case EnterCleanup =>
      && w.platform.Windows? && phase in {Replacing, Cleanup}
      && target == Some(New) && candidate == Some(Missing) && backup == Some(Old)
      && d' == d.(record := Phased(d.record, Cleanup))
    case DropBackup =>
      && candidate == Some(Missing)
      && (|| (phase == Cleanup && target == Some(New))
          || (phase in {Ready, Replacing} && target == Some(Old)))
      && d' == d.(files := d.files - {BackupPath(current)})
    case CommitNew =>
      && phase in {Replacing, Cleanup}
      && target == Some(New) && candidate == Some(Missing) && backup == Some(Missing)
      && d' == d.(record := Committed(d.record))
    case ClearPending =>
      && phase != Cleanup
      && target == Some(Old) && candidate == Some(Missing) && backup == Some(Missing)
      && d' == d.(record := Cleared(d.record))
    case RestoreTarget =>
      && phase == Replacing && target == Some(Missing) && backup == Some(Old)
      && d' == d.(files := Moved(d.files, BackupPath(current), Target))
    case _ => false
  }

  // ---------------------------------------------------------------------
  // Histories
  // ---------------------------------------------------------------------

  /** A run, from its first disk to its last. */
  datatype History =
    | Start(found: Disk)
    | After(before: History, step: Step, disk: Disk)
  {
    function Last(): Disk {
      if Start? then found else disk
    }
  }

  /** An installation without an update: the recorded release is at the stable path, with no backup. */
  ghost predicate Initial(w: World, d: Disk) {
    && d.record.pending == None
    && Target in d.files && Verifies(w, d.files[Target], d.record.current)
    && forall p :: p in d.files ==> !p.Backup?
  }

  ghost predicate Legal(w: World, h: History) {
    match h
    case Start(d) => Initial(w, d)
    case After(before, step, d) => Legal(w, before) && Takes(w, step, before.Last(), d)
  }

  /** `h` is `g` followed by further steps. */
  ghost predicate Continues(g: History, h: History) {
    g == h || (h.After? && Continues(g, h.before))
  }

  // ---------------------------------------------------------------------
  // Safety
  // ---------------------------------------------------------------------

  ghost predicate BackupsAreCurrent(d: Disk) {
    forall p :: p in d.files && p.Backup? ==> p == BackupPath(d.record.current) && d.files[p] == Whole(d.record.current.digest)
  }

  ghost predicate NoBackups(d: Disk) {
    forall p :: p in d.files ==> !p.Backup?
  }

  /** What holds of the disk at every moment. */
  ghost predicate Inv(w: World, d: Disk) {
    && Genuine(w, d.record.current)
    && Target in d.files
    && BackupsAreCurrent(d)
    && (w.platform.Unix? ==> NoBackups(d))
    && match d.record.pending
       case None => d.files[Target] == Whole(d.record.current.digest) && NoBackups(d)
       case Some(Pending(phase, next)) =>
         && Genuine(w, next) && next.digest != d.record.current.digest
         && (CandidatePath(next) in d.files ==> d.files[CandidatePath(next)] == Whole(next.digest))
         && PhaseInv(w, d, phase, next)
  }

  ghost predicate PhaseInv(w: World, d: Disk, phase: Phase, next: Release)
    requires Target in d.files
  {
    var previous := d.files[Target] == Whole(d.record.current.digest);
    var replaced := d.files[Target] == Whole(next.digest) && CandidatePath(next) !in d.files;
    var kept := BackupPath(d.record.current) in d.files;
    match phase
    case Staged => previous && NoBackups(d)
    case Ready => previous
    case Replacing =>
      || (previous && (w.platform.Windows? && CandidatePath(next) in d.files ==> kept))
      || (replaced && (w.platform.Windows? ==> kept))
    case Cleanup => w.platform.Windows? && replaced
  }

  /** The steps that there are only while an update is pending. */
  predicate IsPendingStep(step: Step) {
    !step.Work? && !step.PlaceCandidate? && !step.DropCandidate? && !step.RecordStaged?
  }

  lemma PendingStepKeepsInv(w: World, step: Step, d: Disk, d': Disk)
    requires Inv(w, d) && IsPendingStep(step) && Takes(w, step, d, d')
    ensures Inv(w, d')
  {
  }

  lemma InvKept(w: World, step: Step, d: Disk, d': Disk)
    requires Inv(w, d) && Takes(w, step, d, d')
    ensures Inv(w, d')
  {
    if IsPendingStep(step) {
      PendingStepKeepsInv(w, step, d, d');
    }
  }

  /** Every moment of every run satisfies the invariant. */
  lemma {:induction false} RunsAreSafe(w: World, h: History)
    requires Legal(w, h)
    ensures Inv(w, h.Last())
  {
    match h
    case Start(d) =>
    case After(before, step, d) =>
      RunsAreSafe(w, before);
      InvKept(w, step, before.Last(), d);
  }

  /** The stable path never misses its file and never holds a partial one: it holds the recorded release,
      or the release of the recorded update. */
  lemma StablePathIsOldOrNew(w: World, h: History)
    requires Legal(w, h)
    ensures Target in h.Last().files
    ensures var content := h.Last().files[Target];
            || content == Whole(h.Last().record.current.digest)
            || (h.Last().record.pending.Some? && content == Whole(h.Last().record.pending.value.release.digest))
  {
    RunsAreSafe(w, h);
  }

  /** Without an update in progress the record describes the stable file: its digest, and the version it is
      stamped with. No backup is left, so that staging is not refused for one. */
  lemma IdleRecordDescribesStableFile(w: World, h: History)
    requires Legal(w, h) && h.Last().record.pending == None
    ensures Target in h.Last().files
    ensures Verifies(w, h.Last().files[Target], h.Last().record.current)
    ensures BackupPath(h.Last().record.current) !in h.Last().files
  {
    RunsAreSafe(w, h);
  }

  // ---------------------------------------------------------------------
  // Approval
  // ---------------------------------------------------------------------

  /** `release` was approved at some earlier moment and has been the pending release ever since. */
  ghost predicate Approved(h: History, release: Release) {
    match h
    case Start(_) => false
    case After(before, step, d) =>
      && d.record.pending.Some? && d.record.pending.value.release == release
      && (|| (step == Approve && before.Last().record.pending == Some(Pending(Staged, release)))
          || Approved(before, release))
  }

  /** No other step takes an update past `Staged`, or brings another release there. */
  lemma OnlyApproveLeavesStaged(w: World, step: Step, d: Disk, d': Disk)
    requires Takes(w, step, d, d') && step != Approve && d'.record.pending.Some? && d'.record.pending.value.phase != Staged
    ensures d.record.pending.Some? && d.record.pending.value.release == d'.record.pending.value.release
    ensures d.record.pending.value.phase != Staged
  {
  }

  /** An update is past the phase `Staged` only when it has been approved. */
  lemma {:induction false} PhasesAfterStagedAreApproved(w: World, h: History)
    requires Legal(w, h)
    requires h.Last().record.pending.Some? && h.Last().record.pending.value.phase != Staged
    ensures Approved(h, h.Last().record.pending.value.release)
  {
    match h
    case Start(d) =>
    case After(before, step, d) =>
      if step != Approve {
        OnlyApproveLeavesStaged(w, step, before.Last(), d);
        PhasesAfterStagedAreApproved(w, before);
      }
  }

  /** Which steps change the stable file. */
  lemma TargetChanges(w: World, step: Step, d: Disk, d': Disk)
    requires Inv(w, d) && Takes(w, step, d, d')
    ensures Target in d.files && Target in d'.files
    ensures d'.files[Target] != d.files[Target] ==>
      && d.record.pending.Some? && d.record.pending.value.phase == Replacing && d'.record == d.record
      && d'.files[Target] == Whole(d.record.pending.value.release.digest)
      && d.files[Target] == Whole(d.record.current.digest)
  {
    InvKept(w, step, d, d');
  }

  /** Whenever the stable file changes, the new file is that of a pending release that had been approved,
      and the file it replaces is that of the recorded release. */
  lemma ApprovalPrecedesInstallation(w: World, before: History, step: Step, d: Disk)
    requires Legal(w, After(before, step, d))
    ensures Target in before.Last().files && Target in d.files
    ensures d.files[Target] != before.Last().files[Target] ==>
      && d.record.pending.Some?
      && Approved(before, d.record.pending.value.release)
      && d.files[Target] == Whole(d.record.pending.value.release.digest)
      && before.Last().files[Target] == Whole(d.record.current.digest)
  {
    RunsAreSafe(w, before);
    TargetChanges(w, step, before.Last(), d);
    if d.files[Target] != before.Last().files[Target] {
      PhasesAfterStagedAreApproved(w, before);
    }
  }

  /** An update that has not been approved is kept, approved or discarded; nothing else changes in the record,
      and the stable file stays. */
  lemma UnapprovedIsKeptOrDiscarded(w: World, before: History, step: Step, d: Disk)
    requires Legal(w, After(before, step, d))
    requires before.Last().record.pending.Some? && before.Last().record.pending.value.phase == Staged
    ensures d.record.current == before.Last().record.current
    ensures d.record.pending in {before.Last().record.pending, Phased(before.Last().record, Ready).pending, None}
    ensures Target in d.files && Target in before.Last().files && d.files[Target] == before.Last().files[Target]
  {
    RunsAreSafe(w, before);
    RunsAreSafe(w, After(before, step, d));
  }

  // ---------------------------------------------------------------------
  // Every reachable state has a recovery arm
  // ---------------------------------------------------------------------

  /** The states that start-up recovery and `apply` know how to continue from. */
  predicate RecoveryHandles(platform: Platform, phase: Phase, s: FileState) {
    match phase
    case Staged => s == STAGED || s == FileState(Old, Missing, Missing)
    case Cleanup => s.target.New? && s.candidate.Missing? && s.backup != New
    case _ =>
      if platform.Unix? then
        || s == STAGED
        || s == FileState(Old, Missing, Missing)
        || (phase == Replacing && s == FileState(New, Missing, Missing))
      else
        || (s.target.Old? && s.candidate != Old && s.backup != New)
        || (phase == Replacing && s == FileState(Missing, New, Old))
        || (phase == Replacing && s == FileState(New, Missing, Old))
        || (phase == Replacing && s == FileState(New, Missing, Missing))
        || (phase == Replacing && s == FileState(Missing, Missing, Old))
  }

  /** The states that the Windows worker continues from. */
  predicate WorkerHandles(phase: Phase, s: FileState) {
    || (phase == Replacing && s == FileState(Old, New, Old))
    || (phase in {Replacing, Cleanup} && s == FileState(New, Missing, Old))
  }

  /** In every run, every file that is present verifies and recovery has an arm for the state. The arms for a
      missing stable file are never needed. */
  lemma RecoveryIsTotal(w: World, h: History)
    requires Legal(w, h) && h.Last().record.pending.Some?
    ensures var Pending(phase, next) := h.Last().record.pending.value;
            var state := Classify(w, h.Last().record.current, next, h.Last().files);
            state.Some? && RecoveryHandles(w.platform, phase, state.value) && state.value.target != Missing
  {
    RunsAreSafe(w, h);
  }

  /** The worker, unlike recovery, does refuse reachable states. It has an arm exactly when its own file is still
      the backup, the update is past `Ready` and the candidate has not been deleted under it. */
  lemma WorkerIsTotalIff(w: World, h: History)
    requires Legal(w, h) && w.platform.Windows? && h.Last().record.pending.Some?
    ensures var Pending(phase, next) := h.Last().record.pending.value;
            var current := h.Last().record.current;
            var state := Classify(w, current, next, h.Last().files);
            && state.Some?
            && (WorkerHandles(phase, state.value) <==>
                && phase in {Replacing, Cleanup}
                && BackupPath(current) in h.Last().files
                && (CandidatePath(next) in h.Last().files
                    || (Target in h.Last().files && h.Last().files[Target] == Whole(next.digest))))
  {
    RunsAreSafe(w, h);
  }

  /** A run that ends where the worker has no arm: the candidate is deleted after the worker was started. */
  lemma {:induction false} WorkerCanMeetUnhandledState(w: World, current: Release, next: Release) returns (h: History)
    requires w.platform.Windows? && Genuine(w, current) && Genuine(w, next) && current.digest != next.digest
    ensures Legal(w, h) && h.Last().record.pending == Some(Pending(Replacing, next))
    ensures Classify(w, current, next, h.Last().files) == Some(FileState(Old, Missing, Old))
    ensures !WorkerHandles(Replacing, FileState(Old, Missing, Old))
  {
    h := ReplacingRun(w, current, next);
    h := Also(w, h, DropCandidate(Key(next.digest)), h.Last().(files := h.Last().files - {CandidatePath(next)}));
  }

  lemma {:induction false} ReplacingRun(w: World, current: Release, next: Release) returns (h: History)
    requires w.platform.Windows? && Genuine(w, current) && Genuine(w, next) && current.digest != next.digest
    ensures Legal(w, h)
    ensures h.Last() == Disk(Record(current, Some(Pending(Replacing, next))),
                             map[Target := Whole(current.digest), CandidatePath(next) := Whole(next.digest),
                                 BackupPath(current) := Whole(current.digest)])
  {
    h := BackedUpRun(w, current, next);
    h := Also(w, h, BeginReplace, h.Last().(record := Record(current, Some(Pending(Replacing, next)))));
  }

  lemma {:induction false} BackedUpRun(w: World, current: Release, next: Release) returns (h: History)
    requires w.platform.Windows? && Genuine(w, current) && Genuine(w, next) && current.digest != next.digest
    ensures Legal(w, h)
    ensures h.Last() == Disk(Record(current, Some(Pending(Ready, next))),
                             map[Target := Whole(current.digest), CandidatePath(next) := Whole(next.digest),
                                 BackupPath(current) := Whole(current.digest)])
  {
    var working, previous := WorkerTmp(Key(current.digest)), Whole(current.digest);
    var approved := map[Target := previous, CandidatePath(next) := Whole(next.digest)];
    h := CopiedRun(w, current, next);
    assert Moved(h.Last().files, working, BackupPath(current)) == approved[BackupPath(current) := previous];
    h := Also(w, h, PlaceBackup, h.Last().(files := approved[BackupPath(current) := previous]));
  }

  lemma {:induction false} CopiedRun(w: World, current: Release, next: Release) returns (h: History)
    requires Genuine(w, current) && Genuine(w, next) && current.digest != next.digest
    ensures Legal(w, h)
    ensures h.Last() == Disk(Record(current, Some(Pending(Ready, next))),
                             map[Target := Whole(current.digest), CandidatePath(next) := Whole(next.digest),
                                 WorkerTmp(Key(current.digest)) := Whole(current.digest)])
  {
    h := ApprovedRun(w, current, next);
    h := Also(w, h, Work, h.Last().(files := h.Last().files[WorkerTmp(Key(current.digest)) := Whole(current.digest)]));
  }

  lemma {:induction false} ApprovedRun(w: World, current: Release, next: Release) returns (h: History)
    requires Genuine(w, current) && Genuine(w, next) && current.digest != next.digest
    ensures Legal(w, h)
    ensures h.Last() == Disk(Record(current, Some(Pending(Ready, next))),
                             map[Target := Whole(current.digest), CandidatePath(next) := Whole(next.digest)])
  {
    var placed := map[Target := Whole(current.digest), CandidatePath(next) := Whole(next.digest)];
    h := CandidateRun(w, current, next);
    h := Also(w, h, RecordStaged(next), Disk(Record(current, Some(Pending(Staged, next))), placed));
    h := Also(w, h, Approve, Disk(Record(current, Some(Pending(Ready, next))), placed));
  }

  lemma {:induction false} CandidateRun(w: World, current: Release, next: Release) returns (h: History)
    requires Genuine(w, current) && Genuine(w, next) && current.digest != next.digest
    ensures Legal(w, h)
    ensures h.Last() == Disk(Record(current, None), map[Target := Whole(current.digest), CandidatePath(next) := Whole(next.digest)])
  {
    var part, previous, replaced := CandidatePart(Key(next.digest)), Whole(current.digest), Whole(next.digest);
    h := Start(Disk(Record(current, None), map[Target := previous]));
    h := Also(w, h, Work, Disk(Record(current, None), map[Target := previous, part := replaced]));
    var placed := map[Target := previous, CandidatePath(next) := replaced];
    assert Moved(h.Last().files, part, CandidatePath(next)) == placed;
    h := Also(w, h, PlaceCandidate(Key(next.digest)), Disk(Record(current, None), placed));
  }

  lemma Also(w: World, before: History, step: Step, d: Disk) returns (h: History)
    requires Legal(w, before) && Takes(w, step, before.Last(), d)
    ensures Legal(w, h) && h.Last() == d
  {
    h := After(before, step, d);
  }
}
