/** Bootstrap of a managed prefix by any number of processes under one lock (`src/commands.rs`,
    `src/bootstrap_state.rs`, `src/bootstrap_lock.rs`, `src/fleet.rs`): the files that decide whether a prefix is
    ready, the steps that change them, and why a prefix that an installation left unfinished is never ready. */
module BootstrapProtocol {
  import opened Wrappers
  import Journal = MetadataJournal

  type Slot = Journal.Slot<string>

  /** The bootstrap marker and its temporary file, each naming the runtime that owns the prefix; the metadata
      journal, which names it too; whether there are other files; and whether an installation has changed those
      since the delegate was last found in order. */
  datatype Prefix = Prefix(marker: Slot, markerTmp: Slot, meta: Journal.Files<string>, packages: bool, dirty: bool)

  datatype MarkerFile = Final | Temporary

  function Without(d: Prefix, file: MarkerFile): Prefix {
    if file.Final? then d.(marker := Journal.Absent) else d.(markerTmp := Journal.Absent)
  }

  const NO_META: Journal.Files<string> := Journal.Files(Journal.Absent, Journal.Absent, Journal.Absent)

  const EMPTY: Prefix := Prefix(Journal.Absent, Journal.Absent, NO_META, false, false)

  predicate IsEmptyDir(d: Prefix) {
    d.marker.Absent? && d.markerTmp.Absent? && d.meta == NO_META && !d.packages
  }

  // ---------------------------------------------------------------------
  // Classification
  // ---------------------------------------------------------------------

  datatype MarkerRead = NoMarker | Unreadable | Marked(owner: string)

  /** `bootstrap_state::read`: the temporary file counts while the marker itself is missing. */
  function ReadMarker(d: Prefix): MarkerRead {
    match d.marker
    case Holds(owner) => Marked(owner)
    case Torn => Unreadable
    case Absent =>
      match d.markerTmp
      case Holds(owner) => Marked(owner)
      case Torn => Unreadable
      case Absent => NoMarker
  }

  datatype Disposition = Ready | Bootstrap(reinstall: bool) | Refused

  /** `prefix_disposition_for`, for the runtime `id`. `healthy` says whether the recorded delegate is in place, which
      only matters when the caller requires it. */
  function Disposes(id: string, d: Prefix, requireHealthy: bool, healthy: bool): Disposition {
    match ReadMarker(d)
    case Unreadable => Refused
    case Marked(owner) =>
      if owner != id then Refused
      else if d.meta.main.Holds? && d.meta.main.value != id then Refused
      else if d.meta.main.Holds? && (!requireHealthy || healthy) then Ready
      else Bootstrap(true)
    case NoMarker =>
      if IsEmptyDir(d) then Bootstrap(false)
      else if Journal.Committed(d.meta) == Some(id) && (!requireHealthy || healthy) then Ready
      else Refused
  }

  /** A ready prefix is one that records the runtime, under its own marker or none, with a delegate in order if that is asked
      for. Without that delegate a prefix under its own marker is installed again, and any other that is not empty is
      refused. */
  lemma ReadyIff(id: string, d: Prefix, requireHealthy: bool, healthy: bool)
    ensures Disposes(id, d, requireHealthy, healthy) == Ready
            <==> && (requireHealthy ==> healthy)
                 && (if ReadMarker(d).NoMarker? then Journal.Committed(d.meta) == Some(id)
                     else ReadMarker(d) == Marked(id) && d.meta.main == Journal.Holds(id))
    ensures Disposes(id, d, requireHealthy, healthy) == Bootstrap(false) <==> IsEmptyDir(d)
    ensures Disposes(id, d, requireHealthy, healthy) == Bootstrap(true)
            <==> && ReadMarker(d) == Marked(id)
                 && (!d.meta.main.Holds? || (d.meta.main.value == id && requireHealthy && !healthy))
  {
  }

  /** `Fleet::get` answers with a runtime only if the metadata file itself is there. */
  predicate GetFinds(id: string, d: Prefix, healthy: bool) {
    d.meta.main == Journal.Holds(id) && healthy
  }

  // ---------------------------------------------------------------------
  // Steps
  // ---------------------------------------------------------------------

  type Pid = nat

  /** How far the process that holds the lock has come. */
  datatype Stage =
    | Outside
    | Inside
    | TmpCleared | TmpTorn | TmpWritten | MarkerCleared | MarkerSet
    | MainCleared | TmpMetaCleared | MetaCleared
    | Installing | Validated | MarkerDropped
    | Razing

  /** How far a read of the metadata has come that does not hold the lock: the main file was missing, the temporary file
      too, a file was found and is to be moved to the main one, the backup is to be removed, or nothing is left to do.
      Each of its calls is a step of its own. */
  datatype Read = NoMain | NoTmp | MovesTmp | MovesBak | DropsBak | Done

  /** `readers` holds the reads that have begun, each under a number of its own. */
  datatype System = System(disk: Prefix, holder: Option<Pid>, stage: Stage, readers: map<nat, Read>) {
    function ReadAt(read: nat): Option<Read> {
      if read in readers then Some(readers[read]) else None
    }
  }

  datatype Step =
    | Acquire(pid: Pid)
    | Leave
    | Unmark(file: MarkerFile, dest: Stage)
    | TearMarkerTmp
    | WriteMarkerTmp(owner: string)
    | RenameMarker
    | RemoveMeta(path: Journal.Path)
    | Install(packages: bool)
    | Validate
    | RecordMeta(owner: string, result: Journal.Files<string>)
    | RestoreMeta(result: Journal.Files<string>)
    | UpdateMeta(owner: string, result: Journal.Files<string>)
    | BeginRaze
    | Raze(left: Prefix)
    | UnlockedLook(read: nat)
    | UnlockedMove(read: nat)
    | UnlockedMiss(read: nat)
    | UnlockedDrop(read: nat, ok: bool)

  /** The holder of the lock moves from one stage to another and changes the disk. */
  ghost predicate Moves(s: System, s': System, source: Stage, dest: Stage, disk: Prefix) {
    s.stage == source && s' == s.(stage := dest, disk := disk)
  }

  /** When the holder of the lock removes a marker file, and the stage that it reaches: while it replaces the marker,
      after the runtime was recorded, and when it finds a marker beside metadata. */
  predicate Unmarks(s: System, file: MarkerFile, dest: Stage) {
    || (s.stage == Inside && file.Temporary? && dest == TmpCleared)
    || (s.stage == TmpWritten && file.Final? && dest == MarkerCleared)
    || (s.stage == Validated && file.Final? && dest == MarkerDropped && s.disk.meta.main.Holds?)
    || (s.stage == MarkerDropped && file.Temporary? && dest == Inside)
    || (s.stage == Inside && dest == Inside && s.disk.meta.main.Holds?)
  }

  /** A read that moves an interrupted write into place keeps the committed value. */
  ghost predicate Restores(meta: Journal.Files<string>, result: Journal.Files<string>) {
    Journal.Committed(meta).Some? && Journal.Committed(result) == Journal.Committed(meta)
  }

  /** Whether `step` may lead from `s` to `s'`. A crash, like an error, is `Leave`. */
  ghost predicate Takes(step: Step, s: System, s': System) {
    var d := s.disk;
    match step
    case Acquire(pid) => s.holder == None && s' == s.(holder := Some(pid), stage := Inside)
    case Leave => s.holder.Some? && s' == s.(holder := None, stage := Outside)
    // bootstrap_state::write_installing_for
    case Unmark(file, dest) => Unmarks(s, file, dest) && s' == s.(stage := dest, disk := Without(d, file))
    case TearMarkerTmp => Moves(s, s', TmpCleared, TmpTorn, d.(markerTmp := Journal.Torn))
    case WriteMarkerTmp(owner) => Moves(s, s', TmpTorn, TmpWritten, d.(markerTmp := Journal.Holds(owner)))
    case RenameMarker => Moves(s, s', MarkerCleared, MarkerSet, d.(marker := d.markerTmp, markerTmp := Journal.Absent))
    // config::invalidate_metadata_for
    case RemoveMeta(path) =>
      var (source, dest) := match path
                            case Main => (MarkerSet, MainCleared)
                            case Tmp => (MainCleared, TmpMetaCleared)
                            case Bak => (TmpMetaCleared, MetaCleared);
      Moves(s, s', source, dest, d.(meta := Journal.With(d.meta, path, Journal.Absent)))
    // installation, and the check of the delegate
    case Install(packages) => s.stage in {MetaCleared, Installing} && s' == s.(stage := Installing, disk := d.(packages := packages, dirty := true))
    case Validate => Moves(s, s', Installing, Validated, d.(dirty := false))
    // config::persist_metadata_for
    case RecordMeta(owner, result) => Journal.PersistImage(d.meta, owner, result) && Moves(s, s', Validated, Validated, d.(meta := result))
    // reads and writes of the metadata
    case RestoreMeta(result) => s.stage == Inside && Restores(d.meta, result) && s' == s.(disk := d.(meta := result))
    case UpdateMeta(owner, result) =>
      && s.stage == Inside && Journal.Committed(d.meta).Some? && Journal.PersistImage(d.meta, owner, result)
      && s' == s.(disk := d.(meta := result))
    // Fleet::remove deletes the files in no particular order
    case BeginRaze => Moves(s, s', Inside, Razing, d)
    case Raze(left) => s.stage == Razing && Razed(d, left) && s' == s.(disk := left)
    // config::read_metadata_for, as initialize_current and reconcile_current call it, without the lock
    case UnlockedLook(r) => Looks(s, r) && s' == s.(readers := s.readers[r := AfterLook(d.meta, s.ReadAt(r))])
    case UnlockedMove(r) => CanMove(s, r) && s' == MovedBy(s, r)
    case UnlockedMiss(r) => s.ReadAt(r) in {Some(MovesTmp), Some(MovesBak)} && s' == s.(readers := s.readers[r := AfterMiss(d.meta, s.readers[r])])
    case UnlockedDrop(r, ok) =>
      && s.ReadAt(r) == Some(DropsBak)
      && s' == s.(readers := s.readers[r := Done], disk := if ok then d.(meta := d.meta.(bak := Journal.Absent)) else d)
  }

  /** The next thing that the read does is to look at a file. */
  predicate Looks(s: System, read: nat) {
    s.ReadAt(read) in {None, Some(NoMain), Some(NoTmp)}
  }

  /** What a look at the next file leads to: the main file first, then the temporary file, then the backup. */
  function AfterLook(meta: Journal.Files<string>, before: Option<Read>): Read {
    match before
    case Some(NoMain) => if meta.tmp.Holds? then MovesTmp else if meta.tmp.Absent? then NoTmp else Done
    case Some(NoTmp) => if meta.bak.Holds? then MovesBak else Done
    case _ => if meta.main.Absent? then NoMain else Done
  }

  /** The rename failed. With a main file that can be read by now, the read goes on as if it had moved it. */
  function AfterMiss(meta: Journal.Files<string>, before: Read): Read {
    if before == MovesTmp && meta.main.Holds? then DropsBak else Done
  }

  /** The read is about to move a file, and there is one of that name: not always the one that it has looked at. */
  predicate CanMove(s: System, read: nat) {
    s.ReadAt(read) in {Some(MovesTmp), Some(MovesBak)} && !s.disk.meta.At(SourceOf(s, read)).Absent?
  }

  function SourceOf(s: System, read: nat): Journal.Path {
    if s.ReadAt(read) == Some(MovesTmp) then Journal.Tmp else Journal.Bak
  }

  function MovedBy(s: System, read: nat): System
    requires CanMove(s, read)
  {
    s.(disk := s.disk.(meta := Journal.Moved(s.disk.meta, SourceOf(s, read), Journal.Main)),
       readers := s.readers[read := if s.ReadAt(read) == Some(MovesTmp) then DropsBak else Done])
  }

  /** Some of the files of `d` are gone; an empty directory is a fresh prefix. */
  ghost predicate Razed(d: Prefix, left: Prefix) {
    && left.marker in {d.marker, Journal.Absent} && left.markerTmp in {d.markerTmp, Journal.Absent}
    && left.meta.main in {d.meta.main, Journal.Absent} && left.meta.tmp in {d.meta.tmp, Journal.Absent}
    && left.meta.bak in {d.meta.bak, Journal.Absent}
    && (left.packages ==> d.packages)
    && left.dirty == (d.dirty && !IsEmptyDir(left))
  }

  datatype History = Start | After(before: History, step: Step, system: System) {
    function Last(): System {
      if Start? then System(EMPTY, None, Outside, map[]) else system
    }
  }

  ghost predicate Legal(h: History) {
    h.After? ==> Legal(h.before) && Takes(h.step, h.before.Last(), h.system)
  }

  /** A read without the lock moves a metadata file while the holder of the lock is removing them. */
  predicate Disturbs(step: Step, s: System) {
    step.UnlockedMove? && RemovesMeta(s.stage)
  }

  predicate Undisturbed(h: History) {
    h.After? ==> Undisturbed(h.before) && !Disturbs(h.step, h.before.Last())
  }

  predicate RemovesMeta(stage: Stage) {
    stage in {MainCleared, TmpMetaCleared}
  }

  ghost predicate Continues(g: History, h: History) {
    g == h || (h.After? && Continues(g, h.before))
  }

  /** After `h`, packages have been installed. */
  ghost predicate Installed(h: History, g: History) {
    g.After? && ((g.step == Install(true) && Continues(h, g.before)) || Installed(h, g.before))
  }

  /** After `h`, packages have been installed and then the delegate was found in order: the prefix was built anew. The stages
      let nobody install who has not written the marker and removed the metadata. */
  ghost predicate Rebuilt(h: History, g: History) {
    g.After? && ((g.step == Validate && Installed(h, g.before)) || Rebuilt(h, g.before))
  }

  lemma {:induction false} RebuiltStays(h: History, g: History, g': History)
    requires Rebuilt(h, g) && Continues(g, g')
    ensures Rebuilt(h, g')
  {
    if g' != g {
      RebuiltStays(h, g, g'.before);
    }
  }

  // ---------------------------------------------------------------------
  // Safety
  // ---------------------------------------------------------------------

  /** While an installation is unfinished there is no metadata, not even a temporary or a backup file. */
  ghost predicate Inv(s: System) {
    && (s.holder.None? <==> s.stage == Outside)
    && (s.disk.dirty ==> s.disk.meta == NO_META)
    && (RemovesMeta(s.stage) ==> s.disk.meta.main.Absent?)
    && (s.stage == TmpMetaCleared ==> s.disk.meta.tmp.Absent?)
    && (s.stage in {MetaCleared, Installing} ==> s.disk.meta == NO_META && s.disk.marker.Holds?)
    && (s.stage in {TmpWritten, MarkerCleared} ==> s.disk.markerTmp.Holds?)
    && (s.stage in {MarkerSet, MainCleared, TmpMetaCleared, Validated} ==> s.disk.marker.Holds?)
    && (s.stage in {Validated, MarkerDropped} ==> !s.disk.dirty)
  }

  lemma InvKept(step: Step, s: System, s': System)
    requires Inv(s) && Takes(step, s, s') && !Disturbs(step, s)
    ensures Inv(s')
  {
  }

  /** Every moment of every run of any number of processes satisfies the invariant. */
  lemma {:induction false} RunsAreSafe(h: History)
    requires Legal(h) && Undisturbed(h)
    ensures Inv(h.Last())
  {
    if h.After? {
      RunsAreSafe(h.before);
      InvKept(h.step, h.before.Last(), h.system);
    }
  }

  /** A prefix that an unfinished installation has changed is never ready, for any runtime, however the delegate
      looks. It is bootstrapped again, every package anew, while a marker can be read, and refused otherwise; only
      an empty directory counts as fresh. `Fleet::get` does not find it. */
  lemma DirtyIsNeverReady(h: History, id: string, requireHealthy: bool, healthy: bool)
    requires Legal(h) && Undisturbed(h) && h.Last().disk.dirty
    ensures var d := h.Last().disk;
            && Disposes(id, d, requireHealthy, healthy) == (
                 if ReadMarker(d) == Marked(id) then Bootstrap(true)
                 else if IsEmptyDir(d) then Bootstrap(false)
                 else Refused)
            && !GetFinds(id, d, healthy)
  {
    RunsAreSafe(h);
  }

  /** While packages are being changed the marker is in place, so that a crash leads to a complete reinstallation. */
  lemma MarkerStandsDuringInstallation(h: History)
    requires Legal(h) && Undisturbed(h) && h.Last().stage in {MetaCleared, Installing}
    ensures ReadMarker(h.Last().disk).Marked? && h.Last().disk.meta == NO_META
  {
    RunsAreSafe(h);
  }

  // ---------------------------------------------------------------------
  // When the marker survives being rewritten
  // ---------------------------------------------------------------------

  /** Every state of the disk while `write_installing_for` replaces the marker of `d`. */
  ghost predicate MarkerImage(d: Prefix, id: string, e: Prefix) {
    || e in {d, d.(markerTmp := Journal.Absent), d.(markerTmp := Journal.Torn), d.(markerTmp := Journal.Holds(id))}
    || e in {d.(marker := Journal.Absent, markerTmp := Journal.Holds(id)), d.(marker := Journal.Holds(id), markerTmp := Journal.Absent)}
  }

  /** A readable marker stays readable throughout exactly when it is the marker file itself. One that is only in the
      temporary file, as a crash between the last removal and the rename leaves it, is the first to be removed. */
  lemma MarkerStaysReadableIff(d: Prefix, id: string)
    ensures (forall e :: MarkerImage(d, id, e) ==> ReadMarker(e).Marked?) <==> d.marker.Holds?
  {
    assert MarkerImage(d, id, d.(markerTmp := Journal.Absent));
    assert ReadMarker(d.(markerTmp := Journal.Absent)).Marked? <==> d.marker.Holds?;
  }

  // ---------------------------------------------------------------------
  // When an unfinished installation keeps its marker
  // ---------------------------------------------------------------------

  /** The two steps that put the marker of an unfinished installation at risk: to begin a rewriting while the marker
      is only in the temporary file, which goes first, and to begin a removal, which takes the files in any order and
      may leave others, or a torn temporary file, when the marker is gone. */
  predicate Unguarded(step: Step, s: System) {
    && s.disk.dirty
    && (|| (step == Unmark(Temporary, TmpCleared) && !s.disk.marker.Holds?)
        || (step.BeginRaze? && (s.disk.packages || s.disk.markerTmp.Torn?)))
  }

  predicate Guarded(h: History) {
    h.After? ==> Guarded(h.before) && !Unguarded(h.step, h.before.Last())
  }

  ghost predicate HasMarkerIfDirty(h: History) {
    h.Last().disk.dirty ==> ReadMarker(h.Last().disk).Marked?
  }

  /** `g` is `h`, or `h` and one more step of a removal. */
  predicate RazesAfter(h: History, g: History) {
    g == h || (g.After? && g.before == h && g.step.Raze?)
  }

  /** At every moment of the run, and whatever a removal that is under way then deletes next, an unfinished
      installation has a readable marker. */
  ghost predicate KeepsMarker(h: History) {
    forall p, g {:trigger RazesAfter(p, g), Continues(p, h)} ::
      Continues(p, h) && RazesAfter(p, g) && Legal(g) ==> HasMarkerIfDirty(g)
  }

  ghost predicate MarkInv(s: System) {
    && !s.disk.marker.Torn?
    && (s.disk.dirty ==> ReadMarker(s.disk).Marked?)
    && (s.disk.dirty && s.stage in {TmpCleared, TmpTorn} ==> s.disk.marker.Holds?)
    && (s.disk.dirty && s.stage == Razing ==> !s.disk.packages && !s.disk.markerTmp.Torn?)
  }

  lemma MarkInvKept(step: Step, s: System, s': System)
    requires Inv(s) && MarkInv(s) && Takes(step, s, s') && !Unguarded(step, s)
    ensures MarkInv(s')
  {
  }

  lemma {:induction false} GuardedRunsKeepMarkInv(h: History)
    requires Legal(h) && Undisturbed(h) && Guarded(h)
    ensures MarkInv(h.Last())
  {
    if h.After? {
      RunsAreSafe(h.before);
      GuardedRunsKeepMarkInv(h.before);
      MarkInvKept(h.step, h.before.Last(), h.system);
    }
  }

  lemma {:induction false} PrefixIsGuarded(p: History, h: History)
    requires Continues(p, h) && Legal(h) && Undisturbed(h) && Guarded(h)
    ensures Legal(p) && Undisturbed(p) && Guarded(p)
  {
    if p != h {
      PrefixIsGuarded(p, h.before);
    }
  }

  /** An unfinished installation has a readable marker throughout a run exactly if the run takes none of the two
      steps. */
  lemma {:induction false} MarkerIsKeptIff(h: History)
    requires Legal(h) && Undisturbed(h)
    ensures Guarded(h) <==> KeepsMarker(h)
  {
    if Guarded(h) {
      forall p, g | Continues(p, h) && RazesAfter(p, g) && Legal(g) ensures HasMarkerIfDirty(g) {
        PrefixIsGuarded(p, h);
        GuardedRunsKeepMarkInv(g);
      }
    } else {
      var g := UnguardedRunLosesMarker(h);
    }
  }

  /** From every run with such a step a removal, or nothing more, leads to an unfinished installation without a
      readable marker. */
  lemma {:induction false} UnguardedRunLosesMarker(h: History) returns (g: History)
    requires Legal(h) && Undisturbed(h) && !Guarded(h)
    ensures Legal(g) && !HasMarkerIfDirty(g) && exists p :: Continues(p, h) && RazesAfter(p, g)
    ensures !KeepsMarker(h)
  {
    if !Guarded(h.before) {
      g := UnguardedRunLosesMarker(h.before);
      var p :| Continues(p, h.before) && RazesAfter(p, g);
      assert Continues(p, h);
    } else {
      g := h;
      if h.step.BeginRaze? {
        RunsAreSafe(h);
        var d := h.Last().disk;
        var left := if d.packages then d.(marker := Journal.Absent, markerTmp := Journal.Absent) else d.(marker := Journal.Absent);
        g := Then(h, Raze(left), h.Last().(disk := left));
      }
      assert Continues(h, h) && RazesAfter(h, g);
    }
  }

  // ---------------------------------------------------------------------
  // When reading without the lock is harmless
  // ---------------------------------------------------------------------

  /** An unfinished installation counts as ready. */
  predicate IsHarmed(d: Prefix, id: string) {
    d.dirty && Disposes(id, d, true, true) == Ready && Disposes(id, d, false, true) == Ready
  }

  /** `g` goes on from `h`, and no other read than `read` moves metadata on the way while it is being removed. */
  predicate OnlyDisturbs(h: History, g: History, read: nat) {
    || g == h
    || (g.After? && OnlyDisturbs(h, g.before, read) && (Disturbs(g.step, g.before.Last()) ==> g.step.read == read))
  }

  /** `g` goes on from `h`, and its first step is `step`. */
  predicate GoesOnWith(h: History, step: Step, g: History) {
    g.After? && ((g.before == h && g.step == step) || GoesOnWith(h, step, g.before))
  }

  /** A run after `h` in which `read` is the only one to blame, and which ends in harm. */
  ghost predicate EndsInHarm(h: History, read: nat, g: History, id: string) {
    Legal(g) && OnlyDisturbs(h, g, read) && IsHarmed(g.Last().disk, id)
  }

  /** `g` goes on from `h` without any move of a read. */
  predicate Quiet(h: History, g: History) {
    g == h || (g.After? && Quiet(h, g.before) && !g.step.UnlockedMove?)
  }

  lemma {:induction false} QuietIsTransitive(a: History, b: History, c: History)
    requires Quiet(a, b) && Quiet(b, c)
    ensures Quiet(a, c)
  {
    if c != b {
      QuietIsTransitive(a, b, c.before);
    }
  }

  lemma {:induction false} QuietlyOn(a: History, b: History, c: History, read: nat)
    requires OnlyDisturbs(a, b, read) && Quiet(b, c)
    ensures OnlyDisturbs(a, c, read)
  {
    if c != b {
      QuietlyOn(a, b, c.before, read);
    }
  }

  /** A read that has done its move, or that found nothing to move. */
  predicate IsOver(s: System, read: nat) {
    s.ReadAt(read) in {Some(DropsBak), Some(Done)}
  }

  lemma {:induction false} OverReadsDisturbNothing(h: History, g: History, read: nat)
    requires Legal(g) && OnlyDisturbs(h, g, read) && Undisturbed(h) && IsOver(h.Last(), read)
    ensures Undisturbed(g) && IsOver(g.Last(), read)
  {
    if g != h {
      OverReadsDisturbNothing(h, g.before, read);
      OverStays(g.step, g.before.Last(), g.system, read);
    }
  }

  lemma OverStays(step: Step, s: System, s': System, read: nat)
    requires Takes(step, s, s') && IsOver(s, read)
    ensures IsOver(s', read) && !(step.UnlockedMove? && step.read == read)
  {
  }

  /** A read that has begun can do harm, whatever the moment, exactly until it is over. */
  lemma {:induction false} BegunReadIsHarmlessIff(h: History, read: nat)
    requires Legal(h) && Undisturbed(h) && read in h.Last().readers
    ensures (forall g, id :: !EndsInHarm(h, read, g, id)) <==> IsOver(h.Last(), read)
  {
    if IsOver(h.Last(), read) {
      forall g, id | Legal(g) && OnlyDisturbs(h, g, read) ensures !IsHarmed(g.Last().disk, id) {
        OverReadsDisturbNothing(h, g, read);
        RunsAreSafe(g);
      }
    } else {
      var g := ReadDoesHarm(h, read, "");
      assert EndsInHarm(h, read, g, "");
    }
  }

  /** A read that begins now, without the lock, can lead to an unfinished installation that counts as ready, for someone,
      exactly when it finds the main file missing: the file that it moves later need not be the one that it has seen, and
      not be there yet. */
  lemma {:induction false} UnlockedReadIsHarmlessIff(h: History, read: nat)
    requires Legal(h) && Undisturbed(h) && read !in h.Last().readers
    ensures (forall g, id :: !(GoesOnWith(h, UnlockedLook(read), g) && EndsInHarm(h, read, g, id)))
            <==> !h.Last().disk.meta.main.Absent?
  {
    var looked := Then(h, UnlockedLook(read), h.Last().(readers := h.Last().readers[read := AfterLook(h.Last().disk.meta, None)]));
    if h.Last().disk.meta.main.Absent? {
      var g := ReadDoesHarm(looked, read, "");
      assert OnlyDisturbs(h, looked, read) by { assert OnlyDisturbs(h, h, read); }
      Prolonged(h, looked, g, read);
      assert EndsInHarm(h, read, g, "");
    } else {
      forall g, id | GoesOnWith(h, UnlockedLook(read), g) && Legal(g) && OnlyDisturbs(h, g, read) ensures !IsHarmed(g.Last().disk, id) {
        FirstStepIs(h, UnlockedLook(read), g, looked, read);
        OverReadsDisturbNothing(looked, g, read);
        RunsAreSafe(g);
      }
    }
  }

  /** What goes on after the first step goes on from there. */
  lemma {:induction false} Prolonged(h: History, first: History, g: History, read: nat)
    requires first.After? && first.before == h && OnlyDisturbs(h, first, read) && OnlyDisturbs(first, g, read)
    ensures GoesOnWith(h, first.step, g) && OnlyDisturbs(h, g, read)
  {
    if g != first {
      Prolonged(h, first, g.before, read);
    }
  }

  function Length(h: History): nat {
    if h.Start? then 0 else Length(h.before) + 1
  }

  lemma {:induction false} GoingOnIsLonger(h: History, step: Step, g: History)
    requires GoesOnWith(h, step, g)
    ensures Length(g) > Length(h)
  {
    if !(g.before == h && g.step == step) {
      GoingOnIsLonger(h, step, g.before);
    }
  }

  lemma {:induction false} FirstStepIs(h: History, step: Step, g: History, first: History, read: nat)
    requires GoesOnWith(h, step, g) && Legal(g) && OnlyDisturbs(h, g, read)
    requires forall s :: Takes(step, h.Last(), s) ==> first == After(h, step, s)
    ensures OnlyDisturbs(first, g, read)
  {
    GoingOnIsLonger(h, step, g);
    if !(g.before == h && g.step == step) {
      FirstStepIs(h, step, g.before, first, read);
    }
  }

  /** The move itself, as the next step, does harm exactly when metadata is being removed and the file that is moved can be
      read. */
  lemma {:induction false} UnlockedMoveIsHarmlessIff(h: History, read: nat)
    requires Legal(h) && Undisturbed(h) && CanMove(h.Last(), read)
    ensures (forall g, id :: !(GoesOnWith(h, UnlockedMove(read), g) && EndsInHarm(h, read, g, id)))
            <==> !(RemovesMeta(h.Last().stage) && h.Last().disk.meta.At(SourceOf(h.Last(), read)).Holds?)
  {
    RunsAreSafe(h);
    var s := h.Last();
    var moved := After(h, UnlockedMove(read), MovedBy(s, read));
    assert OnlyDisturbs(h, moved, read) by { assert OnlyDisturbs(h, h, read); }
    if RemovesMeta(s.stage) && s.disk.meta.At(SourceOf(s, read)).Holds? {
      var g, id := MoveDoesHarm(moved, read);
      Prolonged(h, moved, g, read);
      assert EndsInHarm(h, read, g, id);
    } else {
      MovedIsCalm(h, read);
      forall g, id | GoesOnWith(h, UnlockedMove(read), g) && Legal(g) && OnlyDisturbs(h, g, read) ensures !IsHarmed(g.Last().disk, id) {
        FirstStepIs(h, UnlockedMove(read), g, moved, read);
        CalmIsHarmless(moved, g, read, id);
      }
    }
  }

  lemma MovedIsCalm(h: History, read: nat)
    requires Legal(h) && Undisturbed(h) && CanMove(h.Last(), read)
    requires !(RemovesMeta(h.Last().stage) && h.Last().disk.meta.At(SourceOf(h.Last(), read)).Holds?)
    ensures Calm(MovedBy(h.Last(), read)) && IsOver(MovedBy(h.Last(), read), read)
  {
    RunsAreSafe(h);
  }

  lemma CalmIsHarmless(h: History, g: History, read: nat, id: string)
    requires Legal(g) && OnlyDisturbs(h, g, read) && Calm(h.Last()) && IsOver(h.Last(), read)
    ensures !IsHarmed(g.Last().disk, id)
  {
    CalmRuns(h, g, read);
  }

  /** Like the invariant, but a main file that cannot be read may be left. */
  ghost predicate Calm(s: System) {
    && (s.holder.None? <==> s.stage == Outside)
    && (s.disk.dirty ==> NoneReadable(s.disk.meta))
    && (RemovesMeta(s.stage) ==> !s.disk.meta.main.Holds?)
    && (s.stage == TmpMetaCleared ==> s.disk.meta.tmp.Absent?)
    && (s.stage in {MetaCleared, Installing} ==> NoneReadable(s.disk.meta))
    && (s.stage in {Validated, MarkerDropped} ==> !s.disk.dirty)
  }

  predicate NoneReadable(meta: Journal.Files<string>) {
    !meta.main.Holds? && meta.tmp.Absent? && meta.bak.Absent?
  }

  lemma CalmKept(step: Step, s: System, s': System)
    requires Calm(s) && Takes(step, s, s') && !Disturbs(step, s)
    ensures Calm(s')
  {
  }

  lemma {:induction false} CalmRuns(h: History, g: History, read: nat)
    requires Legal(g) && OnlyDisturbs(h, g, read) && Calm(h.Last()) && IsOver(h.Last(), read)
    ensures Calm(g.Last()) && IsOver(g.Last(), read)
  {
    if g != h {
      CalmRuns(h, g.before, read);
      OverStays(g.step, g.before.Last(), g.system, read);
      CalmKept(g.step, g.before.Last(), g.system);
    }
  }

  // ---------------------------------------------------------------------
  // Runs that go wrong
  // ---------------------------------------------------------------------

  /** The run `h`, continued by one step. */
  ghost function Then(h: History, step: Step, s: System): (g: History)
    requires Legal(h) && Takes(step, h.Last(), s)
    ensures Legal(g) && g.Last() == s && (Undisturbed(h) && !Disturbs(step, h.Last()) ==> Undisturbed(g))
    ensures forall start {:trigger Quiet(start, g)} :: Quiet(start, h) && !step.UnlockedMove? ==> Quiet(start, g)
  {
    After(h, step, s)
  }

  /** The holder of the lock writes the temporary marker. */
  lemma WritesMarkerTmp(h: History, id: string) returns (g: History)
    requires Legal(h) && h.Last().stage == Inside
    ensures Legal(g) && (Undisturbed(h) ==> Undisturbed(g)) && Quiet(h, g)
    ensures g.Last() == h.Last().(stage := TmpWritten, disk := h.Last().disk.(markerTmp := Journal.Holds(id)))
  {
    var s, d := h.Last(), h.Last().disk;
    g := Then(h, Unmark(Temporary, TmpCleared), s.(stage := TmpCleared, disk := d.(markerTmp := Journal.Absent)));
    g := Then(g, TearMarkerTmp, s.(stage := TmpTorn, disk := d.(markerTmp := Journal.Torn)));
    g := Then(g, WriteMarkerTmp(id), s.(stage := TmpWritten, disk := d.(markerTmp := Journal.Holds(id))));
  }

  /** The holder of the lock replaces the marker. */
  lemma ReplaceMarker(h: History, id: string) returns (g: History)
    requires Legal(h) && h.Last().stage == Inside
    ensures Legal(g) && (Undisturbed(h) ==> Undisturbed(g)) && Quiet(h, g)
    ensures g.Last() == h.Last().(stage := MarkerSet, disk := h.Last().disk.(marker := Journal.Holds(id), markerTmp := Journal.Absent))
  {
    var written := WritesMarkerTmp(h, id);
    var s, d := h.Last(), h.Last().disk;
    g := Then(written, Unmark(Final, MarkerCleared), s.(stage := MarkerCleared, disk := d.(marker := Journal.Absent, markerTmp := Journal.Holds(id))));
    g := Then(g, RenameMarker, s.(stage := MarkerSet, disk := d.(marker := Journal.Holds(id), markerTmp := Journal.Absent)));
  }

  /** A process takes the place of the one that holds the lock, if any. */
  lemma Enters(h: History, pid: Pid) returns (g: History)
    requires Legal(h)
    ensures Legal(g) && (Undisturbed(h) ==> Undisturbed(g)) && Quiet(h, g)
    ensures g.Last() == h.Last().(holder := Some(pid), stage := Inside)
  {
    g := h;
    if h.Last().holder.Some? {
      g := Then(h, Leave, h.Last().(holder := None, stage := Outside));
    }
    g := Then(g, Acquire(pid), g.Last().(holder := Some(pid), stage := Inside));
  }

  /** It replaces the marker. */
  lemma Marks(h: History, pid: Pid, id: string) returns (g: History)
    requires Legal(h)
    ensures Legal(g) && (Undisturbed(h) ==> Undisturbed(g)) && Quiet(h, g)
    ensures g.Last() == System(h.Last().disk.(marker := Journal.Holds(id), markerTmp := Journal.Absent), Some(pid), MarkerSet, h.Last().readers)
  {
    var entered := Enters(h, pid);
    g := ReplaceMarker(entered, id);
    QuietIsTransitive(h, entered, g);
  }

  /** It begins to install all packages anew. */
  lemma Reinstall(h: History, id: string) returns (g: History)
    requires Legal(h)
    ensures Legal(g) && (Undisturbed(h) ==> Undisturbed(g)) && Quiet(h, g)
    ensures g.Last() == System(Prefix(Journal.Holds(id), Journal.Absent, NO_META, true, true), Some(0), Installing, h.Last().readers)
  {
    var marked := Marks(h, 0, id);
    var cleared := RemoveAllMeta(marked);
    QuietIsTransitive(h, marked, cleared);
    g := Then(cleared, Install(true), cleared.Last().(stage := Installing, disk := cleared.Last().disk.(packages := true, dirty := true)));
  }

  lemma RemoveAllMeta(h: History) returns (g: History)
    requires Legal(h) && h.Last().stage == MarkerSet
    ensures Legal(g) && (Undisturbed(h) ==> Undisturbed(g))
    ensures Quiet(h, g)
    ensures g.Last() == h.Last().(stage := MetaCleared, disk := h.Last().disk.(meta := NO_META))
  {
    var d := h.Last().disk.(meta := h.Last().disk.meta.(main := Journal.Absent));
    g := Then(h, RemoveMeta(Journal.Main), h.Last().(stage := MainCleared, disk := d));
    d := d.(meta := d.meta.(tmp := Journal.Absent));
    g := Then(g, RemoveMeta(Journal.Tmp), g.Last().(stage := TmpMetaCleared, disk := d));
    g := Then(g, RemoveMeta(Journal.Bak), g.Last().(stage := MetaCleared, disk := d.(meta := NO_META)));
  }

  /** A process has begun to install into a fresh prefix. */
  lemma FirstInstallation(id: string) returns (h: History)
    ensures Legal(h) && Undisturbed(h)
    ensures h.Last() == System(Prefix(Journal.Holds(id), Journal.Absent, NO_META, true, true), Some(0), Installing, map[])
  {
    h := Reinstall(Start, id);
  }

  /** A second process has removed the marker and not yet moved the new one into its place. */
  lemma RetryWithoutMarker(id: string) returns (h: History)
    ensures Legal(h) && Undisturbed(h)
    ensures h.Last() == System(Prefix(Journal.Absent, Journal.Holds(id), NO_META, true, true), Some(1), MarkerCleared, map[])
  {
    h := FirstInstallation(id);
    var d := h.Last().disk;
    h := Then(h, Leave, System(d, None, Outside, map[]));
    h := Then(h, Acquire(1), System(d, Some(1), Inside, map[]));
    h := WritesMarkerTmp(h, id);
    d := d.(marker := Journal.Absent, markerTmp := Journal.Holds(id));
    h := Then(h, Unmark(Final, MarkerCleared), System(d, Some(1), MarkerCleared, map[]));
  }

  /** Three crashes can leave an unfinished installation without any marker: during the installation, after the old
      marker was removed, and after the temporary one was. Every runtime then refuses the prefix. */
  lemma MarkerCanBeLost(id: string) returns (h: History)
    ensures Legal(h) && Undisturbed(h) && h.Last().disk.dirty && ReadMarker(h.Last().disk).NoMarker?
    ensures forall other, requireHealthy, healthy :: Disposes(other, h.Last().disk, requireHealthy, healthy) == Refused
  {
    h := RetryWithoutMarker(id);
    var d := h.Last().disk;
    h := Then(h, Leave, System(d, None, Outside, map[]));
    h := Then(h, Acquire(2), System(d, Some(2), Inside, map[]));
    var lost := d.(markerTmp := Journal.Absent);
    h := Then(h, Unmark(Temporary, TmpCleared), System(lost, Some(2), TmpCleared, map[]));
    h := Then(h, Leave, System(lost, None, Outside, map[]));
  }

  /** One crash and a removal can do the same: an interrupted installation, and a removal that deletes the marker first
      and is interrupted too. */
  lemma RemovalCanLoseMarker(id: string) returns (h: History)
    ensures Legal(h) && Undisturbed(h) && h.Last().disk.dirty && ReadMarker(h.Last().disk).NoMarker?
    ensures forall other, requireHealthy, healthy :: Disposes(other, h.Last().disk, requireHealthy, healthy) == Refused
  {
    h := FirstInstallation(id);
    var d := h.Last().disk;
    h := Then(h, Leave, System(d, None, Outside, map[]));
    h := Then(h, Acquire(1), System(d, Some(1), Inside, map[]));
    h := Then(h, BeginRaze, System(d, Some(1), Razing, map[]));
    h := Then(h, Raze(d.(marker := Journal.Absent)), System(d.(marker := Journal.Absent), Some(1), Razing, map[]));
    h := Then(h, Leave, System(d.(marker := Journal.Absent), None, Outside, map[]));
  }

  /** From any moment a read that has begun and is not over: a bootstrap is stopped between its recovery file and its rename, so
      that the read finds a file to move; another one removes the main file; the read moves the other one into its place,
      the removal goes on past it, and the installation stops as soon as it has begun. */
  lemma ReadDoesHarm(h: History, read: nat, id: string) returns (g: History)
    requires Legal(h) && read in h.Last().readers && !IsOver(h.Last(), read)
    ensures EndsInHarm(h, read, g, id)
  {
    var found := FindsRecovery(h, read, id);
    var cleared := RetryClears(found, read, id);
    QuietIsTransitive(h, found, cleared);
    QuietlyOn(h, h, cleared, read);
    var moved := Then(cleared, UnlockedMove(read), MovedBy(cleared.Last(), read));
    var other;
    g, other := MoveDoesHarm(moved, read);
    QuietlyOn(h, moved, g, read);
  }

  /** The recovery files that a persist can leave when it is stopped. */
  function Stopped(id: string, withBackup: bool): Journal.Files<string> {
    Journal.Files(Journal.Absent, Journal.Holds(id), if withBackup then Journal.Holds(id) else Journal.Absent)
  }

  /** An installation from the beginning, up to the check of the delegate. */
  lemma Installs(h: History, id: string) returns (g: History)
    requires Legal(h)
    ensures Legal(g) && (Undisturbed(h) ==> Undisturbed(g)) && Quiet(h, g)
    ensures g.Last() == System(Prefix(Journal.Holds(id), Journal.Absent, NO_META, true, false), Some(0), Validated, h.Last().readers)
  {
    g := Reinstall(h, id);
    g := Then(g, Validate, g.Last().(stage := Validated, disk := g.Last().disk.(dirty := false)));
  }

  /** It records its metadata and is stopped, with or without a backup. */
  lemma Records(h: History, id: string, withBackup: bool) returns (g: History)
    requires Legal(h) && h.Last().stage == Validated && h.Last().disk.meta == NO_META
    ensures Legal(g) && (Undisturbed(h) ==> Undisturbed(g)) && Quiet(h, g)
    ensures g.Last() == h.Last().(disk := h.Last().disk.(meta := Stopped(id, withBackup)))
  {
    var d := h.Last().disk;
    g := h;
    if withBackup {
      g := Then(g, RecordMeta(id, Recorded(id)), h.Last().(disk := d.(meta := Recorded(id))));
    }
    g := Then(g, RecordMeta(id, Stopped(id, withBackup)), h.Last().(disk := d.(meta := Stopped(id, withBackup))));
  }

  /** The read looks at the recovery file, if it has not done so before. */
  lemma SeesRecovery(h: History, read: nat, id: string, withBackup: bool) returns (g: History)
    requires Legal(h) && h.Last().disk.meta == Stopped(id, withBackup) && read in h.Last().readers
    requires if withBackup then h.Last().readers[read] in {NoTmp, MovesBak} else h.Last().readers[read] in {NoMain, MovesTmp}
    ensures Legal(g) && Quiet(h, g)
    ensures g.Last() == h.Last().(readers := h.Last().readers[read := if withBackup then MovesBak else MovesTmp])
  {
    var found := if withBackup then MovesBak else MovesTmp;
    if h.Last().readers[read] == found {
      assert h.Last().readers[read := found] == h.Last().readers;
      g := h;
    } else {
      g := Then(h, UnlockedLook(read), h.Last().(readers := h.Last().readers[read := found]));
    }
  }

  lemma FindsRecovery(h: History, read: nat, id: string) returns (g: History)
    requires Legal(h) && read in h.Last().readers && !IsOver(h.Last(), read)
    ensures Legal(g) && Quiet(h, g) && g.Last().ReadAt(read) in {Some(MovesTmp), Some(MovesBak)}
    ensures g.Last().holder == Some(0) && g.Last().disk.meta == Stopped(id, g.Last().ReadAt(read) == Some(MovesBak))
  {
    var withBackup := h.Last().readers[read] in {NoTmp, MovesBak};
    var installed := Installs(h, id);
    var recorded := Records(installed, id, withBackup);
    QuietIsTransitive(h, installed, recorded);
    NotOver(h.Last(), read);
    g := SeesRecovery(recorded, read, id, withBackup);
    QuietIsTransitive(h, recorded, g);
  }

  lemma NotOver(s: System, read: nat)
    requires read in s.readers && !IsOver(s, read)
    ensures s.readers[read] in {NoMain, NoTmp, MovesTmp, MovesBak}
  {
    match s.readers[read]
    case NoMain =>
    case NoTmp =>
    case MovesTmp =>
    case MovesBak =>
    case DropsBak =>
    case Done =>
  }

  function Recorded(id: string): Journal.Files<string> {
    Journal.Files(Journal.Holds(id), Journal.Absent, Journal.Absent)
  }

  lemma RetryClears(h: History, read: nat, id: string) returns (g: History)
    requires Legal(h) && h.Last().holder.Some? && h.Last().disk.meta.main.Absent? && CanMove(h.Last(), read)
    ensures Legal(g) && g.Last() == System(g.Last().disk, Some(1), MainCleared, h.Last().readers)
    ensures g.Last().disk.meta == h.Last().disk.meta && g.Last().disk.marker == Journal.Holds(id)
    ensures Quiet(h, g)
  {
    g := Marks(h, 1, id);
    g := Then(g, RemoveMeta(Journal.Main), g.Last().(stage := MainCleared));
  }

  /** A main file that comes back while metadata is being removed stays. If the marker names another runtime, that runtime's
      own marker follows. */
  lemma MoveDoesHarm(h: History, read: nat) returns (g: History, id: string)
    requires Legal(h) && RemovesMeta(h.Last().stage) && h.Last().holder.Some?
    requires h.Last().disk.meta.main.Holds? && h.Last().disk.marker.Holds?
    ensures id == h.Last().disk.meta.main.value && Quiet(h, g) && EndsInHarm(h, read, g, id)
  {
    id := h.Last().disk.meta.main.value;
    var over := InstallsOver(h);
    g := MarkedFor(over, id);
    QuietIsTransitive(h, over, g);
    QuietlyOn(h, h, g, read);
  }

  lemma InstallsOver(h: History) returns (g: History)
    requires Legal(h) && RemovesMeta(h.Last().stage) && h.Last().holder.Some?
    ensures Legal(g) && Quiet(h, g) && g.Last().holder.None? && g.Last().disk.dirty
    ensures g.Last().disk.meta.main == h.Last().disk.meta.main && g.Last().disk.marker == h.Last().disk.marker
  {
    var d := h.Last().disk.(meta := h.Last().disk.meta.(tmp := Journal.Absent));
    g := h;
    if h.Last().stage == MainCleared {
      g := Then(g, RemoveMeta(Journal.Tmp), h.Last().(stage := TmpMetaCleared, disk := d));
    }
    d := g.Last().disk.(meta := g.Last().disk.meta.(bak := Journal.Absent));
    g := Then(g, RemoveMeta(Journal.Bak), g.Last().(stage := MetaCleared, disk := d));
    g := Then(g, Install(true), g.Last().(stage := Installing, disk := d.(packages := true, dirty := true)));
    g := Then(g, Leave, g.Last().(holder := None, stage := Outside));
  }

  lemma MarkedFor(h: History, id: string) returns (g: History)
    requires Legal(h) && h.Last().holder.None? && h.Last().disk.marker.Holds?
    ensures Legal(g) && Quiet(h, g) && g.Last().disk.marker == Journal.Holds(id)
    ensures g.Last().disk.(marker := h.Last().disk.marker, markerTmp := h.Last().disk.markerTmp) == h.Last().disk
  {
    g := h;
    if h.Last().disk.marker.value != id {
      g := Marks(h, 0, id);
    }
  }

  /** A read that finds a fresh prefix and is slow is enough: the prefix is ready although its packages are half
      installed. */
  lemma UnlockedReadCanMakeDirtyReady(id: string) returns (h: History)
    ensures Legal(h) && h.Last().disk.dirty
    ensures forall requireHealthy :: Disposes(id, h.Last().disk, requireHealthy, true) == Ready
  {
    h := Then(Start, UnlockedLook(0), Start.Last().(readers := map[0 := NoMain]));
    h := ReadDoesHarm(h, 0, id);
  }

  // ---------------------------------------------------------------------
  // When moving a file without the lock keeps the metadata
  // ---------------------------------------------------------------------

  /** The file that stands for the metadata. */
  function Current(meta: Journal.Files<string>): Slot {
    if !meta.main.Absent? then meta.main else if !meta.tmp.Absent? then meta.tmp else meta.bak
  }

  /** A move keeps what is recorded exactly when the file says what the current one says. It need not: what the read has
      looked at may have become the main file since, and a later change may be writing a new temporary file. */
  lemma MoveKeepsMetadataIff(s: System, read: nat)
    requires CanMove(s, read)
    ensures Journal.Committed(MovedBy(s, read).disk.meta) == Journal.Committed(s.disk.meta)
            <==> s.disk.meta.At(SourceOf(s, read)) == Current(s.disk.meta)
  {
  }

  /** A read has found the recovery file of a bootstrap that goes on. */
  lemma ReadMeetsBootstrap(id: string) returns (h: History)
    ensures Legal(h) && Undisturbed(h)
    ensures h.Last() == System(Prefix(Journal.Holds(id), Journal.Absent, Stopped(id, false), true, false), Some(0), Validated, map[0 := MovesTmp])
  {
    h := Then(Start, UnlockedLook(0), Start.Last().(readers := map[0 := NoMain]));
    h := Installs(h, id);
    h := Records(h, id, false);
    h := Then(h, UnlockedLook(0), h.Last().(readers := map[0 := MovesTmp]));
  }

  /** The bootstrap is finished before the read moves the file. */
  lemma SlowRead(id: string) returns (h: History)
    ensures Legal(h) && Undisturbed(h)
    ensures h.Last() == System(Prefix(Journal.Absent, Journal.Absent, Recorded(id), true, false), None, Outside, map[0 := MovesTmp])
  {
    h := ReadMeetsBootstrap(id);
    var d := h.Last().disk.(meta := Recorded(id));
    h := Then(h, RecordMeta(id, d.meta), h.Last().(disk := d));
    d := d.(marker := Journal.Absent);
    h := Then(h, Unmark(Final, MarkerDropped), h.Last().(stage := MarkerDropped, disk := d));
    h := Then(h, Unmark(Temporary, Inside), h.Last().(stage := Inside));
    h := Then(h, Leave, h.Last().(holder := None, stage := Outside));
  }

  /** A process has begun to write the next temporary file. */
  lemma BeginsChange(h: History, id: string) returns (g: History)
    requires Legal(h) && Undisturbed(h) && h.Last().holder.None? && h.Last().stage == Outside
    requires h.Last().disk.meta == Recorded(id)
    ensures Legal(g) && Undisturbed(g) && Continues(h, g)
    ensures g.Last() == h.Last().(holder := Some(1), stage := Inside, disk := h.Last().disk.(meta := Recorded(id).(tmp := Journal.Torn)))
  {
    var torn := Recorded(id).(tmp := Journal.Torn);
    var entered := Then(h, Acquire(1), h.Last().(holder := Some(1), stage := Inside));
    g := Then(entered, UpdateMeta(id, torn), entered.Last().(disk := h.Last().disk.(meta := torn)));
    assert Continues(h, h) && Continues(h, entered);
  }

  lemma MoveTears(h: History, id: string) returns (g: History)
    requires Legal(h) && Undisturbed(h)
    requires h.Last() == System(Prefix(Journal.Absent, Journal.Absent, Recorded(id), true, false), None, Outside, map[0 := MovesTmp])
    ensures Legal(g) && Undisturbed(g) && Continues(h, g)
    ensures g.Last().disk == h.Last().disk.(meta := Journal.Files(Journal.Torn, Journal.Absent, Journal.Absent))
  {
    var writing := BeginsChange(h, id);
    var lost := Journal.Files(Journal.Torn, Journal.Absent, Journal.Absent);
    g := Then(writing, UnlockedMove(0), writing.Last().(disk := h.Last().disk.(meta := lost), readers := map[0 := DropsBak]));
    assert Continues(h, writing);
  }

  /** A ready prefix becomes one that every runtime refuses: the read moves the temporary file of a later change, which is
      still being written, over the main file, and the writer is stopped. */
  lemma UnlockedReadCanLoseMetadata(id: string) returns (before: History, h: History)
    ensures Legal(h) && Undisturbed(h) && Continues(before, h)
    ensures forall requireHealthy :: Disposes(id, before.Last().disk, requireHealthy, true) == Ready
    ensures !h.Last().disk.dirty && forall other, requireHealthy, healthy :: Disposes(other, h.Last().disk, requireHealthy, healthy) == Refused
  {
    before := SlowRead(id);
    h := MoveTears(before, id);
  }
}
