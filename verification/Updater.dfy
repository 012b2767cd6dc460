/** The operations of `src/executable_update.rs` on the files of one installation. Every change that they make
    on disk is shown to be a step of `UpdateProtocol`. */
module Updater {
  import opened Wrappers
  import opened UpdateProtocol
  import opened UpdateConvergence
  import Journal = MetadataJournal

  datatype Outcome =
    | NoUpdate
    | StagedUpdate
    | ReadyUpdate
    | Applied
    | ReplacementPending
    | CleanupPending
    | DiscardedStaged
    | RestoredPrevious

  datatype Failure =
    | Io
    | AlreadyPending
    | Unverified
    | IdenticalRelease
    | BackupPresent
    | NotApproved
    | WrongPhase
    | NotTheWorker
    | InvalidRecoveryState

  datatype Removal = Removed | NotFound | Denied

  datatype Attempt = Complete | Retry

  /** Files of `b` are files of `a`, and only candidates can be missing from `b`. */
  ghost predicate LostCandidatesOnly(a: Files, b: Files) {
    && (forall p :: p in b ==> p in a && a[p] == b[p])
    && (forall p :: p in a && !p.Candidate? ==> p in b)
  }

  /** Staging changes the candidate `staged` at most, and working files; other candidates may be lost. */
  ghost predicate StagedBeside(a: Files, b: Files, staged: FilePath) {
    forall p :: !IsWorkingFile(p) && p != staged ==>
      && (p in b ==> p in a && a[p] == b[p])
      && (p in a && !p.Candidate? ==> p in b)
  }

  /** One installation. The bootstrap lock lets one operation run at a time, but anyone may delete a candidate at
      any moment (`Interfere`), every file system call can fail, and the process can be killed between any two.
      `past` is the history of the disk, `stops` the histories that a crash may have ended, and `disturbances`
      counts failures and deletions. */
  class Installation {
    const w: World
    const journal: Journal.MetadataStore<Record>
    var files: Files
    ghost var past: History
    ghost var stops: set<History>
    ghost var disturbances: nat

    ghost predicate Valid()
      reads this, journal
    {
      && journal.Valid()
      && Journal.Committed(journal.disk) == Some(past.Last().record)
      && past.Last().files == files
      && Legal(w, past)
      && forall h :: h in stops ==> Legal(w, h)
    }

    /** Continue from wherever an earlier process stopped. */
    constructor (world: World, h: History, found: Journal.Files<Record>)
      requires Legal(world, h) && Journal.Committed(found) == Some(h.Last().record)
      ensures Valid() && w == world && past == h && fresh(journal) && disturbances == 0
    {
      w := world;
      journal := new Journal.MetadataStore<Record>(found);
      files := h.Last().files;
      past := h;
      stops := {};
      disturbances := 0;
    }

    // -------------------------------------------------------------------
    // One disk access each
    // -------------------------------------------------------------------

    /** Someone else may delete a candidate. */
    method Interfere()
      requires Valid()
      modifies this
      ensures Valid() && past.Last().record == old(past.Last().record) && old(stops) <= stops
      ensures LostCandidatesOnly(old(files), files)
      ensures disturbances >= old(disturbances) && (disturbances == old(disturbances) ==> files == old(files))
      ensures forall g :: Continues(g, old(past)) ==> Continues(g, past)
    {
      if * {
        var key: string := *;
        Advance(files - {Candidate(key)}, DropCandidate(key));
        disturbances := disturbances + 1;
      }
    }

    /** `config::read_metadata_for`. */
    method Load() returns (r: Option<Record>)
      requires Valid()
      modifies this, journal
      ensures Valid() && past == old(past) && stops == old(stops) && files == old(files)
      ensures r.Some? ==> r.value == past.Last().record && !journal.disk.main.Absent?
      ensures disturbances >= old(disturbances) && (r.None? ==> disturbances > old(disturbances))
    {
      r := journal.Read();
      if r.None? {
        disturbances := disturbances + 1;
      }
    }

    /** `config::persist_metadata_for`. A failed or interrupted write leaves the old or the new record. */
    method Save(record: Record, ghost step: Step) returns (ok: bool)
      requires Valid() && !journal.disk.main.Absent?
      requires Takes(w, step, past.Last(), past.Last().(record := record))
      modifies this, journal
      ensures Valid() && old(stops) + {After(old(past), step, old(past.Last()).(record := record))} <= stops
      ensures files == old(files)
      ensures past in {old(past), After(old(past), step, old(past.Last()).(record := record))}
      ensures ok ==> past == After(old(past), step, old(past.Last()).(record := record)) && !journal.disk.main.Absent?
      ensures disturbances >= old(disturbances) && (!ok ==> disturbances > old(disturbances))
      ensures forall i :: |old(journal.trail)| <= i < |journal.trail| ==>
        Journal.Committed(journal.trail[i]) in {Some(old(past.Last().record)), Some(record)}
      ensures forall g :: Continues(g, old(past)) ==> Continues(g, past)
    {
      ghost var committed := After(past, step, past.Last().(record := record));
      Journal.PersistIsAtomicIff(journal.disk, record);
      ok := journal.Persist(record);
      if Journal.Committed(journal.disk) == Some(record) {
        past := committed;
      }
      stops := stops + {past, committed};
      if !ok {
        disturbances := disturbances + 1;
      }
    }

    /** Write the record as the last step of an operation. */
    method Conclude(record: Record, ghost step: Step, outcome: Outcome) returns (r: Result<Outcome, Failure>)
      requires Valid() && !journal.disk.main.Absent?
      requires Takes(w, step, past.Last(), past.Last().(record := record))
      modifies this, journal
      ensures Valid() && old(stops) <= stops && files == old(files)
      ensures r in {Ok(outcome), Err(Io)}
      ensures r.Ok? ==> past == After(old(past), step, old(past.Last()).(record := record))
      ensures past.Last().record in {old(past.Last().record), record}
      ensures disturbances >= old(disturbances) && (r.Err? ==> disturbances > old(disturbances))
      ensures forall g :: Continues(g, old(past)) ==> Continues(g, past)
    {
      var saved := Save(record, step);
      r := if saved then Ok(outcome) else Err(Io);
    }

    /** One change of the files, and the moment after it. */
    method Advance(next: Files, ghost step: Step)
      requires Valid() && Takes(w, step, past.Last(), past.Last().(files := next))
      modifies this
      ensures Valid() && past == After(old(past), step, old(past.Last()).(files := next))
      ensures stops == old(stops) + {past} && disturbances == old(disturbances)
    {
      files := next;
      past := After(past, step, past.Last().(files := next));
      stops := stops + {past};
    }

    method RemoveFile(path: FilePath, ghost step: Step) returns (r: Removal)
      requires Valid()
      requires Takes(w, step, past.Last(), past.Last().(files := files - {path}))
      modifies this
      ensures Valid() && past.Last().record == old(past.Last().record) && old(stops) <= stops
      ensures r == NotFound ==> path !in old(files)
      ensures r == Removed ==> path in old(files)
      ensures files == if r == Denied then old(files) else old(files) - {path}
      ensures disturbances >= old(disturbances) && (r == Denied ==> disturbances > old(disturbances))
      ensures forall g :: Continues(g, old(past)) ==> Continues(g, past)
    {
      if * {
        disturbances := disturbances + 1;
        return Denied;
      }
      if path !in files {
        assert files - {path} == files;
        return NotFound;
      }
      Advance(files - {path}, step);
      r := Removed;
    }

    method RemoveWorkingFile(path: FilePath) returns (r: Removal)
      requires Valid() && IsWorkingFile(path)
      modifies this
      ensures Valid() && past.Last().record == old(past.Last().record) && old(stops) <= stops
      ensures files == if r == Denied then old(files) else old(files) - {path}
      ensures disturbances >= old(disturbances) && (r == Denied ==> disturbances > old(disturbances))
      ensures forall g :: Continues(g, old(past)) ==> Continues(g, past)
    {
      r := RemoveFile(path, Work);
    }

    method RenameFile(source: FilePath, dest: FilePath, ghost step: Step) returns (ok: bool)
      requires Valid()
      requires source in files ==> Takes(w, step, past.Last(), past.Last().(files := Moved(files, source, dest)))
      modifies this
      ensures Valid() && past.Last().record == old(past.Last().record) && old(stops) <= stops
      ensures ok ==> source in old(files) && files == Moved(old(files), source, dest)
      ensures !ok ==> files == old(files)
      ensures disturbances >= old(disturbances)
      ensures !ok ==> disturbances > old(disturbances) || source !in old(files)
      ensures forall g :: Continues(g, old(past)) ==> Continues(g, past)
    {
      ok := *;
      if source !in files {
        ok := false;
      } else if ok {
        Advance(Moved(files, source, dest), step);
      } else {
        disturbances := disturbances + 1;
      }
    }

    /** Create a working file, which must not be there, and write it; a failure or a crash can leave it cut off. */
    method WriteWorkingFile(path: FilePath, content: Content) returns (ok: bool)
      requires Valid() && IsWorkingFile(path) && path !in files
      modifies this
      ensures Valid() && past.Last().record == old(past.Last().record) && old(stops) <= stops
      ensures ok ==> files == old(files)[path := content]
      ensures !ok ==> files in {old(files), old(files)[path := Torn]} && disturbances > old(disturbances)
      ensures disturbances >= old(disturbances)
      ensures forall g :: Continues(g, old(past)) ==> Continues(g, past)
    {
      ok := *;
      if ok {
        Advance(files[path := Torn], Work);
        ok := *;
        if ok {
          Advance(files[path := content], Work);
        }
      }
      if !ok {
        disturbances := disturbances + 1;
      }
    }

    // -------------------------------------------------------------------
    // Staging and approval
    // -------------------------------------------------------------------

    /** Write `content` to the working file `part`, and move that to `dest`. */
    method CopyThrough(content: Content, dest: FilePath, part: FilePath) returns (ok: bool)
      requires Valid() && dest !in files && part !in files
      requires || (dest.Candidate? && part == CandidatePart(dest.key) && past.Last().record.pending == None)
               || (dest.WorkerTmp? && part == WorkerPart(dest.key))
      modifies this
      ensures Valid() && past.Last().record == old(past.Last().record) && old(stops) <= stops
      ensures AgreeBeside({dest, part}, files, old(files))
      ensures ok ==> dest in files && files[dest] == content
      ensures !ok ==> disturbances > old(disturbances) && dest !in files
      ensures disturbances >= old(disturbances)
      ensures forall g :: Continues(g, old(past)) ==> Continues(g, past)
    {
      ok := WriteWorkingFile(part, content);
      if ok {
        ok := RenameFile(part, dest, if dest.Candidate? then PlaceCandidate(dest.key) else Work);
      }
      if !ok {
        var _ := RemoveWorkingFile(part);
      }
    }

    /** `stage_file`: copy `content` to `dest` through a working file, unless `dest` is there already. */
    method StageFile(content: Content, dest: FilePath, part: FilePath) returns (ok: bool)
      requires Valid()
      requires || (dest.Candidate? && part == CandidatePart(dest.key) && past.Last().record.pending == None)
               || (dest.WorkerTmp? && part == WorkerPart(dest.key))
      modifies this
      ensures Valid() && past.Last().record == old(past.Last().record) && old(stops) <= stops
      ensures AgreeBeside({dest, part}, files, old(files))
      ensures dest in old(files) ==> files == old(files)
      ensures ok ==> dest in files && (dest in old(files) || files[dest] == content)
      ensures !ok ==> disturbances > old(disturbances) && dest !in files
      ensures disturbances >= old(disturbances)
      ensures forall g :: Continues(g, old(past)) ==> Continues(g, past)
    {
      if dest in files { return true; }
      var cleared := RemoveWorkingFile(part);
      if cleared == Denied { return false; }
      ok := CopyThrough(content, dest, part);
    }

    /** Put the candidate file of a release in place. One that is there already is kept if it verifies. */
    method PlaceCandidateFile(content: Content, release: Release) returns (ok: bool, created: bool)
      requires Valid() && past.Last().record.pending == None
      modifies this
      ensures Valid() && past.Last().record == old(past.Last().record) && old(stops) <= stops
      ensures AgreeBeside({CandidatePath(release), CandidatePart(Key(release.digest))}, files, old(files))
      ensures ok ==> CandidatePath(release) in files
      ensures ok && created ==> files[CandidatePath(release)] == content
      ensures ok && !created ==> files == old(files) && Verifies(w, files[CandidatePath(release)], release)
      ensures CandidatePath(release) in old(files) && Verifies(w, old(files)[CandidatePath(release)], release) ==>
        ok && !created && past == old(past)
      ensures !ok ==> disturbances > old(disturbances) && (CandidatePath(release) !in old(files) ==> CandidatePath(release) !in files)
      ensures disturbances >= old(disturbances)
      ensures forall g :: Continues(g, old(past)) ==> Continues(g, past)
    {
      var candidate := CandidatePath(release);
      created := candidate !in files;
      if !created && !Verifies(w, files[candidate], release) {
        var removed := RemoveFile(candidate, DropCandidate(candidate.key));
        if removed == Denied { return false, false; }
        created := true;
      }
      ok := true;
      if created {
        ok := StageFile(content, candidate, CandidatePart(candidate.key));
      }
    }

    /** The candidate of a release holds `content` at the moment `h`, and nothing is pending yet. */
    static ghost predicate HasCandidate(h: History, release: Release, content: Content) {
      && h.Last().record.pending == None
      && CandidatePath(release) in h.Last().files && h.Last().files[CandidatePath(release)] == content
    }

    /** `stage_candidate`: put the new executable beside the installed one and record it as unapproved. `placed` is the
        moment at which the copy was verified. */
    method StageCandidate(source: Option<Content>, version: string, build: nat)
      returns (r: Result<Outcome, Failure>, ghost placed: History)
      requires Valid()
      modifies this, journal
      ensures Valid() && old(stops) <= stops && disturbances >= old(disturbances)
      ensures forall g :: Continues(g, old(past)) ==> Continues(g, past)
      ensures r.Ok? ==> r.value == StagedUpdate && old(past.Last().record.pending) == None
      ensures r.Ok? ==>
        && source.Some? && source.value.Whole?
        && past.Last().record
           == old(past.Last().record).(pending := Some(Pending(Staged, Release(version, build, source.value.digest))))
        && past.After? && past.step == RecordStaged(Release(version, build, source.value.digest))
      ensures r.Ok? ==>
        var release := Release(version, build, source.value.digest);
        && Continues(old(past), placed) && Continues(placed, past) && HasCandidate(placed, release, source.value)
        && (CandidatePath(release) in files ==> files[CandidatePath(release)] == source.value)
        && (disturbances == old(disturbances) ==> CandidatePath(release) in files)
      ensures source.Some? && source.value.Whole? ==>
        var release := Release(version, build, source.value.digest);
        && StagedBeside(old(files), files, CandidatePath(release))
        && (disturbances == old(disturbances) ==>
             AgreeBeside({CandidatePath(release), CandidatePart(Key(release.digest))}, files, old(files)))
      ensures r.Err? && (disturbances == old(disturbances) || source.None? || source.value.Torn?) ==> files == old(files)
      ensures r.Err? && source.Some? && source.value.Whole? ==>
        var candidate := CandidatePath(Release(version, build, source.value.digest));
        candidate !in old(files) && candidate in files ==> disturbances > old(disturbances) + 1
      ensures r.Err? ==> past.Last().record.current == old(past.Last().record.current)
      ensures r.Err? && r.error != Io ==> past.Last().record == old(past.Last().record)
      ensures Target in files && Target in old(files) && files[Target] == old(files)[Target]
      ensures r != Err(BackupPresent)
      ensures disturbances == old(disturbances) ==>
        (r.Ok? <==>
         && old(past.Last().record.pending) == None
         && source.Some? && source.value.Whole?
         && Genuine(w, Release(version, build, source.value.digest))
         && source.value.digest != old(past.Last().record.current.digest))
    {
      RunsAreSafe(w, past);
      placed := past;
      var loaded := Load();
      if loaded.None? { return Err(Io), past; }
      var record := loaded.value;
      if record.pending.Some? { return Err(AlreadyPending), past; }
      if source.None? || Target !in files { return Err(Io), past; }
      if source.value.Torn? || !Verifies(w, files[Target], record.current) { return Err(Unverified), past; }
      var release := Release(version, build, source.value.digest);
      if !Genuine(w, release) { return Err(Unverified), past; }
      if release.digest == record.current.digest { return Err(IdenticalRelease), past; }
      if BackupPath(record.current) in files { return Err(BackupPresent), past; }
      r, placed := StageRelease(record, source.value, release);
    }

    /** The rest of `stage_candidate`, once the source and the installation have been checked. */
    method StageRelease(record: Record, source: Content, release: Release)
      returns (r: Result<Outcome, Failure>, ghost placed: History)
      requires Valid() && !journal.disk.main.Absent?
      requires record == past.Last().record && record.pending == None
      requires Target in files && Verifies(w, files[Target], record.current) && BackupPath(record.current) !in files
      requires Verifies(w, source, release) && release.digest != record.current.digest
      modifies this, journal
      ensures Valid() && old(stops) <= stops && disturbances >= old(disturbances)
      ensures forall g :: Continues(g, old(past)) ==> Continues(g, past)
      ensures r.Ok? ==>
        && r.value == StagedUpdate && past.Last().record == record.(pending := Some(Pending(Staged, release)))
        && past.After? && past.step == RecordStaged(release)
      ensures r.Ok? ==>
        && Continues(old(past), placed) && Continues(placed, past) && HasCandidate(placed, release, source)
        && (CandidatePath(release) in files ==> files[CandidatePath(release)] == source)
        && (disturbances == old(disturbances) ==> CandidatePath(release) in files)
      ensures StagedBeside(old(files), files, CandidatePath(release))
      ensures disturbances == old(disturbances) ==>
        AgreeBeside({CandidatePath(release), CandidatePart(Key(release.digest))}, files, old(files))
      ensures r.Err? ==> r.error in {Io, Unverified}
      ensures r.Err? ==> past.Last().record in {record, record.(pending := Some(Pending(Staged, release)))}
      ensures r == Err(Unverified) ==> past.Last().record == record
      ensures r.Err? ==> disturbances > old(disturbances)
      ensures r.Err? && CandidatePath(release) !in old(files) && CandidatePath(release) in files ==> disturbances > old(disturbances) + 1
    {
      placed := past;
      var candidate := CandidatePath(release);
      var ok, created := PlaceCandidateFile(source, release);
      if !ok { return Err(Io), past; }
      Interfere();
      if candidate !in files || !Verifies(w, files[candidate], release) {
        TakeBack(created, candidate);
        return Err(Unverified), past;
      }
      placed := past;
      r := RecordCandidate(record, release, created);
    }

    /** Record a candidate that has been verified. It may vanish before the record is written. */
    method RecordCandidate(record: Record, release: Release, created: bool) returns (r: Result<Outcome, Failure>)
      requires Valid() && !journal.disk.main.Absent?
      requires record == past.Last().record && record.pending == None
      requires Target in files && Verifies(w, files[Target], record.current) && BackupPath(record.current) !in files
      requires CandidatePath(release) in files && Verifies(w, files[CandidatePath(release)], release)
      requires release.digest != record.current.digest
      modifies this, journal
      ensures Valid() && old(stops) <= stops && disturbances >= old(disturbances)
      ensures forall g :: Continues(g, old(past)) ==> Continues(g, past)
      ensures r in {Ok(StagedUpdate), Err(Io)} && (r.Err? ==> disturbances > old(disturbances))
      ensures r.Err? && created && CandidatePath(release) in files ==> disturbances > old(disturbances) + 1
      ensures past.Last().record in {record, record.(pending := Some(Pending(Staged, release)))}
      ensures r.Ok? ==>
        && past.Last().record == record.(pending := Some(Pending(Staged, release)))
        && past.After? && past.step == RecordStaged(release)
      ensures LostCandidatesOnly(old(files), files) && (disturbances == old(disturbances) ==> files == old(files))
    {
      Interfere();
      r := Conclude(record.(pending := Some(Pending(Staged, release))), RecordStaged(release), StagedUpdate);
      if r.Err? {
        TakeBack(created, CandidatePath(release));
      }
    }

    /** Remove a candidate file that this operation has created. */
    method TakeBack(created: bool, candidate: FilePath)
      requires Valid() && candidate.Candidate?
      modifies this
      ensures Valid() && past.Last().record == old(past.Last().record) && old(stops) <= stops
      ensures files in {old(files), old(files) - {candidate}} && disturbances >= old(disturbances)
      ensures if created then candidate in files ==> disturbances > old(disturbances) else files == old(files)
      ensures forall g :: Continues(g, old(past)) ==> Continues(g, past)
    {
      if created {
        var _ := RemoveFile(candidate, DropCandidate(candidate.key));
      }
    }

    /** The arm of `mark_pending_ready` for a staged update. */
    method ApproveStaged(record: Record) returns (r: Result<Outcome, Failure>)
      requires Valid() && !journal.disk.main.Absent?
      requires record == past.Last().record && record.pending.Some? && record.pending.value.phase == Staged
      modifies this, journal
      ensures Valid() && old(stops) <= stops
      ensures forall g :: Continues(g, old(past)) ==> Continues(g, past)
      ensures r in {Ok(ReadyUpdate), Err(Io), Err(InvalidRecoveryState)}
      ensures r.Ok? ==> past.Last().record == Phased(record, Ready)
      ensures past.Last().record in {record, Phased(record, Ready)}
      ensures r == Err(InvalidRecoveryState) ==> past.Last().record == record && CandidatePath(record.pending.value.release) !in files
      ensures LostCandidatesOnly(old(files), files) && disturbances >= old(disturbances)
      ensures disturbances == old(disturbances) ==> files == old(files)
      ensures disturbances == old(disturbances) ==> (r.Ok? <==> CandidatePath(record.pending.value.release) in old(files))
    {
      Interfere();
      RecoveryIsTotal(w, past);
      if Classify(w, record.current, record.pending.value.release, files) != Some(STAGED) { return Err(InvalidRecoveryState); }
      Interfere();
      RecoveryIsTotal(w, past);
      r := Conclude(Phased(record, Ready), Approve, ReadyUpdate);
    }

    /** `mark_pending_ready`: approve the staged update. */
    method MarkPendingReady() returns (r: Result<Outcome, Failure>)
      requires Valid()
      modifies this, journal
      ensures Valid() && old(stops) <= stops && disturbances >= old(disturbances)
      ensures forall g :: Continues(g, old(past)) ==> Continues(g, past)
      ensures r.Ok? ==>
        match old(past.Last().record.pending)
        case None => r.value == NoUpdate && past.Last().record == old(past.Last().record)
        case Some(_) => r.value == ReadyUpdate && past.Last().record == Phased(old(past.Last().record), Ready)
      ensures r == Err(InvalidRecoveryState) ==>
        past.Last().record.pending.Some? && CandidatePath(past.Last().record.pending.value.release) !in files
      ensures LostCandidatesOnly(old(files), files) && (disturbances == old(disturbances) ==> files == old(files))
      ensures r.Err? ==> past.Last().record.current == old(past.Last().record.current)
      ensures r.Err? && r.error != Io ==> past.Last().record == old(past.Last().record)
      ensures disturbances == old(disturbances) ==>
        (r.Ok? <==> match old(past.Last().record.pending)
                    case None => true
                    case Some(Pending(phase, release)) =>
                      phase == Ready || (phase == Staged && CandidatePath(release) in old(files)))
    {
      var loaded := Load();
      if loaded.None? { return Err(Io); }
      var record := loaded.value;
      if record.pending.None? { return Ok(NoUpdate); }
      var Pending(phase, release) := record.pending.value;
      RunsAreSafe(w, past);
      match phase {
        case Staged => r := ApproveStaged(record);
        case Ready => r := Ok(ReadyUpdate);
        case _ => r := Err(WrongPhase);
      }
    }

    // -------------------------------------------------------------------
    // Replacement and recovery
    // -------------------------------------------------------------------

    /** The outcome of an operation on a pending update tells what became of the update. */
    ghost predicate Concludes(before: Disk, r: Result<Outcome, Failure>)
      requires before.record.pending.Some?
      reads this, journal
    {
      var now := past.Last().record;
      && r != Err(InvalidRecoveryState)
      && (r == Ok(Applied) ==> now == Committed(before.record))
      && (r in {Ok(RestoredPrevious), Ok(DiscardedStaged)} ==> now == Cleared(before.record))
      && (r == Ok(DiscardedStaged) ==> before.record.pending.value.phase == Staged)
      && (r == Ok(RestoredPrevious) ==> before.record.pending.value.phase in {Ready, Replacing})
      && (r == Ok(CleanupPending) ==> now.pending.Some? && BackupPath(now.current) in files)
      && (r == Ok(ReplacementPending) ==> w.platform.Windows? && now == Phased(before.record, Replacing))
      && (r.Ok? ==> r.value in {Applied, RestoredPrevious, DiscardedStaged, ReplacementPending, CleanupPending})
      && (now.current != before.record.current || now.pending.None? || now == Phased(before.record, now.pending.value.phase))
    }

    /** `finish_cleanup_locked`: remove the backup of the replaced executable and record the new release. */
    method FinishCleanup(record: Record) returns (r: Result<Outcome, Failure>)
      requires Valid() && !journal.disk.main.Absent?
      requires record == past.Last().record && record.pending.Some? && record.pending.value.phase == Cleanup
      modifies this, journal
      ensures Valid() && old(stops) <= stops && disturbances >= old(disturbances)
      ensures forall g :: Continues(g, old(past)) ==> Continues(g, past)
      ensures Concludes(old(past.Last()), r)
      ensures disturbances == old(disturbances) ==> r.Ok? && r.value != CleanupPending && SameRoles(past.Last(), Recovered(w, old(past.Last())))
    {
      var Pending(phase, next) := record.pending.value;
      var state := Classify(w, record.current, next, files);
      if state == Some(FileState(New, Missing, Old)) {
        var removed := RemoveFile(BackupPath(record.current), DropBackup);
        if removed == Denied { return Ok(CleanupPending); }
      } else if state != Some(FileState(New, Missing, Missing)) {
        RecoveryIsTotal(w, past);
        return Err(InvalidRecoveryState);
      }
      assert files == old(files) - {BackupPath(record.current)};
      r := Conclude(Committed(record), CommitNew, Applied);
      if disturbances == old(disturbances) {
        CommittingRecovers(w, old(past.Last()), past.Last());
      }
    }

    /** `replace_candidate`: move the candidate over the stable executable and record the new release. */
    method ReplaceCandidate(record: Record) returns (r: Result<Outcome, Failure>)
      requires Valid() && !journal.disk.main.Absent? && w.platform.Unix?
      requires record == past.Last().record && record.pending.Some? && record.pending.value.phase == Replacing
      requires Classify(w, record.current, record.pending.value.release, files) in {Some(STAGED), Some(FileState(Old, Missing, Missing))}
      modifies this, journal
      ensures Valid() && old(stops) <= stops && disturbances >= old(disturbances)
      ensures forall g :: Continues(g, old(past)) ==> Continues(g, past)
      ensures r in {Ok(Applied), Err(Io)}
      ensures r == Ok(Applied) ==> past.Last().record == Committed(record)
      ensures past.Last().record in {record, Committed(record)}
      ensures disturbances == old(disturbances) ==>
        var candidate := CandidatePath(record.pending.value.release);
        candidate in old(files) ==> r.Ok? && files == Moved(old(files), candidate, Target)
    {
      RunsAreSafe(w, past);
      var candidate := CandidatePath(record.pending.value.release);
      var installed := RenameFile(candidate, Target, Install);
      if !installed { return Err(Io); }
      r := Conclude(Committed(record), CommitNew, Applied);
    }

    /** The two arms of `apply_or_recover_locked` that install the candidate. It may vanish before the rename. */
    method InstallApproved(record: Record) returns (r: Result<Outcome, Failure>)
      requires Valid() && !journal.disk.main.Absent? && w.platform.Unix?
      requires record == past.Last().record && record.pending.Some? && record.pending.value.phase in {Ready, Replacing}
      requires Classify(w, record.current, record.pending.value.release, files) == Some(STAGED)
      modifies this, journal
      ensures Valid() && old(stops) <= stops && disturbances >= old(disturbances)
      ensures forall g :: Continues(g, old(past)) ==> Continues(g, past)
      ensures r in {Ok(Applied), Err(Io)}
      ensures r == Ok(Applied) ==> past.Last().record == Committed(record)
      ensures past.Last().record in {record, Phased(record, Replacing), Committed(record)}
      ensures disturbances == old(disturbances) ==>
        r.Ok? && files == Moved(old(files), CandidatePath(record.pending.value.release), Target)
    {
      Interfere();
      var replacing := record;
      if record.pending.value.phase == Ready {
        replacing := Phased(record, Replacing);
        var saved := Save(replacing, BeginReplace);
        if !saved { return Err(Io); }
      }
      r := ReplaceCandidate(replacing);
    }

    /** The replacement is done and there is no backup: the record follows it. */
    method CommitReplaced(record: Record) returns (r: Result<Outcome, Failure>)
      requires Valid() && !journal.disk.main.Absent?
      requires record == past.Last().record && record.pending.Some? && record.pending.value.phase == Replacing
      requires Classify(w, record.current, record.pending.value.release, files) == Some(FileState(New, Missing, Missing))
      modifies this, journal
      ensures Valid() && old(stops) <= stops && disturbances >= old(disturbances)
      ensures forall g :: Continues(g, old(past)) ==> Continues(g, past)
      ensures Concludes(old(past.Last()), r)
      ensures disturbances == old(disturbances) ==> r.Ok? && r.value != CleanupPending && SameRoles(past.Last(), Recovered(w, old(past.Last())))
    {
      r := Conclude(Committed(record), CommitNew, Applied);
      if disturbances == old(disturbances) {
        assert files - {BackupPath(record.current)} == files;
        CommittingRecovers(w, old(past.Last()), past.Last());
      }
    }

    /** `apply_or_recover_locked`, on Unix. */
    method ApplyOrRecover(record: Record) returns (r: Result<Outcome, Failure>)
      requires Valid() && !journal.disk.main.Absent? && w.platform.Unix?
      requires record == past.Last().record && record.pending.Some? && record.pending.value.phase in {Ready, Replacing}
      modifies this, journal
      ensures Valid() && old(stops) <= stops && disturbances >= old(disturbances)
      ensures forall g :: Continues(g, old(past)) ==> Continues(g, past)
      ensures Concludes(old(past.Last()), r)
      ensures disturbances == old(disturbances) ==> r.Ok? && r.value != CleanupPending && SameRoles(past.Last(), Recovered(w, old(past.Last())))
    {
      var Pending(phase, next) := record.pending.value;
      var state := Classify(w, record.current, next, files);
      if state == Some(STAGED) {
        r := InstallApproved(record);
        if disturbances == old(disturbances) {
          InstallingRecovers(w, old(past.Last()), past.Last());
        }
      } else if phase == Replacing && state == Some(FileState(New, Missing, Missing)) {
        r := CommitReplaced(record);
      } else if state == Some(FileState(Old, Missing, Missing)) {
        r := Conclude(Cleared(record), ClearPending, RestoredPrevious);
        if disturbances == old(disturbances) {
          assert files - {BackupPath(record.current)} == files;
          ClearingRecovers(w, old(past.Last()), past.Last());
        }
      } else {
        RecoveryIsTotal(w, past);
        r := Err(InvalidRecoveryState);
      }
    }

    /** Copy the installed executable through a temporary file, which may be there from an earlier attempt. */
    method CopyBackup(record: Record) returns (ok: bool)
      requires Valid() && w.platform.Windows?
      requires record == past.Last().record && record.pending.Some? && record.pending.value.phase in {Ready, Replacing}
      requires ClassifyTarget(w, record.current, record.pending.value.release, files) == Some(Old)
      requires BackupPath(record.current) !in files
      modifies this
      ensures Valid() && past.Last().record == old(past.Last().record) && old(stops) <= stops
      ensures ok ==> ClassifyBackup(w, record.current, files) == Some(Old)
      ensures AgreeBeside(BackupPaths(record.current), files, old(files))
      ensures disturbances >= old(disturbances) && (!ok ==> disturbances > old(disturbances))
      ensures forall g :: Continues(g, old(past)) ==> Continues(g, past)
    {
      var temporary := WorkerTmp(Key(record.current.digest));
      if temporary in files && !Verifies(w, files[temporary], record.current) {
        var removed := RemoveWorkingFile(temporary);
        if removed == Denied { return false; }
      }
      ok := StageFile(files[Target], temporary, WorkerPart(Key(record.current.digest)));
      if ok {
        ok := RenameFile(temporary, BackupPath(record.current), PlaceBackup);
      }
    }

    /** `stage_windows_worker_backup`: keep a copy of the installed executable, which also runs the worker. */
    method StageWorkerBackup(record: Record) returns (ok: bool)
      requires Valid() && w.platform.Windows?
      requires record == past.Last().record && record.pending.Some? && record.pending.value.phase in {Ready, Replacing}
      requires ClassifyTarget(w, record.current, record.pending.value.release, files) == Some(Old)
      requires ClassifyBackup(w, record.current, files).Some?
      modifies this
      ensures Valid() && past.Last().record == old(past.Last().record) && old(stops) <= stops
      ensures ok ==> ClassifyBackup(w, record.current, files) == Some(Old)
      ensures AgreeBeside(BackupPaths(record.current), files, old(files))
      ensures disturbances >= old(disturbances) && (!ok ==> disturbances > old(disturbances))
      ensures forall g :: Continues(g, old(past)) ==> Continues(g, past)
    {
      if BackupPath(record.current) in files {
        var removed := RemoveWorkingFile(WorkerTmp(Key(record.current.digest)));
        ok := removed != Denied;
      } else {
        ok := CopyBackup(record);
      }
    }

    /** `prepare_windows_worker_locked`; starting the worker process itself is a call outside the model. */
    method PrepareWorker(record: Record) returns (r: Result<Outcome, Failure>)
      requires Valid() && !journal.disk.main.Absent? && w.platform.Windows?
      requires record == past.Last().record && record.pending.Some? && record.pending.value.phase in {Ready, Replacing}
      requires ClassifyTarget(w, record.current, record.pending.value.release, files) == Some(Old)
      requires ClassifyBackup(w, record.current, files).Some?
      modifies this, journal
      ensures Valid() && old(stops) <= stops && disturbances >= old(disturbances)
      ensures forall g :: Continues(g, old(past)) ==> Continues(g, past)
      ensures r in {Ok(ReplacementPending), Err(Io)}
      ensures past.Last().record in {record, Phased(record, Replacing)}
      ensures r.Ok? ==> past.Last().record == Phased(record, Replacing) && ClassifyBackup(w, record.current, files) == Some(Old)
      ensures disturbances == old(disturbances) ==>
        r.Ok? && AgreeBeside(BackupPaths(record.current), files, old(files))
    {
      var staged := StageWorkerBackup(record);
      if !staged { return Err(Io); }
      Interfere();
      r := Conclude(Phased(record, Replacing), BeginReplace, ReplacementPending);
    }

    /** `abandon_missing_candidate`: give up an update whose candidate is gone. */
    method AbandonMissingCandidate(record: Record, backup: FileVersion) returns (r: Result<Outcome, Failure>)
      requires Valid() && !journal.disk.main.Absent? && w.platform.Windows?
      requires record == past.Last().record && record.pending.Some? && record.pending.value.phase in {Ready, Replacing}
      requires Classify(w, record.current, record.pending.value.release, files) == Some(FileState(Old, Missing, backup))
      modifies this, journal
      ensures Valid() && old(stops) <= stops && disturbances >= old(disturbances)
      ensures forall g :: Continues(g, old(past)) ==> Continues(g, past)
      ensures r in {Ok(RestoredPrevious), Ok(CleanupPending), Err(Io)}
      ensures r == Ok(RestoredPrevious) ==> past.Last().record == Cleared(record)
      ensures r == Ok(CleanupPending) ==> past.Last().record == record && BackupPath(record.current) in files
      ensures past.Last().record in {record, Cleared(record)}
      ensures disturbances == old(disturbances) ==>
        r == Ok(RestoredPrevious) && files == old(files) - {BackupPath(record.current)}
    {
      if backup == Old {
        var removed := RemoveFile(BackupPath(record.current), DropBackup);
        if removed == Denied { return Ok(CleanupPending); }
      }
      assert files == old(files) - {BackupPath(record.current)};
      r := Conclude(Cleared(record), ClearPending, RestoredPrevious);
    }

    /** The arms of `recover_or_schedule_windows_locked` for a missing stable file: move the backup back. */
    method RestoreStableFile(record: Record) returns (r: Result<Outcome, Failure>)
      requires Valid() && !journal.disk.main.Absent? && w.platform.Windows?
      requires record == past.Last().record && record.pending.Some? && record.pending.value.phase == Replacing
      requires Classify(w, record.current, record.pending.value.release, files)
               in {Some(FileState(Missing, New, Old)), Some(FileState(Missing, Missing, Old))}
      modifies this, journal
      ensures Valid() && old(stops) <= stops && disturbances >= old(disturbances)
      ensures forall g :: Continues(g, old(past)) ==> Continues(g, past)
      ensures Concludes(old(past.Last()), r)
      ensures disturbances == old(disturbances) ==> r.Ok? && r.value != CleanupPending && SameRoles(past.Last(), Recovered(w, old(past.Last())))
    {
      var backup, candidate := BackupPath(record.current), CandidatePath(record.pending.value.release);
      var prepare := candidate in files;
      var restored := RenameFile(backup, Target, RestoreTarget);
      if !restored { return Err(Io); }
      if prepare {
        r := PrepareWorker(record);
        if disturbances == old(disturbances) {
          RestoringAndPreparingRecovers(w, old(past.Last()), past.Last());
        }
      } else {
        r := Conclude(Cleared(record), ClearPending, RestoredPrevious);
        if disturbances == old(disturbances) {
          RestoringRecovers(w, old(past.Last()), past.Last());
        }
      }
    }

    /** The arms of `recover_or_schedule_windows_locked` for a stable file that has been replaced. */
    method ConcludeReplacement(record: Record) returns (r: Result<Outcome, Failure>)
      requires Valid() && !journal.disk.main.Absent? && w.platform.Windows?
      requires record == past.Last().record && record.pending.Some? && record.pending.value.phase == Replacing
      requires Classify(w, record.current, record.pending.value.release, files)
               in {Some(FileState(New, Missing, Old)), Some(FileState(New, Missing, Missing))}
      modifies this, journal
      ensures Valid() && old(stops) <= stops && disturbances >= old(disturbances)
      ensures forall g :: Continues(g, old(past)) ==> Continues(g, past)
      ensures Concludes(old(past.Last()), r)
      ensures disturbances == old(disturbances) ==> r.Ok? && r.value != CleanupPending && SameRoles(past.Last(), Recovered(w, old(past.Last())))
    {
      if BackupPath(record.current) in files {
        var cleaning := Phased(record, Cleanup);
        var saved := Save(cleaning, EnterCleanup);
        if !saved { return Err(Io); }
        r := FinishCleanup(cleaning);
        if disturbances == old(disturbances) {
          CleaningRecovers(w, old(past.Last()), past.Last());
        }
      } else {
        r := CommitReplaced(record);
      }
    }

    /** `recover_or_schedule_windows_locked`. */
    method RecoverOrSchedule(record: Record) returns (r: Result<Outcome, Failure>)
      requires Valid() && !journal.disk.main.Absent? && w.platform.Windows?
      requires record == past.Last().record && record.pending.Some? && record.pending.value.phase in {Ready, Replacing}
      modifies this, journal
      ensures Valid() && old(stops) <= stops && disturbances >= old(disturbances)
      ensures forall g :: Continues(g, old(past)) ==> Continues(g, past)
      ensures Concludes(old(past.Last()), r)
      ensures disturbances == old(disturbances) ==> r.Ok? && r.value != CleanupPending && SameRoles(past.Last(), Recovered(w, old(past.Last())))
    {
      var Pending(phase, next) := record.pending.value;
      var state := Classify(w, record.current, next, files);
      if state in {Some(FileState(Old, New, Missing)), Some(FileState(Old, New, Old))} {
        r := PrepareWorker(record);
        if disturbances == old(disturbances) {
          PreparingRecovers(w, old(past.Last()), past.Last());
        }
      } else if state in {Some(FileState(Old, Missing, Missing)), Some(FileState(Old, Missing, Old))} {
        r := AbandonMissingCandidate(record, state.value.backup);
        if disturbances == old(disturbances) {
          ClearingRecovers(w, old(past.Last()), past.Last());
        }
      } else if phase == Replacing && state in {Some(FileState(Missing, New, Old)), Some(FileState(Missing, Missing, Old))} {
        r := RestoreStableFile(record);
      } else if phase == Replacing && state in {Some(FileState(New, Missing, Old)), Some(FileState(New, Missing, Missing))} {
        r := ConcludeReplacement(record);
      } else {
        RecoveryIsTotal(w, past);
        r := Err(InvalidRecoveryState);
      }
    }

    /** The `Staged` arm of `recover_pending_with`: discard an update that was never approved. */
    method DiscardStaged(record: Record) returns (r: Result<Outcome, Failure>)
      requires Valid() && !journal.disk.main.Absent?
      requires record == past.Last().record && record.pending.Some? && record.pending.value.phase == Staged
      modifies this, journal
      ensures Valid() && old(stops) <= stops && disturbances >= old(disturbances)
      ensures forall g :: Continues(g, old(past)) ==> Continues(g, past)
      ensures Concludes(old(past.Last()), r)
      ensures disturbances == old(disturbances) ==> r.Ok? && r.value != CleanupPending && SameRoles(past.Last(), Recovered(w, old(past.Last())))
    {
      var candidate := CandidatePath(record.pending.value.release);
      var state := Classify(w, record.current, record.pending.value.release, files);
      if state == Some(STAGED) {
        Interfere();
        var removed := RemoveFile(candidate, DropCandidate(candidate.key));
        if removed != Removed { return Err(Io); }
      } else if state != Some(FileState(Old, Missing, Missing)) {
        RecoveryIsTotal(w, past);
        return Err(InvalidRecoveryState);
      }
      assert files == old(files) - {candidate} || disturbances > old(disturbances);
      r := ClearStaged(record);
      if disturbances == old(disturbances) {
        DiscardingRecovers(w, old(past.Last()), past.Last());
      }
    }

    /** Forget an update that was never approved and whose candidate is gone. */
    method ClearStaged(record: Record) returns (r: Result<Outcome, Failure>)
      requires Valid() && !journal.disk.main.Absent?
      requires record == past.Last().record && record.pending.Some? && record.pending.value.phase == Staged
      requires CandidatePath(record.pending.value.release) !in files
      modifies this, journal
      ensures Valid() && old(stops) <= stops && disturbances >= old(disturbances) && files == old(files)
      ensures forall g :: Continues(g, old(past)) ==> Continues(g, past)
      ensures r in {Ok(DiscardedStaged), Err(Io)} && past.Last().record in {record, Cleared(record)}
      ensures r.Ok? ==> past.Last().record == Cleared(record)
      ensures disturbances == old(disturbances) ==> r.Ok?
    {
      RecoveryIsTotal(w, past);
      r := Conclude(Cleared(record), ClearPending, DiscardedStaged);
    }

    /** A start-up recovery meets an update that another process has staged and not approved yet. */
    static ghost predicate LeavesStaged(d: Disk, discardStaged: bool, lockHeld: bool) {
      && d.record.pending.Some? && d.record.pending.value.phase == Staged
      && CandidatePath(d.record.pending.value.release) in d.files
      && lockHeld && !discardStaged
    }

    /** `recover_pending_with`: finish or undo an interrupted update. `lockHeld` says whether another process holds
        the update lock, in which case a start-up recovery leaves a staged update to that process. */
    method RecoverPending(discardStaged: bool, lockHeld: bool) returns (r: Result<Outcome, Failure>)
      requires Valid()
      modifies this, journal
      ensures Valid() && old(stops) <= stops && disturbances >= old(disturbances)
      ensures forall g :: Continues(g, old(past)) ==> Continues(g, past)
      ensures r != Err(InvalidRecoveryState)
      ensures old(past.Last().record.pending).None? ==> r in {Ok(NoUpdate), Err(Io)} && past == old(past)
      ensures r == Ok(StagedUpdate) ==> past == old(past) && LeavesStaged(past.Last(), discardStaged, lockHeld)
      ensures old(past.Last().record.pending).Some? && r != Ok(StagedUpdate) ==> Concludes(old(past.Last()), r)
      ensures disturbances == old(disturbances) ==>
        && r.Ok? && r.value != CleanupPending
        && (r.value == StagedUpdate <==> LeavesStaged(old(past.Last()), discardStaged, lockHeld))
        && (r.value == StagedUpdate || SameRoles(past.Last(), Recovered(w, old(past.Last()))))
    {
      var loaded := Load();
      if loaded.None? { return Err(Io); }
      var record := loaded.value;
      if record.pending.None? { return Ok(NoUpdate); }
      var Pending(phase, next) := record.pending.value;
      RecoveryIsTotal(w, past);
      match phase {
        case Staged =>
          if !discardStaged && lockHeld && Classify(w, record.current, next, files) == Some(STAGED) {
            return Ok(StagedUpdate);
          }
          r := DiscardStaged(record);
        case Cleanup => r := FinishCleanup(record);
        case _ =>
          if w.platform.Unix? {
            r := ApplyOrRecover(record);
          } else {
            r := RecoverOrSchedule(record);
          }
      }
    }

    /** `apply_pending`: install the approved update. */
    method ApplyPending() returns (r: Result<Outcome, Failure>)
      requires Valid()
      modifies this, journal
      ensures Valid() && old(stops) <= stops && disturbances >= old(disturbances)
      ensures forall g :: Continues(g, old(past)) ==> Continues(g, past)
      ensures r != Err(InvalidRecoveryState)
      ensures match old(past.Last().record.pending)
              case None => r in {Ok(NoUpdate), Err(Io)} && past == old(past)
              case Some(Pending(phase, _)) =>
                if phase == Staged then r in {Err(NotApproved), Err(Io)} && past == old(past)
                else Concludes(old(past.Last()), r)
                     && (disturbances == old(disturbances) ==>
                          r.Ok? && r.value != CleanupPending && SameRoles(past.Last(), Recovered(w, old(past.Last()))))
    {
      var loaded := Load();
      if loaded.None? { return Err(Io); }
      var record := loaded.value;
      if record.pending.None? { return Ok(NoUpdate); }
      match record.pending.value.phase {
        case Staged => r := Err(NotApproved);
        case Cleanup => r := FinishCleanup(record);
        case _ =>
          if w.platform.Unix? {
            r := ApplyOrRecover(record);
          } else {
            r := RecoverOrSchedule(record);
          }
      }
    }

    // -------------------------------------------------------------------
    // The Windows worker
    // -------------------------------------------------------------------

    /** The arm of `run_windows_worker_once` that installs the candidate. */
    method InstallFromWorker(record: Record) returns (r: Result<Attempt, Failure>)
      requires Valid() && !journal.disk.main.Absent? && w.platform.Windows?
      requires record == past.Last().record && record.pending.Some? && record.pending.value.phase == Replacing
      requires Classify(w, record.current, record.pending.value.release, files) == Some(FileState(Old, New, Old))
      modifies this, journal
      ensures Valid() && old(stops) <= stops && disturbances >= old(disturbances)
      ensures forall g :: Continues(g, old(past)) ==> Continues(g, past)
      ensures r in {Ok(Complete), Ok(Retry), Err(Io)}
      ensures r == Ok(Complete) ==>
        && past.Last().record == Phased(record, Cleanup)
        && Target in files && files[Target] == Whole(record.pending.value.release.digest)
      ensures r == Ok(Retry) ==> past.Last().record == record
      ensures Target in files && (r == Ok(Retry) <==> files[Target] == old(files)[Target])
      ensures disturbances == old(disturbances) ==>
        && r == Ok(Complete) && past.Last().record == Phased(record, Cleanup)
        && files == Moved(old(files), CandidatePath(record.pending.value.release), Target)
    {
      RunsAreSafe(w, past);
      var next := record.pending.value.release;
      Interfere();
      var installed := RenameFile(CandidatePath(next), Target, Install);
      if !installed { return Ok(Retry); }
      r := RecordInstalled(record);
    }

    /** The target is looked at once more before the journal says that it is the new release. */
    method RecordInstalled(record: Record) returns (r: Result<Attempt, Failure>)
      requires Valid() && !journal.disk.main.Absent? && w.platform.Windows?
      requires record == past.Last().record && record.pending.Some? && record.pending.value.phase == Replacing
      requires ClassifyCandidate(w, record.pending.value.release, files) == Some(Missing) && ClassifyBackup(w, record.current, files) == Some(Old)
      modifies this, journal
      ensures Valid() && old(stops) <= stops && disturbances >= old(disturbances) && files == old(files)
      ensures forall g :: Continues(g, old(past)) ==> Continues(g, past)
      ensures r in {Ok(Complete), Err(Io), Err(Unverified)}
      ensures r == Err(Unverified) <==> ClassifyTarget(w, record.current, record.pending.value.release, files) != Some(New)
      ensures r == Ok(Complete) ==> past.Last().record == Phased(record, Cleanup)
      ensures r == Err(Unverified) ==> past == old(past)
      ensures r == Err(Io) ==> disturbances > old(disturbances)
    {
      if ClassifyTarget(w, record.current, record.pending.value.release, files) != Some(New) { return Err(Unverified); }
      var saved := Save(Phased(record, Cleanup), EnterCleanup);
      r := if saved then Ok(Complete) else Err(Io);
    }

    /** The worker meets the arm that installs the candidate. */
    static ghost predicate WorkerInstalls(w: World, self: FilePath, d: Disk) {
      && d.record.pending.Some? && d.record.pending.value.phase == Replacing
      && self == BackupPath(d.record.current) && StateOf(w, d) == Some(FileState(Old, New, Old))
    }

    /** `run_windows_worker_once`: replace the stable executable, from the process that runs the backup. `self` is
        the file that the process runs. The rename fails while the executable is in use; that is a retry. */
    method WorkerAttempt(self: FilePath) returns (r: Result<Attempt, Failure>)
      requires Valid() && w.platform.Windows?
      modifies this, journal
      ensures Valid() && old(stops) <= stops && disturbances >= old(disturbances)
      ensures forall g :: Continues(g, old(past)) ==> Continues(g, past)
      ensures r == Ok(Complete) && old(past.Last().record.pending).Some? ==>
        past.Last().record == Phased(old(past.Last().record), Cleanup)
        && Target in files && files[Target] == Whole(past.Last().record.pending.value.release.digest)
      ensures r in {Ok(Retry), Err(NotTheWorker), Err(InvalidRecoveryState)} ==> past.Last().record == old(past.Last().record)
      ensures r == Ok(Retry) ==> WorkerInstalls(w, self, old(past.Last()))
      ensures WorkerInstalls(w, self, old(past.Last())) ==>
        && Target in files
        && (r == Ok(Retry) || (r == Err(Io) && past == old(past)) || files[Target] != old(files)[Target])
      ensures disturbances == old(disturbances) ==>
        && r != Ok(Retry) && (r == Ok(Complete) <==> WorkerFinishes(w, self, old(past.Last())))
        && SameRoles(past.Last(), if r.Ok? then Worked(w, old(past.Last())) else old(past.Last()))
    {
      var loaded := Load();
      if loaded.None? { return Err(Io); }
      var record := loaded.value;
      if record.pending.None? { return Ok(Complete); }
      var Pending(phase, next) := record.pending.value;
      if self != BackupPath(record.current) || self !in files { return Err(NotTheWorker); }
      var state := Classify(w, record.current, next, files);
      if phase == Replacing && state == Some(FileState(Old, New, Old)) {
        r := InstallFromWorker(record);
        if disturbances == old(disturbances) {
          InstallingWorks(w, old(past.Last()), past.Last());
        }
      } else if phase in {Replacing, Cleanup} && state == Some(FileState(New, Missing, Old)) {
        r := EnterWorkerCleanup(record);
      } else {
        r := Err(InvalidRecoveryState);
      }
    }

    /** The arm of `run_windows_worker_once` that finds the candidate installed. */
    method EnterWorkerCleanup(record: Record) returns (r: Result<Attempt, Failure>)
      requires Valid() && !journal.disk.main.Absent? && w.platform.Windows?
      requires record == past.Last().record && record.pending.Some? && record.pending.value.phase in {Replacing, Cleanup}
      requires Classify(w, record.current, record.pending.value.release, files) == Some(FileState(New, Missing, Old))
      modifies this, journal
      ensures Valid() && old(stops) <= stops && disturbances >= old(disturbances)
      ensures forall g :: Continues(g, old(past)) ==> Continues(g, past)
      ensures files == old(files) && r in {Ok(Complete), Err(Io)}
      ensures r == Ok(Complete) ==> past.Last().record == Phased(record, Cleanup)
      ensures disturbances == old(disturbances) ==> r == Ok(Complete) && SameRoles(past.Last(), Worked(w, old(past.Last())))
    {
      var saved := Save(Phased(record, Cleanup), EnterCleanup);
      r := if saved then Ok(Complete) else Err(Io);
      if disturbances == old(disturbances) {
        CleaningWorks(w, old(past.Last()), past.Last());
      }
    }

    /** Other processes may do anything while the lock is free: stage, approve, recover, apply, or run a worker of their own. */
    method OthersAct()
      requires Valid()
      modifies this, journal
      ensures Valid() && old(stops) <= stops && disturbances >= old(disturbances)
      ensures forall g :: Continues(g, old(past)) ==> Continues(g, past)
    {
      var n: nat := *;
      while n > 0
        invariant Valid() && old(stops) <= stops && disturbances >= old(disturbances)
        invariant forall g :: Continues(g, old(past)) ==> Continues(g, past)
      {
        OtherActs();
        n := n - 1;
      }
    }

    /** One operation of another process. */
    method OtherActs()
      requires Valid()
      modifies this, journal
      ensures Valid() && old(stops) <= stops && disturbances >= old(disturbances)
      ensures forall g :: Continues(g, old(past)) ==> Continues(g, past)
    {
      var action: nat := *;
      if action == 0 {
        var source: Option<Content>, version: string, build: nat := *, *, *;
        var _, _ := StageCandidate(source, version, build);
      } else if action == 1 {
        var _ := MarkPendingReady();
      } else if action == 2 {
        var discard: bool, held: bool := *, *;
        var _ := RecoverPending(discard, held);
      } else if action == 3 || w.platform.Unix? {
        var _ := ApplyPending();
      } else {
        var other: FilePath := *;
        var _ := WorkerAttempt(other);
      }
    }

    /** `run_windows_worker`: try again until the deadline, here a number of times. Between two attempts the lock is free.
        `last` is the history when the last attempt took it, and `before` the disturbances until then; the result is that of
        this attempt. Undisturbed, there is only one; giving up takes a failure in each. */
    method RunWorker(self: FilePath, retries: nat) returns (r: Result<Attempt, Failure>, ghost last: History, ghost before: nat)
      requires Valid() && w.platform.Windows?
      modifies this, journal
      ensures Valid() && old(stops) <= stops && old(disturbances) <= before <= disturbances
      ensures Continues(old(past), last) && Continues(last, past)
      ensures r == Ok(Complete) && last.Last().record.pending.Some? ==>
        past.Last().record == Phased(last.Last().record, Cleanup)
        && Target in files && files[Target] == Whole(past.Last().record.pending.value.release.digest)
      ensures r in {Ok(Retry), Err(NotTheWorker), Err(InvalidRecoveryState)} ==> past.Last().record == last.Last().record
      ensures disturbances == before ==>
        && r != Ok(Retry) && (r == Ok(Complete) <==> WorkerFinishes(w, self, last.Last()))
        && SameRoles(past.Last(), if r.Ok? then Worked(w, last.Last()) else last.Last())
      ensures disturbances == old(disturbances) ==> last == old(past)
      ensures r == Ok(Retry) ==> disturbances > old(disturbances) + retries
      ensures WorkerInstalls(w, self, last.Last()) ==>
        && Target in files
        && (r == Ok(Retry) || (r == Err(Io) && past == last) || files[Target] != last.Last().files[Target])
    {
      last, before := past, disturbances;
      r := WorkerAttempt(self);
      var left := retries;
      while left > 0 && r == Ok(Retry)
        invariant Valid() && old(stops) <= stops && old(disturbances) <= before <= disturbances
        invariant Continues(old(past), last) && Continues(last, past) && Continues(old(past), past)
        invariant r == Ok(Complete) && last.Last().record.pending.Some? ==>
          past.Last().record == Phased(last.Last().record, Cleanup)
          && Target in files && files[Target] == Whole(past.Last().record.pending.value.release.digest)
        invariant r in {Ok(Retry), Err(NotTheWorker), Err(InvalidRecoveryState)} ==> past.Last().record == last.Last().record
        invariant disturbances == before ==>
          && r != Ok(Retry) && (r == Ok(Complete) <==> WorkerFinishes(w, self, last.Last()))
          && SameRoles(past.Last(), if r.Ok? then Worked(w, last.Last()) else last.Last())
        invariant disturbances == old(disturbances) ==> last == old(past)
        invariant r == Ok(Retry) ==> left <= retries && disturbances > old(disturbances) + retries - left
        invariant WorkerInstalls(w, self, last.Last()) ==>
          && Target in files
          && (r == Ok(Retry) || (r == Err(Io) && past == last) || files[Target] != last.Last().files[Target])
        decreases left
      {
        r, last, before := TryAgain(self);
        left := left - 1;
      }
    }

    /** One more attempt, after the lock has been free. */
    method TryAgain(self: FilePath) returns (r: Result<Attempt, Failure>, ghost last: History, ghost before: nat)
      requires Valid() && w.platform.Windows?
      modifies this, journal
      ensures Valid() && old(stops) <= stops && old(disturbances) <= before <= disturbances
      ensures (forall g :: Continues(g, old(past)) ==> Continues(g, last) && Continues(g, past)) && Continues(last, past)
      ensures r == Ok(Complete) && last.Last().record.pending.Some? ==>
        past.Last().record == Phased(last.Last().record, Cleanup)
        && Target in files && files[Target] == Whole(past.Last().record.pending.value.release.digest)
      ensures r in {Ok(Retry), Err(NotTheWorker), Err(InvalidRecoveryState)} ==> past.Last().record == last.Last().record
      ensures disturbances == before ==>
        && r != Ok(Retry) && (r == Ok(Complete) <==> WorkerFinishes(w, self, last.Last()))
        && SameRoles(past.Last(), if r.Ok? then Worked(w, last.Last()) else last.Last())
      ensures r == Ok(Retry) ==> disturbances > before
      ensures WorkerInstalls(w, self, last.Last()) ==>
        && Target in files
        && (r == Ok(Retry) || (r == Err(Io) && past == last) || files[Target] != last.Last().files[Target])
    {
      OthersAct();
      last, before := past, disturbances;
      r := WorkerAttempt(self);
    }
  }
}
