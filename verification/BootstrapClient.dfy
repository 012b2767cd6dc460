/** The processes that bootstrap, find and remove one prefix (`src/commands.rs`, `src/bootstrap_state.rs`,
    `src/fleet.rs`). Every change that they make on disk is shown to be a step of `BootstrapProtocol`. */
module BootstrapClient {
  import opened Wrappers
  import opened BootstrapProtocol
  import Journal = MetadataJournal

  /** Nothing is different but which of the files hold the marker and the metadata. */
  predicate SameInstallation(d: Prefix, e: Prefix) {
    && e.packages == d.packages && e.dirty == d.dirty
    && Journal.Committed(e.meta) == Journal.Committed(d.meta)
    && e.marker in {d.marker, Journal.Absent} && e.markerTmp in {d.markerTmp, Journal.Absent}
  }

  datatype Entry = Marker(file: MarkerFile) | Metadata(path: Journal.Path) | Packages

  /** A prefix that `id` has finished bootstrapping and whose marker is gone. */
  predicate Complete(id: string, d: Prefix) {
    d.marker.Absent? && d.markerTmp.Absent? && d.meta.main == Journal.Holds(id) && !d.dirty
  }

  /** Whether the prefix is the runtime's own, or nobody's. */
  predicate Owns(id: string, d: Prefix) {
    match ReadMarker(d)
    case Unreadable => false
    case Marked(owner) => owner == id
    case NoMarker => IsEmptyDir(d) || Journal.Committed(d.meta) == Some(id)
  }

  /** One prefix, as the processes of the runtime `id` see it. Every file system call can fail, which `faults`
      counts, and a process can be killed after any step of `past`. */
  class ManagedPrefix {
    const id: string
    /** Whether the runtime carries a lockfile to install. */
    const stamped: bool
    const journal: Journal.MetadataStore<string>
    var marker: Slot
    var markerTmp: Slot
    var packages: bool
    ghost var past: History
    ghost var faults: nat

    ghost predicate Valid()
      reads this, journal
    {
      && journal.Valid()
      && past.Last().disk == Prefix(marker, markerTmp, journal.disk, packages, past.Last().disk.dirty)
      && Legal(past) && Undisturbed(past)
    }

    /** Continue from wherever earlier processes stopped. */
    constructor (runtime: string, hasLock: bool, h: History)
      requires Legal(h) && Undisturbed(h)
      ensures Valid() && id == runtime && stamped == hasLock && past == h && fresh(journal) && faults == 0
    {
      id := runtime;
      stamped := hasLock;
      marker := h.Last().disk.marker;
      markerTmp := h.Last().disk.markerTmp;
      packages := h.Last().disk.packages;
      journal := new Journal.MetadataStore<string>(h.Last().disk.meta);
      past := h;
      faults := 0;
    }

    // -------------------------------------------------------------------
    // One disk access each
    // -------------------------------------------------------------------

    /** The outcome of a call that the operating system can refuse. */
    method Attempt() returns (ok: bool)
      modifies `faults
      ensures faults == old(faults) + if ok then 0 else 1
    {
      ok := *;
      if !ok {
        faults := faults + 1;
      }
    }

    /** `BootstrapLock::acquire`, once the lock is free. */
    method Lock(pid: Pid)
      requires Valid() && past.Last().holder == None
      modifies `past
      ensures Valid() && past == After(old(past), Acquire(pid), old(past.Last()).(holder := Some(pid), stage := Inside))
      ensures Continues(old(past), past)
    {
      past := After(past, Acquire(pid), past.Last().(holder := Some(pid), stage := Inside));
    }

    method Unlock()
      requires Valid() && past.Last().holder.Some?
      modifies `past
      ensures Valid() && past == After(old(past), Leave, old(past.Last()).(holder := None, stage := Outside))
      ensures forall g :: Rebuilt(g, old(past)) ==> Rebuilt(g, past)
    {
      past := After(past, Leave, past.Last().(holder := None, stage := Outside));
    }

    /** Remove one of the two marker files if it is there. */
    method RemoveIfPresent(file: MarkerFile, ghost dest: Stage) returns (ok: bool)
      requires Valid() && Unmarks(past.Last(), file, dest)
      modifies this
      ensures Valid()
      ensures past.Last() == if ok then old(past.Last()).(stage := dest, disk := Without(old(past.Last()).disk, file))
                             else old(past.Last())
      ensures faults == old(faults) + if ok then 0 else 1
      ensures forall g :: Continues(g, old(past)) ==> Continues(g, past)
    {
      ok := Attempt();
      if ok {
        if file.Final? {
          marker := Journal.Absent;
        } else {
          markerTmp := Journal.Absent;
        }
        past := After(past, Unmark(file, dest), past.Last().(stage := dest, disk := Without(past.Last().disk, file)));
      }
    }

    /** Write the temporary marker file; a failure or a crash can leave it cut off. */
    method WriteTemporary() returns (ok: bool)
      requires Valid() && past.Last().stage == TmpCleared
      modifies this
      ensures Valid() && (ok ==> past.Last().stage == TmpWritten)
      ensures past.Last() == old(past.Last()).(stage := past.Last().stage, disk := old(past.Last().disk).(markerTmp := markerTmp))
      ensures if ok then markerTmp == Journal.Holds(id) else markerTmp in {old(markerTmp), Journal.Torn}
      ensures faults == old(faults) + if ok then 0 else 1
      ensures forall g :: Continues(g, old(past)) ==> Continues(g, past)
    {
      ok := Attempt();
      if !ok { return; }
      markerTmp := Journal.Torn;
      past := After(past, TearMarkerTmp, past.Last().(stage := TmpTorn, disk := past.Last().disk.(markerTmp := Journal.Torn)));
      ok := Attempt();
      if !ok { return; }
      markerTmp := Journal.Holds(id);
      past := After(past, WriteMarkerTmp(id), past.Last().(stage := TmpWritten, disk := past.Last().disk.(markerTmp := markerTmp)));
    }

    /** Rename the temporary marker file over the marker. */
    method RenameTemporary() returns (ok: bool)
      requires Valid() && past.Last().stage == MarkerCleared
      modifies this
      ensures Valid()
      ensures past.Last() == if ok then old(past.Last()).(stage := MarkerSet,
                               disk := old(past.Last().disk).(marker := old(markerTmp), markerTmp := Journal.Absent))
                             else old(past.Last())
      ensures faults == old(faults) + if ok then 0 else 1
      ensures forall g :: Continues(g, old(past)) ==> Continues(g, past)
    {
      ok := Attempt();
      if ok {
        marker, markerTmp := markerTmp, Journal.Absent;
        past := After(past, RenameMarker,
                      past.Last().(stage := MarkerSet, disk := past.Last().disk.(marker := marker, markerTmp := markerTmp)));
      }
    }

    // -------------------------------------------------------------------
    // Marker and metadata
    // -------------------------------------------------------------------

    /** `bootstrap_state::write_installing_for`. */
    method WriteInstalling() returns (ok: bool)
      requires Valid() && past.Last().stage == Inside
      modifies this
      ensures Valid() && past.Last().holder == old(past.Last().holder)
      ensures ok ==> past.Last() == old(past.Last()).(stage := MarkerSet,
                       disk := old(past.Last().disk).(marker := Journal.Holds(id), markerTmp := Journal.Absent))
      ensures MarkerImage(old(past.Last().disk), id, past.Last().disk)
      ensures faults == old(faults) + if ok then 0 else 1
      ensures forall g :: Continues(g, old(past)) ==> Continues(g, past)
    {
      ok := RemoveIfPresent(Temporary, TmpCleared);
      if !ok { return; }
      ok := WriteTemporary();
      if !ok { return; }
      ok := RemoveIfPresent(Final, MarkerCleared);
      if !ok { return; }
      ok := RenameTemporary();
    }

    /** Remove one metadata file if it is there. */
    method RemoveMetaFile(path: Journal.Path, ghost dest: Stage) returns (ok: bool)
      requires Valid()
      requires Takes(RemoveMeta(path), past.Last(), past.Last().(stage := dest,
                 disk := past.Last().disk.(meta := Journal.With(journal.disk, path, Journal.Absent))))
      modifies this, journal
      ensures Valid()
      ensures past.Last() == if ok then old(past.Last()).(stage := dest,
                               disk := old(past.Last().disk).(meta := Journal.With(old(journal.disk), path, Journal.Absent)))
                             else old(past.Last())
      ensures faults == old(faults) + if ok then 0 else 1
      ensures forall g :: Continues(g, old(past)) ==> Continues(g, past)
    {
      ok := journal.Remove(path);
      if ok {
        past := After(past, RemoveMeta(path),
                      past.Last().(stage := dest, disk := past.Last().disk.(meta := journal.disk)));
      } else {
        faults := faults + 1;
      }
    }

    /** `config::invalidate_metadata_for`. */
    method InvalidateMetadata() returns (ok: bool)
      requires Valid() && past.Last().stage == MarkerSet
      modifies this, journal
      ensures Valid() && past.Last().holder == old(past.Last().holder)
      ensures ok ==> past.Last() == old(past.Last()).(stage := MetaCleared, disk := old(past.Last().disk).(meta := NO_META))
      ensures faults == old(faults) + if ok then 0 else 1
      ensures forall g :: Continues(g, old(past)) ==> Continues(g, past)
    {
      ok := RemoveMetaFile(Journal.Main, MainCleared);
      if !ok { return; }
      ok := RemoveMetaFile(Journal.Tmp, TmpMetaCleared);
      if !ok { return; }
      ok := RemoveMetaFile(Journal.Bak, MetaCleared);
    }

    /** Install the packages of the lockfile. It can stop with any part of them changed. */
    method InstallPackages() returns (ok: bool)
      requires Valid() && past.Last().stage == MetaCleared
      modifies this
      ensures Valid()
      ensures past.Last() == old(past.Last()).(stage := Installing, disk := old(past.Last().disk).(packages := packages, dirty := true))
      ensures ok ==> packages && forall g :: Continues(g, old(past)) ==> Installed(g, past)
      ensures faults == old(faults) + if ok then 0 else 1
      ensures forall g :: Continues(g, old(past)) ==> Continues(g, past)
    {
      packages := *;
      past := After(past, Install(packages),
                    past.Last().(stage := Installing, disk := past.Last().disk.(packages := packages, dirty := true)));
      ok := Attempt();
      if ok {
        packages := true;
        past := After(past, Install(true), past.Last().(disk := past.Last().disk.(packages := true)));
      }
    }

    /** Record the runtime with `config::persist_metadata_for`. */
    method RecordRuntime() returns (ok: bool)
      requires Valid() && past.Last().stage == Validated
      modifies this, journal
      ensures Valid() && forall g :: Continues(g, old(past)) ==> Continues(g, past)
      ensures past.Last() == old(past.Last()).(disk := old(past.Last().disk).(meta := journal.disk))
      ensures ok ==> journal.disk == Journal.Files(Journal.Holds(id), Journal.Absent, Journal.Absent)
      ensures faults == old(faults) + if ok then 0 else 1
      ensures forall i :: |old(journal.trail)| <= i < |journal.trail| ==>
        Journal.PersistImage(old(journal.disk), id, journal.trail[i])
    {
      ok := journal.Persist(id);
      past := After(past, RecordMeta(id, journal.disk), past.Last().(disk := past.Last().disk.(meta := journal.disk)));
      if !ok {
        faults := faults + 1;
      }
    }

    /** `exec::validate_delegate`, at the end of an installation. */
    method CheckDelegate() returns (ok: bool)
      requires Valid() && past.Last().stage == Installing
      modifies this
      ensures Valid() && packages == old(packages)
      ensures past.Last() == if ok then old(past.Last()).(stage := Validated, disk := old(past.Last().disk).(dirty := false))
                             else old(past.Last())
      ensures ok ==> forall g :: Installed(g, old(past)) ==> Rebuilt(g, past)
      ensures faults == old(faults) + if ok then 0 else 1
      ensures forall g :: Continues(g, old(past)) ==> Continues(g, past)
    {
      ok := Attempt();
      if ok {
        past := After(past, Validate, past.Last().(stage := Validated, disk := past.Last().disk.(dirty := false)));
      }
    }

    /** Check the delegate, record the runtime, and take the marker away. */
    method FinishBootstrap() returns (ok: bool)
      requires Valid() && past.Last().stage == Installing
      modifies this, journal
      ensures Valid() && past.Last().holder == old(past.Last().holder)
      ensures ok ==> past.Last().stage == Inside && Complete(id, past.Last().disk) && packages == old(packages)
      ensures ok ==> forall g :: Installed(g, old(past)) ==> Rebuilt(g, past)
      ensures faults == old(faults) + if ok then 0 else 1
      ensures forall g :: Continues(g, old(past)) ==> Continues(g, past)
    {
      ok := CheckDelegate();
      if !ok { return; }
      ghost var checked := past;
      ok := RecordRuntime();
      if !ok { return; }
      ok := RemoveIfPresent(Final, MarkerDropped);
      if !ok { return; }
      ok := RemoveIfPresent(Temporary, Inside);
      forall g | Rebuilt(g, checked) ensures Rebuilt(g, past) {
        RebuiltStays(g, checked, past);
      }
    }

    /** `config::read_metadata_for`, under the lock. */
    method ReadMetadata() returns (r: Option<string>)
      requires Valid() && past.Last().stage == Inside
      modifies this, journal
      ensures Valid() && past.Last().(disk := old(past.Last().disk)) == old(past.Last())
      ensures past.Last().disk == old(past.Last().disk).(meta := journal.disk)
      ensures Journal.Committed(journal.disk) == Journal.Committed(old(journal.disk))
      ensures !old(journal.disk).main.Absent? ==> journal.disk == old(journal.disk)
      ensures r.Some? ==> Journal.Committed(old(journal.disk)) == r && journal.disk.main == Journal.Holds(r.value)
      ensures faults >= old(faults) && (r.None? ==> Journal.Committed(old(journal.disk)) == None || faults > old(faults))
      ensures forall g :: Continues(g, old(past)) ==> Continues(g, past)
    {
      r := journal.Read();
      if r.None? && Journal.Committed(journal.disk).Some? {
        faults := faults + 1;
      }
      if Journal.Committed(journal.disk).Some? {
        past := After(past, RestoreMeta(journal.disk), past.Last().(disk := past.Last().disk.(meta := journal.disk)));
      }
    }

    // -------------------------------------------------------------------
    // Bootstrap
    // -------------------------------------------------------------------

    /** `prefix_disposition_for`. A marker that is left beside ready metadata is taken away. */
    method Dispose(requireHealthy: bool, healthy: bool) returns (r: Disposition)
      requires Valid() && past.Last().stage == Inside
      modifies this, journal
      ensures Valid() && past.Last().holder == old(past.Last().holder)
      ensures faults >= old(faults)
      ensures faults == old(faults) ==> r == Disposes(id, old(past.Last().disk), requireHealthy, healthy)
      ensures SameInstallation(old(past.Last().disk), past.Last().disk)
      ensures r == Bootstrap(true) ==> ReadMarker(old(past.Last().disk)) == Marked(id)
      ensures r == Bootstrap(false) ==> IsEmptyDir(old(past.Last().disk))
      ensures r.Bootstrap? ==> past.Last() == old(past.Last())
      ensures r == Ready ==> past.Last().stage == Inside && Complete(id, past.Last().disk)
      ensures r == Ready ==> Disposes(id, old(past.Last().disk), requireHealthy, healthy) == Ready
      ensures forall g :: Continues(g, old(past)) ==> Continues(g, past)
    {
      RunsAreSafe(past);
      var d := Prefix(marker, markerTmp, journal.disk, packages, false);
      var state := ReadMarker(d);
      if state.Unreadable? { return Refused; }
      if state.NoMarker? {
        if IsEmptyDir(d) { return Bootstrap(false); }
        var found := ReadMetadata();
        return if found == Some(id) && (!requireHealthy || healthy) then Ready else Refused;
      }
      if state.owner != id { return Refused; }
      if d.meta.main.Absent? { return Bootstrap(true); }
      var found := ReadMetadata();
      if found.Some? && found.value != id { return Refused; }
      if found.None? || (requireHealthy && !healthy) { return Bootstrap(true); }
      var ok := RemoveIfPresent(Final, Inside);
      if ok {
        ok := RemoveIfPresent(Temporary, Inside);
      }
      r := if ok then Ready else Refused;
    }

    /** From the marker to its removal: what `bootstrap` and `Fleet::install` do alike. */
    method Rebuild() returns (ok: bool)
      requires Valid() && past.Last().stage == Inside
      modifies this, journal
      ensures Valid() && past.Last().holder == old(past.Last().holder)
      ensures ok ==> past.Last().stage == Inside && Complete(id, past.Last().disk) && packages
      ensures ok ==> forall g :: Continues(g, old(past)) ==> Rebuilt(g, past)
      ensures faults >= old(faults) && (!ok ==> faults > old(faults))
      ensures forall g :: Continues(g, old(past)) ==> Continues(g, past)
    {
      ok := WriteInstalling();
      if !ok { return; }
      ok := InvalidateMetadata();
      if !ok { return; }
      ok := InstallPackages();
      if !ok { return; }
      ok := FinishBootstrap();
    }

    /** `ensure_bootstrapped`, by the process `pid` once the lock is free. */
    method EnsureBootstrapped(pid: Pid, healthy: bool) returns (ok: bool)
      requires Valid() && past.Last().holder == None && past.Last().stage == Outside
      modifies this, journal
      ensures Valid() && past.Last().holder == None && past.Last().stage == Outside
      ensures ok ==> Complete(id, past.Last().disk)
      ensures ok && Disposes(id, old(past.Last().disk), true, healthy) != Ready ==> Rebuilt(old(past), past) && packages
      ensures faults == old(faults) ==>
        (ok <==> var r := Disposes(id, old(past.Last().disk), true, healthy);
                 r != Refused && (r.Bootstrap? ==> stamped))
      ensures faults == old(faults) && !Disposes(id, old(past.Last().disk), true, healthy).Bootstrap? ==>
        SameInstallation(old(past.Last().disk), past.Last().disk)
      ensures forall g :: Continues(g, old(past)) ==> Continues(g, past)
    {
      Lock(pid);
      ok := BootstrapLocked(healthy);
      Unlock();
    }

    /** The same, for the holder of the lock. */
    method BootstrapLocked(healthy: bool) returns (ok: bool)
      requires Valid() && past.Last().holder.Some? && past.Last().stage == Inside
      modifies this, journal
      ensures Valid() && past.Last().holder == old(past.Last().holder) && faults >= old(faults)
      ensures ok ==> Complete(id, past.Last().disk)
      ensures ok && Disposes(id, old(past.Last().disk), true, healthy) != Ready ==>
        packages && forall g :: Continues(g, old(past)) ==> Rebuilt(g, past)
      ensures faults == old(faults) ==>
        (ok <==> var r := Disposes(id, old(past.Last().disk), true, healthy);
                 r != Refused && (r.Bootstrap? ==> stamped))
      ensures faults == old(faults) && !Disposes(id, old(past.Last().disk), true, healthy).Bootstrap? ==>
        SameInstallation(old(past.Last().disk), past.Last().disk)
      ensures forall g :: Continues(g, old(past)) ==> Continues(g, past)
    {
      var r := Dispose(true, healthy);
      ok := r == Ready;
      if r.Bootstrap? && (r.reinstall || IsEmptyDir(Prefix(marker, markerTmp, journal.disk, packages, false))) && stamped {
        ok := Rebuild();
      }
    }

    // -------------------------------------------------------------------
    // Fleet
    // -------------------------------------------------------------------

    /** `Fleet::install`: a forced installation rebuilds a prefix that is ready. */
    method FleetInstall(pid: Pid, force: bool, healthy: bool) returns (ok: bool)
      requires Valid() && past.Last().holder == None && past.Last().stage == Outside
      modifies this, journal
      ensures Valid() && past.Last().holder == None && past.Last().stage == Outside
      ensures ok ==> Complete(id, past.Last().disk)
      ensures ok && (force || Disposes(id, old(past.Last().disk), true, healthy) != Ready) ==> Rebuilt(old(past), past) && packages
      ensures faults == old(faults) ==> (ok <==> Disposes(id, old(past.Last().disk), !force, healthy) != Refused)
      ensures faults == old(faults) && !force && !Disposes(id, old(past.Last().disk), true, healthy).Bootstrap? ==>
        SameInstallation(old(past.Last().disk), past.Last().disk)
      ensures forall g :: Continues(g, old(past)) ==> Continues(g, past)
    {
      Lock(pid);
      ok := InstallLocked(force, healthy);
      Unlock();
    }

    /** The same, for the holder of the lock. */
    method InstallLocked(force: bool, healthy: bool) returns (ok: bool)
      requires Valid() && past.Last().holder.Some? && past.Last().stage == Inside
      modifies this, journal
      ensures Valid() && past.Last().holder == old(past.Last().holder) && faults >= old(faults)
      ensures ok ==> Complete(id, past.Last().disk)
      ensures ok && (force || Disposes(id, old(past.Last().disk), true, healthy) != Ready) ==>
        packages && forall g :: Continues(g, old(past)) ==> Rebuilt(g, past)
      ensures faults == old(faults) ==> (ok <==> Disposes(id, old(past.Last().disk), !force, healthy) != Refused)
      ensures faults == old(faults) && !force && !Disposes(id, old(past.Last().disk), true, healthy).Bootstrap? ==>
        SameInstallation(old(past.Last().disk), past.Last().disk)
      ensures forall g :: Continues(g, old(past)) ==> Continues(g, past)
    {
      var r := Dispose(!force, healthy);
      ok := r == Ready;
      if r.Bootstrap? || (r == Ready && force) {
        ok := Rebuild();
      }
      if ok {
        ok := FindsRuntime();
      }
    }

    /** Whether the metadata names the runtime, read once more. */
    method FindsRuntime() returns (ok: bool)
      requires Valid() && past.Last().stage == Inside && Complete(id, past.Last().disk)
      modifies this, journal
      ensures Valid() && past.Last() == old(past.Last()) && packages == old(packages)
      ensures faults >= old(faults) && (!ok ==> faults > old(faults))
      ensures forall g :: Continues(g, old(past)) ==> Continues(g, past)
      ensures forall g :: Rebuilt(g, old(past)) ==> Rebuilt(g, past)
    {
      ghost var found := past;
      var r := ReadMetadata();
      ok := r == Some(id);
      forall g | Rebuilt(g, found) ensures Rebuilt(g, past) {
        RebuiltStays(g, found, past);
      }
    }

    /** `Fleet::get`: whether the runtime is installed, or an error. */
    method FleetGet(pid: Pid, healthy: bool) returns (r: Option<bool>)
      requires Valid() && past.Last().holder == None && past.Last().stage == Outside
      modifies this, journal
      ensures Valid() && past.Last() == old(past.Last())
      ensures r == Some(true) ==> GetFinds(id, past.Last().disk, healthy) && !past.Last().disk.dirty
      ensures faults == old(faults) ==>
        (r == Some(true) <==> GetFinds(id, old(past.Last().disk), healthy))
      ensures r == Some(false) <==> old(journal.disk).main.Absent?
      ensures forall g :: Continues(g, old(past)) ==> Continues(g, past)
    {
      RunsAreSafe(past);
      Lock(pid);
      if journal.disk.main.Absent? {
        r := Some(false);
      } else {
        var found := ReadMetadata();
        r := if found == Some(id) && healthy then Some(true) else None;
      }
      Unlock();
    }

    /** Take one entry of the directory away if it is there. */
    method TakeAway(entry: Entry) returns (ok: bool)
      requires Valid()
      modifies `marker, `markerTmp, `packages, `faults, journal
      ensures journal.Valid() && faults == old(faults) + if ok then 0 else 1
      ensures ok ==> Gone(entry)
      ensures forall e :: old(Gone(e)) ==> Gone(e)
      ensures Razed(past.Last().disk, Left())
    {
      match entry {
        case Marker(file) =>
          ok := Attempt();
          if ok {
            if file.Final? { marker := Journal.Absent; } else { markerTmp := Journal.Absent; }
          }
        case Metadata(path) =>
          ok := journal.Remove(path);
          if !ok { faults := faults + 1; }
        case Packages =>
          ok := Attempt();
          if ok { packages := false; }
      }
    }

    /** Remove one entry of the directory if it is there. */
    method RemoveEntry(entry: Entry) returns (ok: bool)
      requires Valid() && past.Last().stage == Razing
      modifies this, journal
      ensures Valid() && past.Last().(disk := old(past.Last().disk)) == old(past.Last())
      ensures faults == old(faults) + if ok then 0 else 1
      ensures ok ==> Gone(entry)
      ensures forall e :: old(Gone(e)) ==> Gone(e)
      ensures ok && IsEmptyDir(past.Last().disk) ==> !past.Last().disk.dirty
      ensures forall g :: Continues(g, old(past)) ==> Continues(g, past)
    {
      ok := TakeAway(entry);
      NoteRazed();
    }

    /** What is on the disk now, as far as a removal has come. */
    ghost function Left(): Prefix
      reads this, journal
    {
      var left := Prefix(marker, markerTmp, journal.disk, packages, false);
      left.(dirty := past.Last().disk.dirty && !IsEmptyDir(left))
    }

    ghost method NoteRazed()
      requires journal.Valid() && Legal(past) && Undisturbed(past) && past.Last().stage == Razing && Razed(past.Last().disk, Left())
      modifies `past
      ensures Valid() && past == After(old(past), Raze(old(Left())), old(past.Last()).(disk := old(Left())))
    {
      var left := Left();
      past := After(past, Raze(left), past.Last().(disk := left));
    }

    ghost predicate Gone(entry: Entry)
      reads this, journal
    {
      match entry
      case Marker(Final) => marker.Absent?
      case Marker(Temporary) => markerTmp.Absent?
      case Metadata(path) => journal.disk.At(path).Absent?
      case Packages => !packages
    }

    /** `Fleet::remove`. The directory lists its entries in some `order`. */
    method FleetRemove(pid: Pid, order: seq<Entry>) returns (ok: bool)
      requires Valid() && past.Last().holder == None && past.Last().stage == Outside
      requires forall e: Entry :: e in order
      modifies this, journal
      ensures Valid() && past.Last().holder == None && past.Last().stage == Outside
      ensures ok ==> past.Last().disk == EMPTY && Owns(id, old(past.Last().disk))
      ensures faults == old(faults) ==> (ok <==> Owns(id, old(past.Last().disk)))
      ensures !Owns(id, old(past.Last().disk)) ==>
        && past.Last().disk == old(past.Last().disk).(meta := journal.disk)
        && Journal.Committed(journal.disk) == Journal.Committed(old(journal.disk))
      ensures forall g :: Continues(g, old(past)) ==> Continues(g, past)
    {
      Lock(pid);
      var d := Prefix(marker, markerTmp, journal.disk, packages, false);
      var state := ReadMarker(d);
      ok := (state.Marked? && state.owner == id) || (state.NoMarker? && IsEmptyDir(d));
      if state.NoMarker? && !ok {
        var found := ReadMetadata();
        ok := found == Some(id);
      }
      if ok {
        ok := RemoveTree(order);
      }
      Unlock();
    }

    method RemoveTree(order: seq<Entry>) returns (ok: bool)
      requires Valid() && past.Last().stage == Inside
      requires forall e: Entry :: e in order
      modifies this, journal
      ensures Valid() && past.Last().holder == old(past.Last().holder)
      ensures ok ==> past.Last().disk == EMPTY
      ensures faults >= old(faults) && (!ok ==> faults > old(faults))
      ensures forall g :: Continues(g, old(past)) ==> Continues(g, past)
    {
      past := After(past, BeginRaze, past.Last().(stage := Razing));
      ok := true;
      var i := 0;
      while i < |order| && ok
        invariant i <= |order| && Valid() && past.Last().stage == Razing && past.Last().holder == old(past.Last().holder)
        invariant faults == old(faults) + if ok then 0 else 1
        invariant ok ==> forall e :: e in order[..i] ==> Gone(e)
        invariant ok && i > 0 && IsEmptyDir(past.Last().disk) ==> !past.Last().disk.dirty
        invariant forall g :: Continues(g, old(past)) ==> Continues(g, past)
      {
        ok := RemoveEntry(order[i]);
        i := i + 1;
      }
      if ok {
        assert order[..i] == order && Packages in order;
        NothingIsLeft(order);
      }
    }

    lemma NothingIsLeft(order: seq<Entry>)
      requires (forall e: Entry :: e in order) && forall e :: e in order ==> Gone(e)
      ensures marker.Absent? && markerTmp.Absent? && !packages && journal.disk == NO_META
    {
      assert Gone(Marker(Final)) && Gone(Marker(Temporary)) && Gone(Packages);
      assert Gone(Metadata(Journal.Main)) && Gone(Metadata(Journal.Tmp)) && Gone(Metadata(Journal.Bak));
    }
  }
}
