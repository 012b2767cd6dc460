/** The three-file metadata journal of `src/config.rs`: a main file, a temporary
    file and a backup file that together behave as one atomic cell. */
module MetadataJournal {
  import opened Wrappers

  /** A file is missing, cut off in the middle of a write, or complete. */
  datatype Slot<+V> = Absent | Torn | Holds(value: V)

  datatype Path = Main | Tmp | Bak

  datatype Files<+V> = Files(main: Slot<V>, tmp: Slot<V>, bak: Slot<V>) {
    function At(p: Path): Slot<V> {
      match p case Main => main case Tmp => tmp case Bak => bak
    }
  }

  function With<V>(f: Files<V>, p: Path, s: Slot<V>): Files<V> {
    match p
    case Main => f.(main := s)
    case Tmp => f.(tmp := s)
    case Bak => f.(bak := s)
  }

  function Moved<V>(f: Files<V>, source: Path, dest: Path): Files<V> {
    With(With(f, source, Absent), dest, f.At(source))
  }

  /** The value that the journal stands for: what the next read returns. */
  function Committed<V>(f: Files<V>): Option<V> {
    match f.main
    case Holds(v) => Some(v)
    case Torn => None
    case Absent =>
      match f.tmp
      case Holds(v) => Some(v)
      case Torn => None
      case Absent => if f.bak.Holds? then Some(f.bak.value) else None
  }

  // ---------------------------------------------------------------------
  // Where a persist can stop
  // ---------------------------------------------------------------------

  /** The temporary file as a persist leaves it before the first rename. */
  function Prepared<V>(f: Files<V>, v: V): Files<V> {
    f.(tmp := Holds(v))
  }

  /** Every state that the disk can be in while `v` is being persisted over `f`.
      The last three exist only when the direct rename failed with a main file in place. */
  ghost predicate PersistImage<V>(f: Files<V>, v: V, d: Files<V>) {
    || d == f
    || d == f.(tmp := Absent)
    || d == f.(tmp := Torn)
    || d == Prepared(f, v)
    || d == Moved(Prepared(f, v), Tmp, Main)
    || d == Files(Holds(v), Absent, Absent)
    || (!f.main.Absent? &&
        (|| d == Prepared(f, v).(bak := Absent)
         || d == Files(Absent, Holds(v), f.main)
         || d == Files(Holds(v), Absent, f.main)))
  }

  /** Stopping anywhere leaves either the value that was committed or the new one. */
  ghost predicate CrashSafe<V(!new)>(f: Files<V>, v: V) {
    forall d :: PersistImage(f, v, d) ==> Committed(d) == Committed(f) || Committed(d) == Some(v)
  }

  /** Whether a main file is in place, or there is no older value to lose. The corner in which the
      backup already holds the new value is the only other safe one. */
  predicate NothingToLose<V(==)>(f: Files<V>, v: V) {
    || !f.main.Absent?
    || (!f.tmp.Holds? && (f.bak.Holds? ==> f.tmp.Torn? && f.bak.value == v))
  }

  /** A persist is atomic exactly when `NothingToLose` holds before it. */
  lemma PersistIsAtomicIff<V(!new)>(f: Files<V>, v: V)
    ensures CrashSafe(f, v) <==> NothingToLose(f, v)
  {
    if NothingToLose(f, v) {
    } else {
      var removed, torn := f.(tmp := Absent), f.(tmp := Torn);
      assert PersistImage(f, v, removed) && PersistImage(f, v, torn);
      assert !CrashSafe(f, v);
    }
  }

  // ---------------------------------------------------------------------
  // The journal on disk
  // ---------------------------------------------------------------------

  /** The three files of one prefix. Each of the first three methods is one file system call, which can
      fail for reasons of its own; a process can be killed between any two of them. `trail` keeps every
      state that the disk has been in, `faults` counts the calls that failed, and `refusals` those of them that were renames. */
  class MetadataStore<V(==)> {
    var disk: Files<V>
    ghost var trail: seq<Files<V>>
    ghost var faults: nat
    ghost var refusals: nat

    ghost predicate Valid()
      reads this
    {
      trail != [] && trail[|trail| - 1] == disk
    }

    constructor (found: Files<V>)
      ensures Valid() && disk == found && trail == [found] && faults == 0
    {
      disk := found;
      trail := [found];
      faults := 0;
      refusals := 0;
    }

    /** Remove a file if it is there. */
    method Remove(p: Path) returns (ok: bool)
      modifies this
      ensures disk == if ok then With(old(disk), p, Absent) else old(disk)
      ensures trail == old(trail) + [disk]
      ensures faults == old(faults) + (if ok then 0 else 1) && refusals == old(refusals)
    {
      ok := *;
      if ok {
        disk := With(disk, p, Absent);
      } else {
        faults := faults + 1;
      }
      trail := trail + [disk];
    }

    /** Look at a file without changing anything. */
    method Open() returns (ok: bool)
      modifies this
      ensures disk == old(disk) && trail == old(trail)
      ensures faults == old(faults) + (if ok then 0 else 1) && refusals == old(refusals)
    {
      ok := *;
      if !ok {
        faults := faults + 1;
      }
    }

    /** Create a file that must not exist yet, write it and sync it. */
    method WriteNew(p: Path, v: V) returns (ok: bool)
      modifies this
      ensures ok ==> old(disk).At(p).Absent? && disk == With(old(disk), p, Holds(v)) && faults == old(faults)
      ensures !ok ==> disk in {old(disk), With(old(disk), p, Torn), With(old(disk), p, Holds(v))}
      ensures !ok ==> faults == old(faults) + 1 || !old(disk).At(p).Absent?
      ensures old(disk).At(p).Absent? || disk == old(disk)
      ensures faults >= old(faults) && refusals == old(refusals)
      ensures old(trail) < trail && trail[|trail| - 1] == disk
      ensures forall i :: |old(trail)| <= i < |trail| ==>
        trail[i] in {old(disk), With(old(disk), p, Torn), With(old(disk), p, Holds(v))}
    {
      ok := *;
      if !ok || !disk.At(p).Absent? {
        ok := false;
        faults := faults + 1;
        trail := trail + [disk];
        return;
      }
      disk := With(disk, p, Torn);
      trail := trail + [disk];
      var rendered := *;
      if rendered {
        disk := With(disk, p, Holds(v));
        trail := trail + [disk];
        ok := *;
      } else {
        ok := false;
      }
      if !ok {
        faults := faults + 1;
      }
    }

    /** Rename one file over another, atomically. */
    method Rename(source: Path, dest: Path) returns (ok: bool)
      modifies this
      ensures ok ==> !old(disk).At(source).Absent?
      ensures disk == if ok then Moved(old(disk), source, dest) else old(disk)
      ensures trail == old(trail) + [disk]
      ensures faults - old(faults) == refusals - old(refusals) == if ok || old(disk).At(source).Absent? then 0 else 1
    {
      ok := *;
      if disk.At(source).Absent? {
        ok := false;
      } else if ok {
        disk := Moved(disk, source, dest);
      } else {
        faults, refusals := faults + 1, refusals + 1;
      }
      trail := trail + [disk];
    }

    /** Replace the committed value. Success commits `v` and leaves no other file. Every state on the
        way, and the state after a failure, is a `PersistImage`, so that a crash or an error leaves the
        old or the new value whenever there was `NothingToLose`. When there is a main file, a single rename that is refused
        does not make it fail, and it is missing afterwards only if the rollback was refused too. */
    method Persist(v: V) returns (ok: bool)
      requires Valid()
      modifies this
      ensures Valid() && old(trail) < trail
      ensures ok ==> disk == Files(Holds(v), Absent, Absent)
      ensures PersistImage(old(disk), v, disk)
      ensures forall i :: |old(trail)| <= i < |trail| ==> PersistImage(old(disk), v, trail[i])
      ensures faults >= old(faults) && (!ok ==> faults > old(faults))
      ensures !old(disk).main.Absent? && disk.main.Absent? ==> refusals > old(refusals) + 2
      ensures !ok && !old(disk).main.Absent? && faults - old(faults) == refusals - old(refusals) ==> refusals > old(refusals) + 1
    {
      ghost var f := disk;
      ok := Remove(Tmp);
      if !ok { return; }
      ok := WriteNew(Tmp, v);
      if !ok { return; }
      assert disk == Prepared(f, v);
      ok := Rename(Tmp, Main);
      if !ok {
        if disk.main.Absent? { return; }
        ok := MoveAside(f, v);
        if !ok { return; }
      }
      ok := Remove(Bak);
    }

    /** The temporary file cannot be renamed over the main file: move that to the backup first, and back if need be. */
    method MoveAside(ghost f: Files<V>, v: V) returns (ok: bool)
      requires Valid() && disk == Prepared(f, v) && !f.main.Absent?
      modifies this
      ensures Valid() && old(trail) < trail
      ensures ok ==> disk == Files(Holds(v), Absent, f.main) && refusals == old(refusals)
      ensures PersistImage(f, v, disk)
      ensures forall i :: |old(trail)| <= i < |trail| ==> PersistImage(f, v, trail[i])
      ensures faults - old(faults) >= refusals - old(refusals) >= 0 && (ok ==> faults == old(faults))
      ensures !ok ==> faults > old(faults) && (faults - old(faults) == refusals - old(refusals) ==> refusals > old(refusals))
      ensures disk.main.Absent? ==> refusals > old(refusals) + 1
    {
      ok := Remove(Bak);
      if !ok { return; }
      ok := Rename(Main, Bak);
      if !ok { return; }
      assert disk == Files(Absent, Holds(v), f.main);
      ok := Rename(Tmp, Main);
      if !ok {
        var rolledBack := Rename(Bak, Main);
      }
    }

    /** Read the committed value, moving it back to the main file when a persist was interrupted. */
    method Read() returns (r: Option<V>)
      requires Valid()
      modifies this
      ensures Valid() && old(trail) <= trail
      ensures r.Some? ==> Committed(old(disk)) == Some(r.value) && disk.main == Holds(r.value)
      ensures r.None? ==> Committed(old(disk)) == None || faults > old(faults)
      ensures Committed(old(disk)) == None || old(disk).main.Holds? ==> disk == old(disk)
      ensures forall i :: |old(trail)| <= i < |trail| ==> Committed(trail[i]) == Committed(old(disk))
      ensures Committed(disk) == Committed(old(disk)) && faults >= old(faults)
    {
      match disk.main {
        case Holds(v) =>
          var readable := Open();
          return if readable then Some(v) else None;
        case Torn => return None;
        case Absent =>
      }
      var readable := Open();
      if !readable { return None; }
      match disk.tmp {
        case Torn => return None;
        case Holds(v) =>
          var restored := Rename(Tmp, Main);
          if !restored { return None; }
          var removed := Remove(Bak);
          return if removed then Some(v) else None;
        case Absent =>
      }
      match disk.bak {
        case Holds(v) =>
          var restored := Rename(Bak, Main);
          return if restored then Some(v) else None;
        case Torn => return None;
        case Absent => return None;
      }
    }

    /** Reading is idempotent: the second read finds the value in the main file and changes nothing. */
    method ReadTwice() returns (first: Option<V>, second: Option<V>)
      requires Valid()
      modifies this
      ensures first.Some? && second.Some? ==> second == first && Committed(old(disk)) == Some(first.value)
      ensures faults == old(faults) ==> second == first
    {
      first := Read();
      second := Read();
    }

    /** Remove the three files, main file first. */
    method Invalidate() returns (ok: bool)
      requires Valid()
      modifies this
      ensures Valid() && old(trail) < trail && faults >= old(faults)
      ensures ok ==> disk == Files(Absent, Absent, Absent)
      ensures !ok ==> faults > old(faults)
      ensures forall i :: |old(trail)| <= i < |trail| ==>
        trail[i] in {old(disk), old(disk).(main := Absent), old(disk).(main := Absent, tmp := Absent),
                     Files(Absent, Absent, Absent)}
    {
      ok := Remove(Main);
      if !ok { return; }
      ok := Remove(Tmp);
      if !ok { return; }
      ok := Remove(Bak);
    }
  }
}
