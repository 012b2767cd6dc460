/** The publisher of `src/bin/cs/artifact.rs`, in an output directory that it shares with publishers of other stems.
    Every change of the directory is shown to be a step of `Publication`. */
module ArtifactPublisher {
  import opened Wrappers
  import opened Publication
  import Ordering

  /** `checksum_for_path`. */
  function ChecksumFor(sha: Content -> string, plan: Plan, kind: Kind, content: Content): Checksum {
    Checksum(FileName(plan, kind), sha(content))
  }

  function PathOf(c: Checksum): string {
    c.path
  }

  /** The checksum part of `write_artifact_metadata`: the description lists every file but itself and the manifest, and
      the manifest lists the description too, sorted by path. */
  method WriteArtifactMetadata(sha: Content -> string, plan: Plan, binary: Content, bundle: Option<Content>,
                               lock: Content, packageList: Content, sbom: Content)
    returns (staged: Staged)
    requires bundle.Some? <==> plan.external
    ensures WellStaged(sha, plan, staged)
    ensures staged[Binary] == binary && staged[Lock] == lock && staged[PackageList] == packageList && staged[Sbom] == sbom
    ensures bundle.Some? ==> staged[Bundle] == bundle.value
    ensures staged[Info] == Description(PayloadChecksums(sha, plan, staged))
    ensures IsManifestOf(sha, plan, staged, staged[Checksums].entries)
  {
    var checksums := [ChecksumFor(sha, plan, Binary, binary), ChecksumFor(sha, plan, Lock, lock),
                      ChecksumFor(sha, plan, PackageList, packageList), ChecksumFor(sha, plan, Sbom, sbom)];
    if bundle.Some? {
      checksums := checksums + [ChecksumFor(sha, plan, Bundle, bundle.value)];
    }
    var info := Description(checksums);
    var entries := Ordering.SortBy(checksums + [ChecksumFor(sha, plan, Info, info)], PathOf);
    staged := StagedFiles(plan, binary, bundle, lock, packageList, sbom, info, Manifest(entries));
    assert checksums == PayloadChecksums(sha, plan, staged);
    SortedIsManifest(sha, plan, staged, entries);
  }

  /** The manifest lists the checksums of all files but itself, each once, in the order of their paths. */
  ghost predicate IsManifestOf(sha: Content -> string, plan: Plan, staged: Staged, entries: seq<Checksum>)
    requires Complete(plan, staged)
  {
    Ordering.IsSortedFrom(PayloadChecksums(sha, plan, staged) + [ChecksumFor(sha, plan, Info, staged[Info])], entries, PathOf)
  }

  lemma SortedIsManifest(sha: Content -> string, plan: Plan, staged: Staged, entries: seq<Checksum>)
    requires Complete(plan, staged) && staged[Checksums] == Manifest(entries) && IsManifestOf(sha, plan, staged, entries)
    ensures WellStaged(sha, plan, staged)
  {
    EntriesDescribe(sha, plan, staged);
    EntriesInOrder(sha, plan, staged);
    DescribesInAnyOrder(sha, plan, staged, EntriesFor(sha, plan, staged, Listed(plan)), entries);
  }

  lemma DescribesInAnyOrder(sha: Content -> string, plan: Plan, staged: Staged, a: seq<Checksum>, b: seq<Checksum>)
    requires Describes(sha, plan, staged, a) && multiset(a) == multiset(b)
    ensures Describes(sha, plan, staged, b)
  {
    forall e ensures e in a <==> e in b {
      assert e in multiset(a) <==> e in multiset(b);
    }
  }

  /** A manifest that lists the same checksums in sorted order is the same manifest. */
  lemma ManifestIsDetermined(sha: Content -> string, plan: Plan, staged: Staged, a: seq<Checksum>, b: seq<Checksum>)
    requires Describes(sha, plan, staged, a) && multiset(a) == multiset(b)
    requires Ordering.IsSorted(a, PathOf) && Ordering.IsSorted(b, PathOf)
    ensures a == b
  {
    forall x, y | x in a && y in a && PathOf(x) == PathOf(y) ensures x == y {
      var i: Kind :| Produces(plan, i) && !i.Checksums? && x == Checksum(FileName(plan, i), sha(staged[i]));
      var j: Kind :| Produces(plan, j) && !j.Checksums? && y == Checksum(FileName(plan, j), sha(staged[j]));
      NamesAreDistinct(plan, i, j);
    }
    Ordering.SortedIsUnique(a, b, PathOf);
  }

  function StagedFiles(plan: Plan, binary: Content, bundle: Option<Content>, lock: Content, packageList: Content,
                       sbom: Content, info: Content, manifest: Content): (staged: Staged)
    requires bundle.Some? <==> plan.external
    ensures Complete(plan, staged)
    ensures staged[Binary] == binary && staged[Lock] == lock && staged[PackageList] == packageList && staged[Sbom] == sbom
    ensures staged[Info] == info && staged[Checksums] == manifest && (bundle.Some? ==> staged[Bundle] == bundle.value)
  {
    map kind: Kind | Produces(plan, kind) ::
      match kind
      case Bundle => bundle.value
      case Lock => lock
      case PackageList => packageList
      case Sbom => sbom
      case Binary => binary
      case Info => info
      case Checksums => manifest
  }

  /** The checksums that the description carries. */
  function PayloadChecksums(sha: Content -> string, plan: Plan, staged: Staged): seq<Checksum>
    requires Complete(plan, staged)
  {
    [ChecksumFor(sha, plan, Binary, staged[Binary]), ChecksumFor(sha, plan, Lock, staged[Lock]),
     ChecksumFor(sha, plan, PackageList, staged[PackageList]), ChecksumFor(sha, plan, Sbom, staged[Sbom])]
    + if plan.external then [ChecksumFor(sha, plan, Bundle, staged[Bundle])] else []
  }

  /** The manifest, entry by entry. */
  lemma EntriesInOrder(sha: Content -> string, plan: Plan, staged: Staged)
    requires Complete(plan, staged)
    ensures EntriesFor(sha, plan, staged, Listed(plan)) == PayloadChecksums(sha, plan, staged) + [ChecksumFor(sha, plan, Info, staged[Info])]
  {
    var kinds := Listed(plan);
    var entries := EntriesFor(sha, plan, staged, kinds);
    var expected := PayloadChecksums(sha, plan, staged) + [ChecksumFor(sha, plan, Info, staged[Info])];
    assert |entries| == |expected|;
    forall i | 0 <= i < |kinds| ensures entries[i] == expected[i] {
      assert entries[i] == ChecksumFor(sha, plan, kinds[i], staged[kinds[i]]);
    }
  }

  /** An output directory and the publications under way in it. The lock of a stem is held while the stem is in
      `active`. */
  class OutputDirectory {
    const sha: Content -> string
    var dir: Dir
    var active: map<string, Job>
    ghost var past: History

    ghost predicate Valid()
      reads this
    {
      && past.Last().dir == dir && past.Last().active == active && Legal(sha, past)
      && forall stem :: stem in active ==> Sound(stem, active[stem])
    }

    ghost predicate Sound(stem: string, job: Job) {
      job.plan.stem == stem && job.next <= LENGTH
    }

    constructor (digest: Content -> string, found: Dir)
      requires Clean(found)
      ensures Valid() && sha == digest && dir == found && past == Start(found)
    {
      sha := digest;
      dir := found;
      active := map[];
      past := Start(found);
    }

    /** Take the lock of a stem that nobody holds. */
    method Enter(plan: Plan, staged: Staged)
      requires Valid() && plan.stem !in active && WellStaged(sha, plan, staged)
      modifies this
      ensures Valid() && active == old(active)[plan.stem := Job(plan, staged, 0)] && dir == old(dir)
      ensures past.Last().plans == old(past.Last().plans) + {plan}
      ensures forall g :: Continues(g, old(past)) ==> Continues(g, past)
    {
      active := active[plan.stem := Job(plan, staged, 0)];
      past := After(past, Begin(plan, staged), past.Last().(active := active, plans := past.Last().plans + {plan}));
    }

    /** Release the lock, at the end or because of an error or a crash. */
    method Exit(stem: string)
      requires Valid() && stem in active
      modifies this
      ensures Valid() && active == old(active) - {stem} && dir == old(dir)
      ensures past.Last().plans == old(past.Last().plans)
      ensures forall g :: Continues(g, old(past)) ==> Continues(g, past)
    {
      active := active - {stem};
      past := After(past, End(stem), past.Last().(active := active));
    }

    /** The next rename of the publication of `stem`. */
    method Advance(stem: string)
      requires Valid() && stem in active && active[stem].next < LENGTH
      modifies this
      ensures Valid() && active == old(active)[stem := old(active)[stem].(next := old(active)[stem].next + 1)]
      ensures dir == Perform(Script(old(active)[stem].plan)[old(active)[stem].next], old(active)[stem], old(dir))
      ensures past.Last().plans == old(past.Last().plans)
      ensures forall g :: Continues(g, old(past)) ==> Continues(g, past)
    {
      var job := active[stem];
      dir := Perform(Script(job.plan)[job.next], job, dir);
      active := active[stem := job.(next := job.next + 1)];
      past := After(past, Proceed(stem), System(dir, active, past.Last().plans, Finished(job, past.Last().done)));
    }

    /** Publishers of other stems may do anything of theirs. */
    method Interfere(mine: string)
      requires Valid() && mine in active
      modifies this
      ensures Valid() && mine in active && active[mine] == old(active[mine])
      ensures old(past.Last().plans) <= past.Last().plans
      ensures forall g :: Continues(g, old(past)) ==> Continues(g, past)
    {
      var n: nat := *;
      while n > 0
        invariant Valid() && mine in active && active[mine] == old(active[mine])
        invariant old(past.Last().plans) <= past.Last().plans
        invariant forall g :: Continues(g, old(past)) ==> Continues(g, past)
      {
        var stem: string := *;
        if stem !in active {
          OtherBegins(stem);
        } else if stem != mine {
          var crashes: bool := *;
          if !crashes && active[stem].next < LENGTH {
            Advance(stem);
          } else {
            Exit(stem);
          }
        }
        n := n - 1;
      }
    }

    method OtherBegins(stem: string)
      requires Valid() && stem !in active
      modifies this
      ensures Valid() && active.Keys == old(active.Keys) + {stem} && forall other :: other in old(active) ==> active[other] == old(active[other])
      ensures old(past.Last().plans) <= past.Last().plans
      ensures forall g :: Continues(g, old(past)) ==> Continues(g, past)
    {
      var windows: bool, external: bool := *, *;
      var plan := Plan(stem, windows, external);
      var staged := StageSomething(plan);
      Enter(plan, staged);
    }

    method StageSomething(plan: Plan) returns (staged: Staged)
      ensures WellStaged(sha, plan, staged)
    {
      var bytes: seq<int> := *;
      var x := Data(bytes);
      staged := WriteArtifactMetadata(sha, plan, x, if plan.external then Some(x) else None, x, x, x);
    }

    /** The publication of `plan` has done `n` operations. */
    predicate Working(plan: Plan, staged: Staged, n: nat)
      reads this
    {
      plan.stem in active && active[plan.stem] == Job(plan, staged, n)
    }

    /** `retire_completion_marker` and `retire_obsolete_bundle`: move the file away if it is there. `moment` is the
        history just before, when publishers of other stems have gone on. */
    method RetireFile(plan: Plan, ghost staged: Staged, kind: Kind, ghost n: nat) returns (ok: bool, ghost moment: History)
      requires Valid() && Working(plan, staged, n) && n < LENGTH && Script(plan)[n] == Retire(kind)
      modifies this
      ensures Valid() && Working(plan, staged, if ok then n + 1 else n) && old(past.Last().plans) <= past.Last().plans
      ensures Continues(old(past), moment) && Continues(moment, past)
      ensures dir == if ok then moment.Last().dir - {FileName(plan, kind)} else moment.Last().dir
      ensures forall g :: Continues(g, old(past)) ==> Continues(g, past)
    {
      Interfere(plan.stem);
      moment := past;
      ok := *;
      if ok {
        Advance(plan.stem);
      }
    }

    /** `publish_staged_file`: rename a staged file over the published one. */
    method PublishFile(plan: Plan, staged: Staged, kind: Kind) returns (ok: bool, ghost moment: History)
      requires Valid() && Working(plan, staged, Position(kind)) && Produces(plan, kind)
      modifies this
      requires kind in staged
      ensures Valid() && Working(plan, staged, if ok then Position(kind) + 1 else Position(kind))
      ensures old(past.Last().plans) <= past.Last().plans
      ensures Continues(old(past), moment) && Continues(moment, past)
      ensures dir == if ok then moment.Last().dir[FileName(plan, kind) := staged[kind]] else moment.Last().dir
      ensures forall g :: Continues(g, old(past)) ==> Continues(g, past)
    {
      EveryFileHasItsTurn(plan, kind);
      Interfere(plan.stem);
      moment := past;
      ok := *;
      if ok {
        Advance(plan.stem);
      }
    }

    method PublishNext(plan: Plan, staged: Staged, kind: Kind) returns (ok: bool)
      requires Valid() && Working(plan, staged, Position(kind)) && Produces(plan, kind) && kind in staged
      modifies this
      ensures Valid() && Working(plan, staged, if ok then Position(kind) + 1 else Position(kind))
      ensures old(past.Last().plans) <= past.Last().plans
      ensures forall g :: Continues(g, old(past)) ==> Continues(g, past)
    {
      ghost var moment: History;
      ok, moment := PublishFile(plan, staged, kind);
    }

    /** `publish_staged_artifact_set`, once the lock of the stem is free. */
    method PublishStagedArtifactSet(plan: Plan, staged: Staged) returns (ok: bool)
      requires Valid() && WellStaged(sha, plan, staged) && plan.stem !in active
      modifies this
      ensures Valid() && plan.stem !in active && plan in past.Last().plans
      ensures ok && Apart(past.Last().plans) ==> forall kind: Kind ::
        if Produces(plan, kind) then FileName(plan, kind) in dir && dir[FileName(plan, kind)] == staged[kind]
        else FileName(plan, kind) !in dir
      ensures Apart(past.Last().plans) && FileName(plan, Checksums) in dir ==> TellsTruth(sha, plan.stem, dir)
      ensures forall g :: Continues(g, old(past)) ==> Continues(g, past)
    {
      Enter(plan, staged);
      ghost var n: nat;
      ok, n := PublishInOrder(plan, staged);
      if Apart(past.Last().plans) {
        Outcome(plan, staged, n);
      }
      Exit(plan.stem);
    }

    /** What the directory holds when publications of other stems stay away from the files of `plan`. */
    lemma Outcome(plan: Plan, staged: Staged, n: nat)
      requires Valid() && Working(plan, staged, n) && plan in past.Last().plans && Apart(past.Last().plans)
      requires Complete(plan, staged)
      ensures n == LENGTH ==> forall kind: Kind ::
        if Produces(plan, kind) then FileName(plan, kind) in dir && dir[FileName(plan, kind)] == staged[kind]
        else FileName(plan, kind) !in dir
      ensures FileName(plan, Checksums) in dir ==> TellsTruth(sha, plan.stem, dir)
    {
      RunsAreSafe(sha, past);
      assert ActiveIn(sha, plan.stem, past.Last());
      if n == LENGTH {
        forall kind: Kind
          ensures if Produces(plan, kind) then FileName(plan, kind) in dir && dir[FileName(plan, kind)] == staged[kind]
                  else FileName(plan, kind) !in dir
        {
          FinishedFiles(active[plan.stem], dir, kind);
        }
      }
      if FileName(plan, Checksums) in dir {
        ChecksumFileTellsTruth(sha, past, plan);
      }
    }

    method PublishInOrder(plan: Plan, staged: Staged) returns (ok: bool, ghost n: nat)
      requires Valid() && Working(plan, staged, 0) && Complete(plan, staged)
      modifies this
      ensures Valid() && Working(plan, staged, n) && old(past.Last().plans) <= past.Last().plans
      ensures n <= LENGTH && (ok <==> n == LENGTH)
      ensures forall g :: Continues(g, old(past)) ==> Continues(g, past)
    {
      ok, n := RetireOldSet(plan, staged);
      if ok {
        ok, n := PublishDocuments(plan, staged);
      }
      if ok {
        ok, n := PublishRuntime(plan, staged);
      }
    }

    /** The manifest goes first, then a bundle that the new layout does not have; a new bundle takes its place. */
    method RetireOldSet(plan: Plan, staged: Staged) returns (ok: bool, ghost n: nat)
      requires Valid() && Working(plan, staged, 0) && Complete(plan, staged)
      modifies this
      ensures Valid() && Working(plan, staged, n) && old(past.Last().plans) <= past.Last().plans
      ensures if ok then n == Position(Lock) else n < LENGTH
      ensures forall g :: Continues(g, old(past)) ==> Continues(g, past)
    {
      ghost var met: History;
      n := 0;
      ok, met := RetireFile(plan, staged, Checksums, 0);
      if !ok { return; }
      n := 1;
      if plan.external {
        ok, met := PublishFile(plan, staged, Bundle);
      } else {
        ok, met := RetireFile(plan, staged, Bundle, 1);
      }
      n := if ok then 2 else 1;
    }

    method PublishDocuments(plan: Plan, staged: Staged) returns (ok: bool, ghost n: nat)
      requires Valid() && Working(plan, staged, Position(Lock)) && Complete(plan, staged)
      modifies this
      ensures Valid() && Working(plan, staged, n) && old(past.Last().plans) <= past.Last().plans
      ensures if ok then n == Position(Binary) else n < LENGTH
      ensures forall g :: Continues(g, old(past)) ==> Continues(g, past)
    {
      n := Position(Lock);
      ok := PublishNext(plan, staged, Lock);
      if !ok { return; }
      n := Position(PackageList);
      ok := PublishNext(plan, staged, PackageList);
      if !ok { return; }
      ok := PublishNext(plan, staged, Sbom);
      n := if ok then Position(Binary) else Position(Sbom);
    }

    /** The manifest comes back last. */
    method PublishRuntime(plan: Plan, staged: Staged) returns (ok: bool, ghost n: nat)
      requires Valid() && Working(plan, staged, Position(Binary)) && Complete(plan, staged)
      modifies this
      ensures Valid() && Working(plan, staged, n) && old(past.Last().plans) <= past.Last().plans
      ensures if ok then n == LENGTH else n < LENGTH
      ensures forall g :: Continues(g, old(past)) ==> Continues(g, past)
    {
      n := Position(Binary);
      ok := PublishNext(plan, staged, Binary);
      if !ok { return; }
      n := Position(Info);
      ok := PublishNext(plan, staged, Info);
      if !ok { return; }
      ok := PublishNext(plan, staged, Checksums);
      n := if ok then LENGTH else Position(Checksums);
    }
  }
}
