/** Publication of build artifacts into an output directory (`src/bin/cs/artifact.rs`): one rename at a time, the
    checksum file retired first and published last, one publication of a stem at a time, any number of stems at
    once. */
module Publication {
  /** The files of a publication. */
  datatype Kind = Bundle | Lock | PackageList | Sbom | Binary | Info | Checksums

  datatype Checksum = Checksum(path: string, digest: string)

  datatype Content =
    | Data(bytes: seq<int>)
    | Description(checksums: seq<Checksum>)
    | Manifest(entries: seq<Checksum>)

  /** What a build is asked to produce: the stem of its file names, whether it is for Windows, and whether packages
      come in a bundle beside the binary. */
  datatype Plan = Plan(stem: string, windows: bool, external: bool)

  function Suffix(kind: Kind, windows: bool): string {
    match kind
    case Bundle => ".bundle.tar.zst"
    case Lock => ".runtime.lock"
    case PackageList => ".packages.txt"
    case Sbom => ".cdx.json"
    case Binary => if windows then ".exe" else ""
    case Info => ".info.json"
    case Checksums => ".sha256"
  }

  /** `planned_artifact_paths`. */
  function FileName(plan: Plan, kind: Kind): string {
    plan.stem + Suffix(kind, plan.windows)
  }

  predicate Produces(plan: Plan, kind: Kind) {
    kind.Bundle? ==> plan.external
  }

  type Staged = map<Kind, Content>

  predicate Complete(plan: Plan, staged: Staged) {
    forall kind: Kind :: kind in staged <==> Produces(plan, kind)
  }

  /** The digest of every file but the manifest itself, and of nothing else. */
  ghost predicate Describes(sha: Content -> string, plan: Plan, staged: Staged, entries: seq<Checksum>) {
    && Complete(plan, staged)
    && (forall kind: Kind :: Produces(plan, kind) && !kind.Checksums? ==>
          Checksum(FileName(plan, kind), sha(staged[kind])) in entries)
    && (forall e :: e in entries ==>
          exists kind: Kind :: Produces(plan, kind) && !kind.Checksums? && e == Checksum(FileName(plan, kind), sha(staged[kind])))
  }

  /** What `write_artifact_metadata` leaves in the staging directory. */
  ghost predicate WellStaged(sha: Content -> string, plan: Plan, staged: Staged) {
    && Complete(plan, staged)
    && staged[Checksums].Manifest? && Describes(sha, plan, staged, staged[Checksums].entries)
  }

  /** The files that a manifest lists, in the order of `write_artifact_metadata`. */
  function Listed(plan: Plan): (r: seq<Kind>)
    ensures forall kind: Kind :: kind in r <==> Produces(plan, kind) && !kind.Checksums?
  {
    if plan.external then [Binary, Lock, PackageList, Sbom, Bundle, Info] else [Binary, Lock, PackageList, Sbom, Info]
  }

  function EntriesFor(sha: Content -> string, plan: Plan, staged: Staged, kinds: seq<Kind>): seq<Checksum>
    requires forall kind :: kind in kinds ==> kind in staged
  {
    seq(|kinds|, i requires 0 <= i < |kinds| => Checksum(FileName(plan, kinds[i]), sha(staged[kinds[i]])))
  }

  lemma EntriesDescribe(sha: Content -> string, plan: Plan, staged: Staged)
    requires Complete(plan, staged)
    ensures Describes(sha, plan, staged, EntriesFor(sha, plan, staged, Listed(plan)))
  {
    var entries := EntriesFor(sha, plan, staged, Listed(plan));
    forall kind: Kind | Produces(plan, kind) && !kind.Checksums?
      ensures Checksum(FileName(plan, kind), sha(staged[kind])) in entries
    {
      var i :| 0 <= i < |Listed(plan)| && Listed(plan)[i] == kind;
      assert entries[i] == Checksum(FileName(plan, kind), sha(staged[kind]));
    }
    forall e | e in entries
      ensures exists kind: Kind :: Produces(plan, kind) && !kind.Checksums? && e == Checksum(FileName(plan, kind), sha(staged[kind]))
    {
      var i :| 0 <= i < |entries| && entries[i] == e;
      assert Listed(plan)[i] in Listed(plan);
    }
  }

  // ---------------------------------------------------------------------
  // File names
  // ---------------------------------------------------------------------

  /** One of two names is the other, lengthened by what their suffixes differ in. */
  lemma SameNameSplits(s: string, a: string, t: string, b: string)
    requires s + a == t + b && |b| <= |a|
    ensures t == s + a[..|a| - |b|] && a[|a| - |b|..] == b
  {
    assert (s + a)[..|t|] == t && (s + a)[|t|..] == b;
    assert (s + a)[..|t|] == s + a[..|a| - |b|];
    assert (s + a)[|t|..] == a[|a| - |b|..];
  }

  lemma SameSuffixSplits(s: string, t: string, a: string)
    requires s + a == t + a
    ensures s == t
  {
    SameNameSplits(s, a, t, a);
    assert s + a[..0] == s;
  }

  /** No suffix ends in another one but the empty suffix. */
  lemma SuffixesAreApart(k: Kind, kWindows: bool, l: Kind, lWindows: bool)
    requires k != l && 0 < |Suffix(l, lWindows)| <= |Suffix(k, kWindows)|
    ensures Suffix(k, kWindows)[|Suffix(k, kWindows)| - |Suffix(l, lWindows)|..] != Suffix(l, lWindows)
  {
    var a, b := Suffix(k, kWindows), Suffix(l, lWindows);
    var end := a[|a| - |b|..];
    LastLetterIs(k, kWindows);
    LastLetterIs(l, lWindows);
    if LastLetter(k) != LastLetter(l) {
      assert end[|b| - 1] == a[|a| - 1];
    } else {
      SameLastLetter(k, kWindows, l, lWindows);
    }
  }

  function LastLetter(kind: Kind): char {
    match kind
    case Bundle | PackageList => 't'
    case Lock => 'k'
    case Sbom | Info => 'n'
    case Binary => 'e'
    case Checksums => '6'
  }

  lemma LastLetterIs(kind: Kind, windows: bool)
    ensures Suffix(kind, windows) != "" ==> Suffix(kind, windows)[|Suffix(kind, windows)| - 1] == LastLetter(kind)
  {
  }

  lemma SameLastLetter(k: Kind, kWindows: bool, l: Kind, lWindows: bool)
    requires k != l && LastLetter(k) == LastLetter(l) && |Suffix(l, lWindows)| <= |Suffix(k, kWindows)|
    ensures Suffix(k, kWindows)[|Suffix(k, kWindows)| - |Suffix(l, lWindows)|..] != Suffix(l, lWindows)
  {
    var a, b := Suffix(k, kWindows), Suffix(l, lWindows);
    if k.Bundle? || k.PackageList? {
      assert a[|a| - 2] != b[|b| - 2];
      assert a[|a| - |b|..][|b| - 2] == a[|a| - 2];
    } else {
      assert k.Info? && l.Sbom?;
      assert a[|a| - |b|..][0] == 'i';
    }
  }

  /** The files of one stem have different names. */
  lemma NamesAreDistinct(plan: Plan, k: Kind, l: Kind)
    requires FileName(plan, k) == FileName(plan, l)
    ensures k == l
  {
    var a, b := Suffix(k, plan.windows), Suffix(l, plan.windows);
    assert |a| == |b|;
    SameNameSplits(plan.stem, a, plan.stem, b);
    if k != l && b != "" {
      SuffixesAreApart(k, plan.windows, l, plan.windows);
    }
  }

  ghost predicate Meet(p: Plan, q: Plan) {
    exists k: Kind, l: Kind :: FileName(p, k) == FileName(q, l)
  }

  /** The stem of `q`, which is also the name of its binary, is the name of a file of `p`. */
  predicate TakesNameOf(q: Plan, p: Plan) {
    !q.windows && exists k: Kind :: q.stem == FileName(p, k)
  }

  /** Publications of different stems write the same file exactly when the binary of one, without an extension, is
      named like a file of the other. */
  lemma StemsMeetIff(p: Plan, q: Plan)
    requires p.stem != q.stem
    ensures Meet(p, q) <==> TakesNameOf(q, p) || TakesNameOf(p, q)
  {
    forall k: Kind, l: Kind | FileName(p, k) == FileName(q, l) ensures TakesNameOf(q, p) || TakesNameOf(p, q) {
      if |Suffix(l, q.windows)| <= |Suffix(k, p.windows)| {
        UnextendedBinary(p, q, k, l);
      } else {
        UnextendedBinary(q, p, l, k);
      }
    }
    if TakesNameOf(q, p) {
      var k: Kind :| q.stem == FileName(p, k);
      assert FileName(q, Binary) == q.stem;
      assert FileName(p, k) == FileName(q, Binary);
    }
    if TakesNameOf(p, q) {
      var k: Kind :| p.stem == FileName(q, k);
      assert FileName(p, Binary) == p.stem;
      assert FileName(p, Binary) == FileName(q, k);
    }
  }

  lemma UnextendedBinary(p: Plan, q: Plan, k: Kind, l: Kind)
    requires p.stem != q.stem && FileName(p, k) == FileName(q, l)
    requires |Suffix(l, q.windows)| <= |Suffix(k, p.windows)|
    ensures TakesNameOf(q, p) || TakesNameOf(p, q)
  {
    var a, b := Suffix(k, p.windows), Suffix(l, q.windows);
    if b == "" {
      assert FileName(q, l) == q.stem;
    } else {
      SameNameSplits(p.stem, a, q.stem, b);
      if k != l {
        SuffixesAreApart(k, p.windows, l, q.windows);
      } else if a == b {
        SameSuffixSplits(p.stem, q.stem, a);
      }
    }
  }

  // ---------------------------------------------------------------------
  // Steps
  // ---------------------------------------------------------------------

  datatype Operation = Retire(kind: Kind) | Publish(kind: Kind)

  const LENGTH := 8

  /** `publish_staged_artifact_set`, in order. */
  function Script(plan: Plan): (r: seq<Operation>)
    ensures |r| == LENGTH
    ensures r[0] == Retire(Checksums) && r[LENGTH - 1] == Publish(Checksums)
    ensures forall i, j :: 0 <= i < j < LENGTH && r[i].kind == r[j].kind ==> r[i].kind == Checksums && i == 0 && j == LENGTH - 1
    ensures forall i :: 0 <= i < LENGTH && r[i].Publish? ==> Produces(plan, r[i].kind)
    ensures forall i :: 0 < i < LENGTH && r[i].Retire? ==> r[i].kind == Bundle && !plan.external
  {
    var bundle := if plan.external then Publish(Bundle) else Retire(Bundle);
    [Retire(Checksums), bundle, Publish(Lock), Publish(PackageList), Publish(Sbom), Publish(Binary), Publish(Info),
     Publish(Checksums)]
  }

  /** Where in the script a file is published. */
  function Position(kind: Kind): nat {
    match kind
    case Bundle => 1
    case Lock => 2
    case PackageList => 3
    case Sbom => 4
    case Binary => 5
    case Info => 6
    case Checksums => 7
  }

  /** Every file is published, and a bundle that is not produced is retired. */
  lemma EveryFileHasItsTurn(plan: Plan, kind: Kind)
    ensures Position(kind) < LENGTH
    ensures Script(plan)[Position(kind)] == if Produces(plan, kind) then Publish(kind) else Retire(kind)
  {
  }

  type Dir = map<string, Content>

  /** A publication under way, and how many operations it has done. */
  datatype Job = Job(plan: Plan, staged: Staged, next: nat)

  function Perform(op: Operation, job: Job, dir: Dir): Dir {
    var name := FileName(job.plan, op.kind);
    if op.Retire? then dir - {name}
    else if op.kind in job.staged then dir[name := job.staged[op.kind]]
    else dir
  }

  /** The directory; the job that holds the lock of each stem; every plan so far; and for each stem the publication
      that its checksum file stands for, if there is one. */
  datatype System = System(dir: Dir, active: map<string, Job>, plans: set<Plan>, done: map<string, Job>)

  datatype Step = Begin(plan: Plan, staged: Staged) | Proceed(stem: string) | End(stem: string)

  /** The publication that the checksum file of `job` stands for, after its next operation. */
  function Finished(job: Job, done: map<string, Job>): map<string, Job> {
    if job.next == 0 then done - {job.plan.stem}
    else if job.next == LENGTH - 1 then done[job.plan.stem := job.(next := LENGTH)]
    else done
  }

  /** A crash and an error are both `End`, as is success. */
  ghost predicate Takes(sha: Content -> string, step: Step, s: System, s': System) {
    match step
    case Begin(plan, staged) =>
      && plan.stem !in s.active && WellStaged(sha, plan, staged)
      && s' == s.(active := s.active[plan.stem := Job(plan, staged, 0)], plans := s.plans + {plan})
    case Proceed(stem) =>
      && stem in s.active
      && var job := s.active[stem];
         && job.plan.stem == stem && job.next < LENGTH
         && s' == System(Perform(Script(job.plan)[job.next], job, s.dir),
                         s.active[stem := job.(next := job.next + 1)], s.plans, Finished(job, s.done))
    case End(stem) => stem in s.active && s' == s.(active := s.active - {stem})
  }

  /** A directory to publish into may hold anything but checksum files. */
  ghost predicate Clean(dir: Dir) {
    forall plan: Plan :: FileName(plan, Checksums) !in dir
  }

  datatype History = Start(dir: Dir) | After(before: History, step: Step, system: System) {
    function Last(): System {
      if Start? then System(dir, map[], {}, map[]) else system
    }
  }

  ghost predicate Legal(sha: Content -> string, h: History) {
    match h
    case Start(dir) => Clean(dir)
    case After(before, step, system) => Legal(sha, before) && Takes(sha, step, before.Last(), system)
  }

  ghost predicate Continues(g: History, h: History) {
    g == h || (h.After? && Continues(g, h.before))
  }

  // ---------------------------------------------------------------------
  // The checksum file tells the truth
  // ---------------------------------------------------------------------

  ghost predicate Apart(plans: set<Plan>) {
    forall p, q {:trigger Meet(p, q)} :: p in plans && q in plans && p.stem != q.stem ==> !Meet(p, q)
  }

  /** What an operation has brought about, if nobody has interfered. The checksum file has its own invariant. */
  predicate Stands(op: Operation, job: Job, dir: Dir) {
    var name := FileName(job.plan, op.kind);
    match op
    case Retire(kind) => kind.Checksums? || name !in dir
    case Publish(kind) => kind in job.staged && name in dir && dir[name] == job.staged[kind]
  }

  ghost predicate Advanced(job: Job, dir: Dir) {
    job.next <= LENGTH && forall i :: 0 <= i < job.next ==> Stands(Script(job.plan)[i], job, dir)
  }

  ghost predicate JobIn(sha: Content -> string, stem: string, job: Job, s: System) {
    job.plan.stem == stem && job.plan in s.plans && WellStaged(sha, job.plan, job.staged) && Advanced(job, s.dir)
  }

  ghost predicate ActiveIn(sha: Content -> string, stem: string, s: System)
    requires stem in s.active
  {
    && JobIn(sha, stem, s.active[stem], s)
    && (0 < s.active[stem].next ==> (stem in s.done <==> s.active[stem].next == LENGTH))
  }

  ghost predicate DoneIn(sha: Content -> string, stem: string, s: System)
    requires stem in s.done
  {
    JobIn(sha, stem, s.done[stem], s) && s.done[stem].next == LENGTH
  }

  predicate Marked(p: Plan, s: System) {
    FileName(p, Checksums) in s.dir <==> p.stem in s.done
  }

  /** A file that was there from the beginning, or belongs to a publication. */
  ghost predicate Accounted(name: string, plans: set<Plan>) {
    || (forall p: Plan :: name != FileName(p, Checksums))
    || (exists q: Plan, k: Kind :: q in plans && name == FileName(q, k))
  }

  ghost predicate Inv(sha: Content -> string, s: System) {
    && (forall stem {:trigger ActiveIn(sha, stem, s)} :: stem in s.active ==> ActiveIn(sha, stem, s))
    && (forall stem {:trigger DoneIn(sha, stem, s)} :: stem in s.done ==> DoneIn(sha, stem, s))
    && (forall p {:trigger Marked(p, s)} :: p in s.plans ==> Marked(p, s))
    && (forall name {:trigger Accounted(name, s.plans)} :: name in s.dir ==> Accounted(name, s.plans))
  }

  /** An operation of another stem does not touch what `job` has done, nor its checksum file. */
  lemma OthersKeep(job: Job, other: Job, op: Operation, dir: Dir)
    requires !Meet(job.plan, other.plan)
    ensures Advanced(job, dir) ==> Advanced(job, Perform(op, other, dir))
    ensures FileName(job.plan, Checksums) in Perform(op, other, dir) <==> FileName(job.plan, Checksums) in dir
  {
    var name := FileName(other.plan, op.kind);
    forall k: Kind ensures FileName(job.plan, k) != name {
    }
    if Advanced(job, dir) {
      forall i | 0 <= i < job.next ensures Stands(Script(job.plan)[i], job, Perform(op, other, dir)) {
        assert Stands(Script(job.plan)[i], job, dir);
        assert FileName(job.plan, Script(job.plan)[i].kind) != name;
      }
    }
  }

  /** An operation brings about what it stands for and leaves the earlier ones standing. */
  lemma OwnAdvances(job: Job, dir: Dir)
    requires Advanced(job, dir) && job.next < LENGTH && Complete(job.plan, job.staged)
    ensures Advanced(job.(next := job.next + 1), Perform(Script(job.plan)[job.next], job, dir))
  {
    var op := Script(job.plan)[job.next];
    var dir' := Perform(op, job, dir);
    var job' := job.(next := job.next + 1);
    forall i | 0 <= i < job'.next ensures Stands(Script(job'.plan)[i], job', dir') {
      var earlier := Script(job.plan)[i];
      if i < job.next {
        assert Stands(earlier, job, dir);
        if FileName(job.plan, earlier.kind) == FileName(job.plan, op.kind) {
          NamesAreDistinct(job.plan, earlier.kind, op.kind);
          assert earlier == Retire(Checksums);
        }
      }
    }
  }

  lemma ProceedKeepsOthers(sha: Content -> string, stem: string, s: System, s': System, other: string)
    requires Inv(sha, s) && Apart(s.plans) && Takes(sha, Proceed(stem), s, s') && other != stem
    ensures other in s'.active ==> ActiveIn(sha, other, s')
    ensures other in s'.done ==> DoneIn(sha, other, s')
  {
    var job := s.active[stem];
    assert ActiveIn(sha, stem, s);
    if other in s.active {
      assert ActiveIn(sha, other, s);
      OthersKeep(s.active[other], job, Script(job.plan)[job.next], s.dir);
    }
    if other in s.done {
      assert DoneIn(sha, other, s);
      OthersKeep(s.done[other], job, Script(job.plan)[job.next], s.dir);
    }
  }

  lemma ProceedKeepsOwn(sha: Content -> string, stem: string, s: System, s': System)
    requires Inv(sha, s) && Takes(sha, Proceed(stem), s, s')
    ensures ActiveIn(sha, stem, s') && (stem in s'.done ==> DoneIn(sha, stem, s'))
  {
    assert ActiveIn(sha, stem, s);
    OwnAdvances(s.active[stem], s.dir);
  }

  /** An operation on another file leaves the checksum file of the stem alone. */
  lemma OwnMark(job: Job, op: Operation, dir: Dir)
    requires op.Publish? ==> op.kind in job.staged
    ensures FileName(job.plan, Checksums) in Perform(op, job, dir) <==>
              if op.kind == Checksums then op.Publish? else FileName(job.plan, Checksums) in dir
  {
    if op.kind != Checksums && FileName(job.plan, op.kind) == FileName(job.plan, Checksums) {
      NamesAreDistinct(job.plan, op.kind, Checksums);
    }
  }

  lemma ProceedKeepsMark(sha: Content -> string, stem: string, s: System, s': System, p: Plan)
    requires Takes(sha, Proceed(stem), s, s') && Marked(p, s) && Complete(s.active[stem].plan, s.active[stem].staged)
    requires p.stem != stem ==> !Meet(p, s.active[stem].plan)
    requires p.stem == stem && 0 < s.active[stem].next ==> stem !in s.done
    ensures Marked(p, s')
  {
    var job := s.active[stem];
    var op := Script(job.plan)[job.next];
    if p.stem != stem {
      OthersKeep(Job(p, job.staged, 0), job, op, s.dir);
    } else {
      assert FileName(p, Checksums) == FileName(job.plan, Checksums);
      OwnMark(job, op, s.dir);
    }
  }

  lemma ProceedKeepsInv(sha: Content -> string, stem: string, s: System, s': System)
    requires Inv(sha, s) && Apart(s.plans) && Takes(sha, Proceed(stem), s, s')
    ensures Inv(sha, s')
  {
    ProceedKeepsOwn(sha, stem, s, s');
    forall other | other != stem
      ensures (other in s'.active ==> ActiveIn(sha, other, s')) && (other in s'.done ==> DoneIn(sha, other, s'))
    {
      ProceedKeepsOthers(sha, stem, s, s', other);
    }
    assert ActiveIn(sha, stem, s);
    forall p | p in s.plans ensures Marked(p, s') {
      ProceedKeepsMark(sha, stem, s, s', p);
    }
  }

  lemma BeginKeepsInv(sha: Content -> string, plan: Plan, staged: Staged, s: System, s': System)
    requires Inv(sha, s) && Apart(s'.plans) && Takes(sha, Begin(plan, staged), s, s')
    ensures Inv(sha, s')
  {
    forall stem | stem in s'.active ensures ActiveIn(sha, stem, s') {
      if stem != plan.stem { assert ActiveIn(sha, stem, s); }
    }
    forall stem | stem in s'.done ensures DoneIn(sha, stem, s') {
      assert DoneIn(sha, stem, s);
    }
    forall name | name in s'.dir ensures Accounted(name, s'.plans) {
      assert Accounted(name, s.plans);
    }
    NewStemIsUnmarked(sha, plan, s);
    forall p | p in s'.plans ensures Marked(p, s') {
      assert p == plan || Marked(p, s);
    }
  }

  /** A stem that is published for the first time has no checksum file yet. */
  lemma NewStemIsUnmarked(sha: Content -> string, plan: Plan, s: System)
    requires Inv(sha, s) && Apart(s.plans + {plan})
    ensures Marked(plan, s)
  {
    if plan.stem in s.done {
      assert DoneIn(sha, plan.stem, s);
      assert Marked(s.done[plan.stem].plan, s);
    } else if FileName(plan, Checksums) in s.dir {
      assert Accounted(FileName(plan, Checksums), s.plans);
      var q: Plan, k: Kind :| q in s.plans && FileName(plan, Checksums) == FileName(q, k);
      assert Marked(q, s);
      assert q.stem != plan.stem ==> Meet(plan, q);
    }
  }

  lemma InvKept(sha: Content -> string, step: Step, s: System, s': System)
    requires Inv(sha, s) && Apart(s'.plans) && Takes(sha, step, s, s')
    ensures Inv(sha, s')
  {
    match step
    case Begin(plan, staged) => BeginKeepsInv(sha, plan, staged, s, s');
    case Proceed(stem) => ProceedKeepsInv(sha, stem, s, s');
    case End(stem) =>
      forall other | other in s'.active ensures ActiveIn(sha, other, s') {
        assert ActiveIn(sha, other, s);
      }
      forall other | other in s'.done ensures DoneIn(sha, other, s') {
        assert DoneIn(sha, other, s);
      }
      forall p | p in s.plans ensures Marked(p, s') {
        assert Marked(p, s);
      }
  }

  lemma {:induction false} RunsAreSafe(sha: Content -> string, h: History)
    requires Legal(sha, h) && Apart(h.Last().plans)
    ensures Inv(sha, h.Last())
  {
    if h.After? {
      RunsAreSafe(sha, h.before);
      InvKept(sha, h.step, h.before.Last(), h.system);
    }
  }

  predicate Lists(entries: seq<Checksum>, name: string) {
    exists i :: 0 <= i < |entries| && entries[i].path == name
  }

  /** The checksum file of a stem names the files of one build, all but itself, with the digests of the files that are
      there; and a bundle lies beside them only if it is named too. */
  ghost predicate TellsTruth(sha: Content -> string, stem: string, dir: Dir) {
    exists plan: Plan ::
      && plan.stem == stem && FileName(plan, Checksums) in dir && dir[FileName(plan, Checksums)].Manifest?
      && var entries := dir[FileName(plan, Checksums)].entries;
         && (forall e :: e in entries ==> e.path in dir && sha(dir[e.path]) == e.digest)
         && (forall kind: Kind :: kind != Checksums ==> (Lists(entries, FileName(plan, kind)) <==> Produces(plan, kind)))
         && (FileName(plan, Bundle) in dir <==> plan.external)
  }

  lemma FinishedFiles(job: Job, dir: Dir, kind: Kind)
    requires Advanced(job, dir) && job.next == LENGTH && Complete(job.plan, job.staged)
    ensures var name := FileName(job.plan, kind);
            if Produces(job.plan, kind) then name in dir && dir[name] == job.staged[kind] else name !in dir
  {
    EveryFileHasItsTurn(job.plan, kind);
    assert Stands(Script(job.plan)[Position(kind)], job, dir);
  }

  lemma ListedIffProduced(sha: Content -> string, job: Job, entries: seq<Checksum>, kind: Kind)
    requires Describes(sha, job.plan, job.staged, entries) && kind != Checksums
    ensures Lists(entries, FileName(job.plan, kind)) <==> Produces(job.plan, kind)
  {
    if Produces(job.plan, kind) {
      var i :| 0 <= i < |entries| && entries[i] == Checksum(FileName(job.plan, kind), sha(job.staged[kind]));
    }
    if Lists(entries, FileName(job.plan, kind)) {
      var i :| 0 <= i < |entries| && entries[i].path == FileName(job.plan, kind);
      assert entries[i] in entries;
      var k: Kind :| Produces(job.plan, k) && entries[i].path == FileName(job.plan, k);
      NamesAreDistinct(job.plan, k, kind);
    }
  }

  lemma FinishedJobTellsTruth(sha: Content -> string, job: Job, dir: Dir)
    requires WellStaged(sha, job.plan, job.staged) && Advanced(job, dir) && job.next == LENGTH
    ensures TellsTruth(sha, job.plan.stem, dir)
  {
    var plan := job.plan;
    forall kind: Kind
      ensures var name := FileName(plan, kind);
              if Produces(plan, kind) then name in dir && dir[name] == job.staged[kind] else name !in dir
    {
      FinishedFiles(job, dir, kind);
    }
    var entries := dir[FileName(plan, Checksums)].entries;
    forall kind: Kind | kind != Checksums ensures Lists(entries, FileName(plan, kind)) <==> Produces(plan, kind) {
      ListedIffProduced(sha, job, entries, kind);
    }
    forall e | e in entries ensures e.path in dir && sha(dir[e.path]) == e.digest {
      var k: Kind :| Produces(plan, k) && e == Checksum(FileName(plan, k), sha(job.staged[k]));
    }
    assert Produces(plan, Checksums);
  }

  /** At every moment of every run, if a checksum file of a published stem exists, it tells the truth. */
  lemma ChecksumFileTellsTruth(sha: Content -> string, h: History, plan: Plan)
    requires Legal(sha, h) && Apart(h.Last().plans)
    requires plan in h.Last().plans && FileName(plan, Checksums) in h.Last().dir
    ensures TellsTruth(sha, plan.stem, h.Last().dir)
  {
    RunsAreSafe(sha, h);
    var s := h.Last();
    assert Marked(plan, s);
    assert DoneIn(sha, plan.stem, s);
    FinishedJobTellsTruth(sha, s.done[plan.stem], s.dir);
  }

  // ---------------------------------------------------------------------
  // Stems that meet
  // ---------------------------------------------------------------------

  ghost predicate Advances(a: System, b: System, stem: string) {
    && stem in a.active && stem in b.active && a.active[stem].next <= b.active[stem].next <= LENGTH
    && b.active[stem] == a.active[stem].(next := b.active[stem].next)
    && b.plans == a.plans && b.active.Keys == a.active.Keys
    && (forall name :: (forall k: Kind :: name != FileName(a.active[stem].plan, k)) ==>
          (name in b.dir <==> name in a.dir) && (name in b.dir ==> b.dir[name] == a.dir[name]))
  }

  /** A publication that nobody interferes with can go on to the operation `n`. */
  lemma {:induction false} CanReach(sha: Content -> string, h: History, stem: string, n: nat) returns (g: History)
    requires Legal(sha, h) && stem in h.Last().active && h.Last().active[stem].plan.stem == stem
    requires Complete(h.Last().active[stem].plan, h.Last().active[stem].staged)
    requires h.Last().active[stem].next <= n <= LENGTH && Advanced(h.Last().active[stem], h.Last().dir)
    ensures Legal(sha, g) && Advances(h.Last(), g.Last(), stem)
    ensures g.Last().active[stem].next == n && Advanced(g.Last().active[stem], g.Last().dir)
    decreases n - h.Last().active[stem].next
  {
    g := h;
    var s, job := h.Last(), h.Last().active[stem];
    if job.next < n {
      var s' := System(Perform(Script(job.plan)[job.next], job, s.dir), s.active[stem := job.(next := job.next + 1)], s.plans,
                       Finished(job, s.done));
      OwnAdvances(job, s.dir);
      g := CanReach(sha, After(h, Proceed(stem), s'), stem, n);
    }
  }

  /** A build all of whose files hold `x`. */
  ghost function Uniform(sha: Content -> string, plan: Plan, x: Content): (r: Staged)
    ensures WellStaged(sha, plan, r)
    ensures forall kind: Kind :: Produces(plan, kind) && kind != Checksums ==> r[kind] == x
  {
    var others := map kind: Kind | Produces(plan, kind) :: x;
    var r := others[Checksums := Manifest(EntriesFor(sha, plan, others, Listed(plan)))];
    EntriesDescribe(sha, plan, r);
    assert EntriesFor(sha, plan, others, Listed(plan)) == EntriesFor(sha, plan, r, Listed(plan));
    r
  }

  /** A name with two suffixes is not the name of a file with one. */
  lemma TwoSuffixes(p: Plan, k: Kind, l: Kind, m: Kind)
    requires Suffix(k, p.windows) != "" && l != Binary
    ensures p.stem + Suffix(k, p.windows) + Suffix(l, false) != FileName(p, m)
  {
    var a, b, c := Suffix(k, p.windows), Suffix(l, false), Suffix(m, p.windows);
    if p.stem + a + b == p.stem + c {
      SameNameSplits(p.stem, c, p.stem + a, b);
      if m != l {
        SuffixesAreApart(m, p.windows, l, false);
      }
    }
  }

  /** Only the binary of `q` is named like a file of `p`. */
  lemma OnlyTheBinaryMeets(p: Plan, q: Plan, k: Kind, l: Kind, m: Kind)
    requires p.stem != q.stem && !q.windows && q.stem == FileName(p, k) && l != Binary
    ensures FileName(q, l) != FileName(p, m)
  {
    assert Suffix(k, p.windows) == "" ==> FileName(p, k) == p.stem;
    TwoSuffixes(p, k, l, m);
  }

  /** The run `h`, continued by the begin of a publication. */
  lemma Begins(sha: Content -> string, h: History, plan: Plan, x: Content) returns (g: History)
    requires Legal(sha, h) && plan.stem !in h.Last().active
    ensures Legal(sha, g) && g.Last().plans == h.Last().plans + {plan} && g.Last().dir == h.Last().dir
    ensures g.Last().active == h.Last().active[plan.stem := Job(plan, Uniform(sha, plan, x), 0)]
  {
    var s, staged := h.Last(), Uniform(sha, plan, x);
    g := After(h, Begin(plan, staged), s.(active := s.active[plan.stem := Job(plan, staged, 0)], plans := s.plans + {plan}));
  }

  /** A whole publication into an empty directory. */
  lemma Published(sha: Content -> string, p: Plan, x: Content) returns (h: History)
    ensures Legal(sha, h) && h.Last().plans == {p} && h.Last().active.Keys == {p.stem}
    ensures FileName(p, Checksums) in h.Last().dir && h.Last().dir[FileName(p, Checksums)] == Uniform(sha, p, x)[Checksums]
  {
    h := Begins(sha, Start(map[]), p, x);
    h := CanReach(sha, h, p.stem, LENGTH);
    FinishedFiles(h.Last().active[p.stem], h.Last().dir, Checksums);
  }

  /** Another publication goes on until its binary is there. */
  lemma BinaryPublished(sha: Content -> string, h: History, q: Plan, y: Content) returns (g: History)
    requires Legal(sha, h) && q.stem !in h.Last().active
    ensures Legal(sha, g) && g.Last().plans == h.Last().plans + {q}
    ensures FileName(q, Binary) in g.Last().dir && g.Last().dir[FileName(q, Binary)] == y
    ensures forall name :: (forall l: Kind :: name != FileName(q, l)) && name in h.Last().dir ==>
              name in g.Last().dir && g.Last().dir[name] == h.Last().dir[name]
  {
    g := Begins(sha, h, q, y);
    g := CanReach(sha, g, q.stem, Position(Binary) + 1);
    EveryFileHasItsTurn(q, Binary);
    assert Stands(Script(q)[Position(Binary)], g.Last().active[q.stem], g.Last().dir);
  }

  /** The checksum file of `p` is not a file of `q`. */
  lemma MarkerUntouched(p: Plan, q: Plan, k: Kind)
    requires p.stem != q.stem && !q.windows && q.stem == FileName(p, k) && k != Checksums
    ensures forall l: Kind :: FileName(p, Checksums) != FileName(q, l)
  {
    forall l: Kind ensures FileName(p, Checksums) != FileName(q, l) {
      if l != Binary {
        OnlyTheBinaryMeets(p, q, k, l, Checksums);
      } else {
        assert FileName(q, Binary) == q.stem;
        if FileName(p, Checksums) == FileName(p, k) {
          NamesAreDistinct(p, k, Checksums);
        }
      }
    }
  }

  /** When the binary of `q` is named like a file of `p`, the checksum file of `p` can be wrong. */
  lemma MeetingStemsCanLie(sha: Content -> string, p: Plan, q: Plan, x: Content, y: Content) returns (h: History)
    requires p.stem != q.stem && TakesNameOf(q, p) && sha(x) != sha(y) && y.Data?
    ensures Legal(sha, h) && h.Last().plans == {p, q}
    ensures FileName(p, Checksums) in h.Last().dir && !TellsTruth(sha, p.stem, h.Last().dir)
  {
    var before := Published(sha, p, x);
    h := BinaryPublished(sha, before, q, y);
    BinaryContradicts(sha, p, q, x, y, before.Last().dir, h.Last().dir);
  }

  lemma BinaryContradicts(sha: Content -> string, p: Plan, q: Plan, x: Content, y: Content, dir: Dir, dir': Dir)
    requires p.stem != q.stem && TakesNameOf(q, p) && sha(x) != sha(y) && y.Data?
    requires FileName(p, Checksums) in dir && dir[FileName(p, Checksums)] == Uniform(sha, p, x)[Checksums]
    requires FileName(q, Binary) in dir' && dir'[FileName(q, Binary)] == y
    requires (forall l: Kind :: FileName(p, Checksums) != FileName(q, l)) ==>
               FileName(p, Checksums) in dir' && dir'[FileName(p, Checksums)] == dir[FileName(p, Checksums)]
    ensures FileName(p, Checksums) in dir' && !TellsTruth(sha, p.stem, dir')
  {
    var k: Kind :| q.stem == FileName(p, k);
    assert FileName(q, Binary) == q.stem;
    if k == Checksums {
      NotAManifest(sha, p, dir');
    } else {
      MarkerUntouched(p, q, k);
      WrongEntry(sha, p, k, Uniform(sha, p, x), dir');
    }
  }

  lemma NotAManifest(sha: Content -> string, p: Plan, dir: Dir)
    requires FileName(p, Checksums) in dir && !dir[FileName(p, Checksums)].Manifest?
    ensures !TellsTruth(sha, p.stem, dir)
  {
    forall plan: Plan | plan.stem == p.stem ensures FileName(plan, Checksums) == FileName(p, Checksums) {
    }
  }

  /** A file with another digest, or a bundle that should not be there, contradicts the checksum file. */
  lemma WrongEntry(sha: Content -> string, p: Plan, k: Kind, staged: Staged, dir: Dir)
    requires WellStaged(sha, p, staged) && k != Checksums
    requires FileName(p, Checksums) in dir && dir[FileName(p, Checksums)] == staged[Checksums] && FileName(p, k) in dir
    requires Produces(p, k) ==> sha(staged[k]) != sha(dir[FileName(p, k)])
    ensures !TellsTruth(sha, p.stem, dir)
  {
    var entries := staged[Checksums].entries;
    if Produces(p, k) {
      assert Checksum(FileName(p, k), sha(staged[k])) in entries;
    } else {
      ListedIffProduced(sha, Job(p, staged, 0), entries, Bundle);
    }
    forall plan: Plan | plan.stem == p.stem
      ensures FileName(plan, Checksums) == FileName(p, Checksums) && FileName(plan, Bundle) == FileName(p, Bundle)
    {
    }
  }

  /** Every run that publishes `p` and `q` keeps their checksum files true exactly when no file name is shared. */
  lemma TruthIffApart(sha: Content -> string, p: Plan, q: Plan, x: Content, y: Content)
    requires p.stem != q.stem && sha(x) != sha(y) && x.Data? && y.Data?
    ensures (forall h: History, r ::
               Legal(sha, h) && h.Last().plans == {p, q} && r in {p, q} && FileName(r, Checksums) in h.Last().dir ==>
                 TellsTruth(sha, r.stem, h.Last().dir))
            <==> !TakesNameOf(p, q) && !TakesNameOf(q, p)
  {
    StemsMeetIff(p, q);
    StemsMeetIff(q, p);
    if TakesNameOf(q, p) {
      var h := MeetingStemsCanLie(sha, p, q, x, y);
    } else if TakesNameOf(p, q) {
      var h := MeetingStemsCanLie(sha, q, p, x, y);
      assert h.Last().plans == {p, q};
    } else {
      forall h: History, r | Legal(sha, h) && h.Last().plans == {p, q} && r in {p, q} && FileName(r, Checksums) in h.Last().dir
        ensures TellsTruth(sha, r.stem, h.Last().dir)
      {
        ChecksumFileTellsTruth(sha, h, r);
      }
    }
  }
}
