/** Who manages the installed executable: the record that `record_installation` and `reconcile_current_executable` of
    `src/executable_update.rs` change, on behalf of `src/runtime_update.rs`. */
module InstallationRecord {
  import opened Wrappers
  import Protocol = UpdateProtocol

  datatype Ownership = Direct | External

  datatype Update = Update(
    executable: string, ownership: Ownership, installation: Option<string>, artifactName: string, channel: string,
    pkg: string, build: nat, digest: string, instruction: Option<string>, pending: Option<Protocol.Phase>)

  datatype Meta = Meta(version: string, update: Option<Update>)

  /** What the running executable is stamped with. */
  datatype Header = Header(
    version: string, artifactName: string, channel: string, pkg: string, build: nat, ownership: Ownership,
    instruction: Option<string>)

  /** What the operating system says: the path that the process was started with, which paths lead to the running
      executable, where links lead, the digests of files, and which files carry the stamp of this runtime. */
  datatype Host = Host(
    invoked: string, runs: string -> bool, resolve: string -> string, digests: string -> string, stamped: string -> bool)

  /** `verify_running_executable`. A path that is not absolute, such as an empty one, is refused. */
  predicate Runs(host: Host, path: string) {
    path != "" && host.runs(path)
  }

  predicate Blank(s: string) {
    forall i :: 0 <= i < |s| ==> s[i] in {' ', '\t', '\n', '\r'}
  }

  predicate KeepsName(recorded: string, name: string) {
    recorded == "" || recorded == name
  }

  predicate SourceChanged(u: Update, h: Header) {
    !KeepsName(u.artifactName, h.artifactName) || !KeepsName(u.channel, h.channel) || !KeepsName(u.pkg, h.pkg)
  }

  predicate Initialized(u: Update) {
    u.executable != "" || u.artifactName != "" || u.digest != ""
  }

  // ---------------------------------------------------------------------
  // Reconciling
  // ---------------------------------------------------------------------

  /** What `reconcile_current` asks for. */
  datatype Request = Request(executable: string, ownership: Ownership, installation: Option<string>, instruction: Option<string>)

  /** The request that `reconcile_current` makes of the metadata that it has seen. */
  function RequestFor(seen: Meta, h: Header, host: Host): Request {
    if seen.update.Some? && seen.update.value.installation.Some? && seen.update.value.executable != "" then
      var u := seen.update.value;
      Request(u.executable, u.ownership, u.installation, u.instruction)
    else
      var ownership := if seen.update.Some? then seen.update.value.ownership else h.ownership;
      var instruction := if seen.update.Some? && seen.update.value.instruction.Some? then seen.update.value.instruction else h.instruction;
      Request(if ownership.Direct? then host.resolve(host.invoked) else host.invoked, ownership, None, instruction)
  }

  function Replacement(q: Request, h: Header, digest: string): Update {
    Update(q.executable, q.ownership, q.installation, h.artifactName, h.channel, h.pkg, h.build, digest, q.instruction, None)
  }

  predicate Unchanged(meta: Meta, u: Update, q: Request, h: Header, digest: string) {
    u == Replacement(q, h, digest).(pending := u.pending) && meta.version == h.version
  }

  /** `reconcile_current_executable`: the metadata afterwards, unless it refuses. */
  function Reconciled(meta: Meta, q: Request, h: Header, digest: string, host: Host): Option<Meta> {
    if host.digests(q.executable) != digest then None
    else if meta.update.Some? && meta.update.value.pending.Some? then
      var u := meta.update.value;
      if u.pending.value in {Protocol.Staged, Protocol.Cleanup} && Unchanged(meta, u, q, h, digest) && host.stamped(q.executable)
      then Some(meta) else None
    else if meta.update.Some? && SourceChanged(meta.update.value, h) then None
    else if meta.update.Some? && Initialized(meta.update.value) && meta.update.value.ownership.Direct?
            && meta.update.value.installation.Some? && !Unchanged(meta, meta.update.value, q, h, digest) then None
    else if !host.stamped(q.executable) then None
    else Some(Meta(h.version, Some(Replacement(q, h, digest))))
  }

  // ---------------------------------------------------------------------
  // Recording
  // ---------------------------------------------------------------------

  /** What the caller of `record_installation` says. */
  datatype Claim = Claim(executable: string, ownership: Ownership, installation: string, instruction: Option<string>)

  predicate ValidClaim(c: Claim) {
    && !Blank(c.installation)
    && (c.ownership.Direct? ==> c.instruction.None?)
    && (c.ownership.External? && c.instruction.Some? ==> !Blank(c.instruction.value))
  }

  /** The instruction that is recorded: an external installation that brings none keeps the one it has. */
  function RecordedInstruction(u: Update, c: Claim): Option<string> {
    if c.ownership.Direct? then None
    else if c.instruction.Some? then c.instruction
    else if u.ownership.External? then u.instruction
    else None
  }

  /** Whether the claim may take the place of `u`, for the executable at `path`. */
  predicate Admits(meta: Meta, u: Update, c: Claim, path: string, h: Header, host: Host) {
    && u.pending.None? && !SourceChanged(u, h)
    && !(u.ownership.External? && c.ownership.Direct?)
    && (u.installation.Some? && u.installation.value != c.installation ==> u.ownership.Direct? && c.ownership.External?)
    && (u.ownership.External? && u.installation.Some? ==> u.executable == path && u.instruction == RecordedInstruction(u, c))
    && Runs(host, path)
    && (Initialized(u) && u.ownership.Direct? && c.ownership.Direct? ==>
          && u.executable == path && u.artifactName == h.artifactName && u.channel == h.channel && u.pkg == h.pkg
          && u.build == h.build && u.digest == host.digests(path) && meta.version == h.version)
    && host.stamped(path)
  }

  /** `record_installation`: the metadata afterwards, unless it refuses. */
  function Recorded(meta: Meta, c: Claim, h: Header, host: Host): Option<Meta> {
    var path := if c.ownership.Direct? then host.resolve(c.executable) else c.executable;
    if !ValidClaim(c) || meta.update.None? || !Admits(meta, meta.update.value, c, path, h, host) then None
    else
      var instruction := RecordedInstruction(meta.update.value, c);
      Some(Meta(h.version, Some(Update(path, c.ownership, Some(c.installation), h.artifactName, h.channel, h.pkg, h.build,
                                       host.digests(path), instruction, None))))
  }

  // ---------------------------------------------------------------------
  // What may become of a record
  // ---------------------------------------------------------------------

  /** An external installation is never reclaimed, names that are recorded stay, and an external installation that is
      labelled stays what and where it is. */
  predicate Evolves(a: Meta, b: Meta) {
    a.update.Some? ==>
      && b.update.Some?
      && var u, v := a.update.value, b.update.value;
         && (u.ownership.External? ==> v.ownership.External?)
         && KeepsName(u.artifactName, v.artifactName) && KeepsName(u.channel, v.channel) && KeepsName(u.pkg, v.pkg)
         && (u.ownership.External? && u.installation.Some? ==>
               v.installation == u.installation && v.executable == u.executable && v.instruction == u.instruction)
  }

  /** A labelled installation has an executable. */
  predicate LabelHasExecutable(m: Meta) {
    m.update.Some? && m.update.value.installation.Some? ==> m.update.value.executable != ""
  }

  lemma EvolvesIsTransitive(a: Meta, b: Meta, c: Meta)
    requires Evolves(a, b) && Evolves(b, c)
    ensures Evolves(a, c)
  {
  }

  lemma RecordingEvolves(meta: Meta, c: Claim, h: Header, host: Host)
    requires Recorded(meta, c, h, host).Some?
    ensures Evolves(meta, Recorded(meta, c, h, host).value) && LabelHasExecutable(Recorded(meta, c, h, host).value)
  {
  }

  /** The record names the executable at `path`, which runs this process, with what the process is stamped with and with the
      digest of its file. */
  predicate Describes(m: Meta, path: string, ownership: Ownership, installation: Option<string>, h: Header, host: Host) {
    && m.version == h.version && m.update.Some?
    && var u := m.update.value;
       && u.executable == path && u.ownership == ownership && u.installation == installation
       && u.artifactName == h.artifactName && u.channel == h.channel && u.pkg == h.pkg && u.build == h.build
       && u.digest == host.digests(path) && host.stamped(path) && u.pending.None?
  }

  /** What is recorded is true of the executable; nothing is recorded while an update is pending, when updates are not
      configured, without a label, or with an instruction that is blank or of a direct installation; and nothing that is direct ever after it was external. An instruction is only recorded of an external
      installation, and kept if the claim brings none. */
  lemma RecordingDescribes(meta: Meta, c: Claim, h: Header, host: Host)
    ensures meta.update.None? || meta.update.value.pending.Some? ==> Recorded(meta, c, h, host) == None
    ensures Blank(c.installation) ==> Recorded(meta, c, h, host) == None
    ensures c.instruction.Some? && (c.ownership.Direct? || Blank(c.instruction.value)) ==> Recorded(meta, c, h, host) == None
    ensures Recorded(meta, c, h, host).Some? ==>
      var path, next := if c.ownership.Direct? then host.resolve(c.executable) else c.executable, Recorded(meta, c, h, host).value;
      && Runs(host, path) && Describes(next, path, c.ownership, Some(c.installation), h, host)
      && !(c.ownership.Direct? && meta.update.value.ownership.External?)
      && (c.ownership.Direct? ==> next.update.value.instruction.None?)
      && (c.ownership.External? && c.instruction.Some? ==> next.update.value.instruction == c.instruction)
      && (c.ownership.External? && c.instruction.None? ==>
            next.update.value.instruction == if meta.update.value.ownership.External? then meta.update.value.instruction else None)
  {
  }

  /** A directly managed installation is only recorded again as it is. */
  lemma DirectStaysAsItIs(meta: Meta, c: Claim, h: Header, host: Host)
    requires meta.update.Some? && meta.update.value.ownership.Direct?
    requires var u := meta.update.value; u.executable != "" || u.artifactName != "" || u.digest != ""
    requires c.ownership.Direct? && Recorded(meta, c, h, host).Some?
    ensures meta.version == h.version
    ensures Recorded(meta, c, h, host).value.update.value
            == meta.update.value.(installation := Some(c.installation), instruction := None)
  {
  }

  predicate IsLabelledDirect(u: Update) {
    && (u.executable != "" || u.artifactName != "" || u.digest != "")
    && u.ownership.Direct? && u.installation.Some?
  }

  /** What is reconciled is true of the executable. While an update is pending nothing changes, and it is refused unless the
      update is staged or to be cleaned up and the record describes the executable already; a labelled direct installation
      is refused unless it does. */
  lemma ReconcilingDescribes(meta: Meta, q: Request, h: Header, digest: string, host: Host)
    requires Reconciled(meta, q, h, digest, host).Some?
    ensures var next := Reconciled(meta, q, h, digest, host).value;
            && host.digests(q.executable) == digest && next.update.Some?
            && Describes(next.(update := Some(next.update.value.(pending := None))), q.executable, q.ownership, q.installation, h, host)
            && next.update.value.instruction == q.instruction
            && (if meta.update.Some? && meta.update.value.pending.Some?
                then next == meta && meta.update.value.pending.value in {Protocol.Staged, Protocol.Cleanup}
                else next.update.value.pending.None?)
            && (meta.update.Some? && IsLabelledDirect(meta.update.value) ==> next == meta)
  {
  }

  /** Reconciling succeeds exactly when the digest is right, the file carries the stamp, no recorded name changes, and what is
      pending, or labelled and direct, describes the executable already. */
  lemma ReconcilesIff(meta: Meta, q: Request, h: Header, digest: string, host: Host)
    ensures Reconciled(meta, q, h, digest, host).Some?
            <==> && host.digests(q.executable) == digest && host.stamped(q.executable)
                 && (meta.update.Some? ==>
                      var u := meta.update.value;
                      && KeepsName(u.artifactName, h.artifactName) && KeepsName(u.channel, h.channel) && KeepsName(u.pkg, h.pkg)
                      && (u.pending.Some? ==> u.pending.value in {Protocol.Staged, Protocol.Cleanup})
                      && (u.pending.Some? || IsLabelledDirect(u) ==>
                            meta == Meta(h.version, Some(Update(q.executable, q.ownership, q.installation, h.artifactName, h.channel, h.pkg,
                                                                h.build, digest, q.instruction, u.pending)))))
  {
  }

  /** Whether a request still does justice to the metadata that the lock was taken with. */
  predicate StillValid(now: Meta, q: Request) {
    now.update.Some? && now.update.value.ownership.External? ==>
      q.ownership.External? && (now.update.value.installation.Some? ==> q.installation.Some?)
  }

  /** When metadata that was seen has evolved meanwhile, reconciling lets it evolve further exactly if the request is
      still valid. */
  lemma ReconcilingEvolvesIff(seen: Meta, now: Meta, h: Header, digest: string, host: Host)
    requires Evolves(seen, now) && Reconciled(now, RequestFor(seen, h, host), h, digest, host).Some?
    ensures Evolves(now, Reconciled(now, RequestFor(seen, h, host), h, digest, host).value)
            <==> StillValid(now, RequestFor(seen, h, host))
  {
  }

  /** What is asked for: a labelled installation stays what it is. Any other keeps its ownership and instruction, or gets those
      of the stamp; a direct one is named by the file itself, an external one by the path that it was started with. */
  lemma RequestKeeps(seen: Meta, h: Header, host: Host)
    ensures var q := RequestFor(seen, h, host);
            match seen.update
            case None =>
              && q.ownership == h.ownership && q.instruction == h.instruction && q.installation.None?
              && q.executable == (match h.ownership case Direct => host.resolve(host.invoked) case External => host.invoked)
            case Some(u) =>
              && q.ownership == u.ownership
              && (u.installation.Some? && u.executable != "" ==>
                    q.executable == u.executable && q.installation == u.installation && q.instruction == u.instruction)
              && (u.installation.None? || u.executable == "" ==>
                    && q.installation.None? && (u.instruction.Some? ==> q.instruction == u.instruction)
                    && (u.instruction.None? ==> q.instruction == h.instruction)
                    && q.executable == match u.ownership case Direct => host.resolve(host.invoked) case External => host.invoked)
  {
  }

  /** A request of the metadata at hand is valid. */
  lemma FreshRequestIsValid(now: Meta, h: Header, host: Host)
    requires LabelHasExecutable(now)
    ensures StillValid(now, RequestFor(now, h, host))
  {
  }

  // ---------------------------------------------------------------------
  // Runs
  // ---------------------------------------------------------------------

  datatype Step =
    | Reconcile(seen: Meta, h: Header, digest: string, host: Host)
    | Record(claim: Claim, h: Header, host: Host)
    | Progress

  /** The steps of an executable update change the version, build and digest, and what is pending. */
  predicate Progresses(a: Meta, b: Meta) {
    && a.update.Some? && b.update.Some?
    && b.update.value == a.update.value.(build := b.update.value.build, digest := b.update.value.digest, pending := b.update.value.pending)
  }

  /** The metadata after a bootstrap and each change of it, made under the lock. */
  datatype History = Start(meta: Meta) | After(before: History, step: Step, now: Meta) {
    function Last(): Meta {
      if Start? then meta else now
    }
  }

  ghost predicate Takes(h: History, step: Step, next: Meta) {
    match step
    case Reconcile(seen, header, digest, host) =>
      && Occurs(seen, h) && Runs(host, RequestFor(seen, header, host).executable)
      && Reconciled(h.Last(), RequestFor(seen, header, host), header, digest, host) == Some(next)
    case Record(claim, header, host) => Recorded(h.Last(), claim, header, host) == Some(next)
    case Progress => Progresses(h.Last(), next)
  }

  ghost predicate Occurs(m: Meta, h: History) {
    h.Last() == m || (h.After? && Occurs(m, h.before))
  }

  /** `h` is `g` followed by further steps. */
  ghost predicate Continues(g: History, h: History) {
    g == h || (h.After? && Continues(g, h.before))
  }

  lemma {:induction false} ContinuesIsTransitive(f: History, g: History, h: History)
    requires Continues(f, g) && Continues(g, h)
    ensures Continues(f, h)
  {
    if g != h {
      ContinuesIsTransitive(f, g, h.before);
    }
  }

  /** What has occurred stays so. */
  lemma {:induction false} OccursLater(m: Meta, g: History, h: History)
    requires Continues(g, h) && Occurs(m, g)
    ensures Occurs(m, h)
  {
    if g != h {
      OccursLater(m, g, h.before);
    }
  }

  ghost predicate Legal(h: History) {
    match h
    case Start(meta) => LabelHasExecutable(meta)
    case After(before, step, now) => Legal(before) && Takes(before, step, now)
  }

  /** No request was overtaken by a change of ownership. */
  ghost predicate Timely(h: History) {
    h.After? ==> Timely(h.before) && (h.step.Reconcile? ==> StillValid(h.before.Last(), RequestFor(h.step.seen, h.step.h, h.step.host)))
  }

  /** In a timely run, metadata that was recorded once has evolved into what is recorded now. */
  lemma {:induction false} TimelyRunsEvolve(h: History, m: Meta)
    requires Legal(h) && Timely(h) && Occurs(m, h)
    ensures Evolves(m, h.Last())
    decreases h, 1
  {
    if h.After? && m != h.Last() {
      TimelyRunsEvolve(h.before, m);
      StepEvolves(h);
      EvolvesIsTransitive(m, h.before.Last(), h.Last());
    }
  }

  lemma {:induction false} StepEvolves(h: History)
    requires h.After? && Legal(h) && Timely(h)
    ensures Evolves(h.before.Last(), h.Last())
    decreases h, 0
  {
    if h.step.Reconcile? {
      TimelyRunsEvolve(h.before, h.step.seen);
      ReconcilingEvolvesIff(h.step.seen, h.before.Last(), h.step.h, h.step.digest, h.step.host);
    }
  }

  /** In every run, timely or not, a labelled installation has an executable. */
  lemma {:induction false} LabelsHaveExecutables(h: History, m: Meta)
    requires Legal(h) && Occurs(m, h)
    ensures LabelHasExecutable(m)
  {
    if h.After? {
      if m != h.Last() {
        LabelsHaveExecutables(h.before, m);
      } else {
        assert Occurs(h.before.Last(), h.before);
        LabelsHaveExecutables(h.before, h.before.Last());
      }
    }
  }

  /** When metadata is read under the lock, runs are timely. */
  ghost predicate Serial(h: History) {
    h.After? ==> Serial(h.before) && (h.step.Reconcile? ==> h.step.seen == h.before.Last())
  }

  lemma {:induction false} SerialRunsAreTimely(h: History)
    requires Legal(h) && Serial(h)
    ensures Timely(h)
  {
    if h.After? {
      SerialRunsAreTimely(h.before);
      if h.step.Reconcile? {
        LabelsHaveExecutables(h.before, h.before.Last());
        FreshRequestIsValid(h.before.Last(), h.step.h, h.step.host);
      }
    }
  }

  /** A package manager records an external installation between the read and the lock of a process that starts up:
      the record ends up direct and without its label. */
  lemma ExternalCanBecomeDirect() returns (h: History)
    ensures Legal(h) && h.After?
    ensures h.before.Last().update.Some? && h.before.Last().update.value.ownership.External? && h.before.Last().update.value.installation.Some?
    ensures h.Last().update.Some? && h.Last().update.value.ownership.Direct? && h.Last().update.value.installation.None?
  {
    var header := Header("2", "demo", "channel", "demo", 1, Direct, None);
    var host := Host("/opt/demo", path => path == "/opt/demo", path => path, path => "digest", path => true);
    var unclaimed := Meta("1", Some(Update("", Direct, None, "", "channel", "demo", 0, "", None, None)));
    var claim := Claim("/opt/demo", External, "package-manager", None);
    h := Start(unclaimed);
    assert !Blank(claim.installation) by { assert claim.installation[0] == 'p'; }
    h := After(h, Record(claim, header, host), Recorded(unclaimed, claim, header, host).value);
    h := After(h, Reconcile(unclaimed, header, "digest", host),
               Reconciled(h.Last(), RequestFor(unclaimed, header, host), header, "digest", host).value);
  }
}
