/** The operations that change the installation record (`src/executable_update.rs`, `src/runtime_update.rs`), on the
    metadata journal. Every change that they make is a step of `InstallationRecord`. */
module InstallationStore {
  import opened Wrappers
  import opened InstallationRecord
  import Journal = MetadataJournal
  import Protocol = UpdateProtocol

  datatype Failure = Io | Refused

  /** The metadata names the release that the running executable is stamped with. */
  predicate UpToDate(m: Meta, h: Header)
    requires m.update.Some?
  {
    var u := m.update.value;
    u.artifactName == h.artifactName && u.channel == h.channel && u.pkg == h.pkg && u.build == h.build && m.version == h.version
  }

  /** Another process of the runtime: its stamp, its machine's answers, and the metadata that it has read. */
  datatype Peer = Peer(h: Header, host: Host, seen: Meta)

  ghost predicate HaveRead(peers: seq<Peer>, past: History) {
    forall i {:trigger peers[i]} :: 0 <= i < |peers| ==> Occurs(peers[i].seen, past)
  }

  lemma HaveReadLater(peers: seq<Peer>, g: History, h: History)
    requires HaveRead(peers, g) && Continues(g, h)
    ensures HaveRead(peers, h)
  {
    forall i | 0 <= i < |peers| ensures Occurs(peers[i].seen, h) {
      OccursLater(peers[i].seen, g, h);
    }
  }

  /** The metadata of one prefix after its bootstrap. The lock lets one operation change it at a time; `faults` counts
      failed calls. */
  class InstallationMetadata {
    const journal: Journal.MetadataStore<Meta>
    ghost var past: History
    ghost var faults: nat

    ghost predicate Valid()
      reads this, journal
    {
      journal.Valid() && Journal.Committed(journal.disk) == Some(past.Last()) && Legal(past)
    }

    constructor (h: History, found: Journal.Files<Meta>)
      requires Legal(h) && Journal.Committed(found) == Some(h.Last())
      ensures Valid() && past == h && fresh(journal) && faults == 0
    {
      journal := new Journal.MetadataStore<Meta>(found);
      past := h;
      faults := 0;
    }

    /** `config::read_metadata_for`. */
    method Load() returns (r: Option<Meta>)
      requires Valid()
      modifies this, journal
      ensures Valid() && past == old(past)
      ensures r.Some? ==> r.value == past.Last() && !journal.disk.main.Absent?
      ensures faults == old(faults) + if r.Some? then 0 else 1
    {
      r := journal.Read();
      if r.None? {
        faults := faults + 1;
      }
    }

    /** `config::persist_metadata_for`: the old or the new metadata is committed, whatever fails. */
    method Save(next: Meta, ghost step: Step) returns (ok: bool)
      requires Valid() && !journal.disk.main.Absent? && Takes(past, step, next)
      modifies this, journal
      ensures Valid() && past in {old(past), After(old(past), step, next)}
      ensures ok ==> past.Last() == next && !journal.disk.main.Absent?
      ensures faults == old(faults) + if ok then 0 else 1
      ensures forall i :: |old(journal.trail)| <= i < |journal.trail| ==>
        Journal.Committed(journal.trail[i]) in {Some(old(past.Last())), Some(next)}
    {
      Journal.PersistIsAtomicIff(journal.disk, next);
      ok := journal.Persist(next);
      if Journal.Committed(journal.disk) == Some(next) {
        past := After(past, step, next);
      }
      if !ok {
        faults := faults + 1;
      }
    }

    /** `record_installation`: on success the claim is recorded and ownership has not been taken back; a refusal changes
        nothing. */
    method RecordInstallation(claim: Claim, h: Header, host: Host) returns (r: Result<Meta, Failure>)
      requires Valid()
      modifies this, journal
      ensures Valid() && Evolves(old(past.Last()), past.Last())
      ensures r.Ok? ==> past.Last() == r.value && r.value.update.Some?
      ensures r.Ok? ==>
        && r.value.update.value.ownership == claim.ownership && r.value.update.value.installation == Some(claim.installation)
        && r.value.update.value.executable != "" && r.value.update.value.pending.None?
      ensures r == Err(Refused) ==> past == old(past)
      ensures r.Ok? ==> Recorded(old(past.Last()), claim, h, host) == Some(r.value)
      ensures faults == old(faults) ==> (r.Ok? <==> Recorded(old(past.Last()), claim, h, host).Some?)
      ensures past.Last() != old(past.Last()) ==> Some(past.Last()) == Recorded(old(past.Last()), claim, h, host)
      ensures Continues(old(past), past) && (Timely(old(past)) ==> Timely(past))
      ensures faults >= old(faults)
    {
      if !ValidClaim(claim) { return Err(Refused); }
      var loaded := Load();
      if loaded.None? { return Err(Io); }
      var meta := loaded.value;
      if meta.update.None? || meta.update.value.pending.Some? { return Err(Refused); }
      var u := meta.update.value;
      if SourceChanged(u, h) { return Err(Refused); }
      if u.ownership.External? && claim.ownership.Direct? { return Err(Refused); }
      if u.installation.Some? && u.installation.value != claim.installation
         && !(u.ownership.Direct? && claim.ownership.External?) { return Err(Refused); }
      var path := if claim.ownership.Direct? then host.resolve(claim.executable) else claim.executable;
      if u.ownership.External? && u.installation.Some? && u.executable != path { return Err(Refused); }
      if !Runs(host, path) { return Err(Refused); }
      var digest := host.digests(path);
      if Initialized(u) && u.ownership.Direct? && claim.ownership.Direct?
         && (u.executable != path || u.artifactName != h.artifactName || u.channel != h.channel || u.pkg != h.pkg
             || u.build != h.build || u.digest != digest || meta.version != h.version) { return Err(Refused); }
      var instruction := RecordedInstruction(u, claim);
      if u.ownership.External? && u.installation.Some? && u.instruction != instruction { return Err(Refused); }
      if !host.stamped(path) { return Err(Refused); }
      var next := Meta(h.version, Some(Update(path, claim.ownership, Some(claim.installation), h.artifactName, h.channel, h.pkg,
                                              h.build, digest, instruction, None)));
      if meta == next { return Ok(meta); }
      RecordingEvolves(meta, claim, h, host);
      var ok := Save(next, Record(claim, h, host));
      r := if ok then Ok(next) else Err(Io);
    }

    /** `reconcile_current_executable`, with a request that was made of metadata `seen` earlier. */
    method ReconcileCurrentExecutable(ghost seen: Meta, q: Request, h: Header, digest: string, host: Host)
      returns (r: Result<Meta, Failure>)
      requires Valid() && Occurs(seen, past) && q == RequestFor(seen, h, host) && Runs(host, q.executable)
      modifies this, journal
      ensures Valid() && (r.Ok? ==> past.Last() == r.value)
      ensures r == Err(Refused) ==> past == old(past)
      ensures r.Ok? ==> Reconciled(old(past.Last()), q, h, digest, host) == Some(r.value)
      ensures faults == old(faults) ==> (r.Ok? <==> Reconciled(old(past.Last()), q, h, digest, host).Some?)
      ensures past.Last() != old(past.Last()) ==> Some(past.Last()) == Reconciled(old(past.Last()), q, h, digest, host)
      ensures Timely(old(past)) && StillValid(old(past.Last()), q) ==> Evolves(old(past.Last()), past.Last()) && Timely(past)
      ensures r.Ok? && r.value.update.Some? && r.value.update.value.pending.None? ==>
        && r.value.version == h.version && r.value.update == Some(Replacement(q, h, digest))
      ensures r.Ok? ==> r.value.update.Some?
      ensures past in {old(past), After(old(past), Reconcile(seen, h, digest, host), past.Last())}
      ensures faults >= old(faults)
    {
      if Timely(past) {
        TimelyRunsEvolve(past, seen);
      }
      var loaded := Load();
      if loaded.None? { return Err(Io); }
      var meta := loaded.value;
      if host.digests(q.executable) != digest { return Err(Refused); }
      if meta.update.Some? && meta.update.value.pending.Some? {
        var settled := meta.update.value.pending.value in {Protocol.Staged, Protocol.Cleanup};
        if !settled || !Unchanged(meta, meta.update.value, q, h, digest) || !host.stamped(q.executable) { return Err(Refused); }
        return Ok(meta);
      }
      if meta.update.Some? && SourceChanged(meta.update.value, h) { return Err(Refused); }
      if meta.update.Some? && Initialized(meta.update.value) && meta.update.value.ownership.Direct?
         && meta.update.value.installation.Some? && !Unchanged(meta, meta.update.value, q, h, digest) { return Err(Refused); }
      if !host.stamped(q.executable) { return Err(Refused); }
      var next := Meta(h.version, Some(Replacement(q, h, digest)));
      if meta == next { return Ok(meta); }
      var ok := Save(next, Reconcile(seen, h, digest, host));
      r := if ok then Ok(next) else Err(Io);
    }

    /** One step of another process. */
    method PeerStep(peer: Peer) returns (next: Peer)
      requires Valid() && Occurs(peer.seen, past)
      modifies this, journal
      ensures Valid() && Continues(old(past), past) && Occurs(next.seen, past) && faults >= old(faults)
    {
      next := peer;
      var action: nat := *;
      if action == 0 {
        var loaded := Load();
        if loaded.Some? {
          next := peer.(seen := loaded.value);
        }
      } else if action == 1 {
        var q, digest: string := RequestFor(peer.seen, peer.h, peer.host), *;
        if Runs(peer.host, q.executable) {
          var _ := ReconcileCurrentExecutable(peer.seen, q, peer.h, digest, peer.host);
        }
      } else if action == 2 {
        var executable: string, installation: string, instruction: Option<string>, external: bool := *, *, *, *;
        var claim := Claim(executable, if external then External else Direct, installation, instruction);
        var _ := RecordInstallation(claim, peer.h, peer.host);
      } else {
        UpdateStep();
      }
      OccursLater(peer.seen, old(past), past);
    }

    /** A step of an executable update. */
    method UpdateStep()
      requires Valid()
      modifies this, journal
      ensures Valid() && Continues(old(past), past) && faults >= old(faults)
    {
      var version: string, build: nat, digest: string, phase: Option<Protocol.Phase> := *, *, *, *;
      var loaded := Load();
      if loaded.Some? && loaded.value.update.Some? {
        var next := Meta(version, Some(loaded.value.update.value.(build := build, digest := digest, pending := phase)));
        var _ := Save(next, Progress);
      }
    }

    /** Other processes may do anything while this one is between its read and the lock. */
    method Interfere(peers: seq<Peer>) returns (later: seq<Peer>)
      requires Valid() && HaveRead(peers, past)
      modifies this, journal
      ensures Valid() && Continues(old(past), past) && HaveRead(later, past) && faults >= old(faults)
    {
      later := peers;
      var n: nat := *;
      while n > 0
        invariant Valid() && Continues(old(past), past) && HaveRead(later, past) && faults >= old(faults)
      {
        var i: nat := *;
        if 0 <= i < |later| {
          ghost var before := past;
          var peer := PeerStep(later[i]);
          HaveReadLater(later, before, past);
          ContinuesIsTransitive(old(past), before, past);
          later := later[i := peer];
        }
        n := n - 1;
      }
    }

    /** What a process that has seen `seen` does to a run that nobody else has made untimely: if its request is still
        valid when it takes the lock, the run stays timely and the record evolves; and only then, if it changes anything. */
    ghost predicate ReconcilesAt(seen: Meta, h: Header, host: Host, atLock: History)
      reads this
    {
      && Occurs(seen, atLock)
      && (past == atLock || (past.After? && past.before == atLock && past.step.Reconcile?
                             && past.step.seen == seen && past.step.h == h && past.step.host == host))
      && (Timely(atLock) && StillValid(atLock.Last(), RequestFor(seen, h, host)) ==> Timely(past) && Evolves(seen, past.Last()))
      && (Timely(past) && past != atLock ==> StillValid(atLock.Last(), RequestFor(seen, h, host)))
    }

    /** What `reconcile_current` asks for, of metadata that it has seen, is granted. */
    static predicate Grants(now: Meta, seen: Meta, h: Header, host: Host) {
      var q := RequestFor(seen, h, host);
      Runs(host, q.executable) && Reconciled(now, q, h, host.digests(q.executable), host).Some?
    }

    /** `reconcile_current`: the metadata is read without the lock, and may have changed when the lock is taken. `atLock` is
        the history at that moment. */
    method ReconcileCurrent(h: Header, host: Host, peers: seq<Peer>) returns (r: Result<Meta, Failure>, ghost seen: Meta, ghost atLock: History)
      requires Valid() && HaveRead(peers, past)
      modifies this, journal
      ensures Valid() && Continues(old(past), atLock) && Continues(atLock, past)
      ensures seen == old(past.Last()) && ReconcilesAt(seen, h, host, atLock)
      ensures r.Ok? ==> past.Last() == r.value && r.value.update.Some?
      ensures r.Ok? && r.value.update.value.pending.None? ==> UpToDate(r.value, h)
      ensures past.Last() != atLock.Last() ==>
        Reconciled(atLock.Last(), RequestFor(seen, h, host), h, host.digests(RequestFor(seen, h, host).executable), host) == Some(past.Last())
      ensures faults >= old(faults) && (r.Ok? ==> Grants(atLock.Last(), seen, h, host))
      ensures faults == old(faults) ==> (r.Ok? <==> Grants(atLock.Last(), seen, h, host))
      ensures r == Err(Refused) ==> past == atLock
    {
      seen, atLock := past.Last(), past;
      if Timely(past) {
        TimelyRunsEvolve(past, seen);
      }
      var loaded := Load();
      if loaded.None? { return Err(Io), seen, atLock; }
      var q := RequestFor(loaded.value, h, host);
      if !Runs(host, q.executable) { return Err(Refused), seen, atLock; }
      var digest := host.digests(q.executable);
      var _ := Interfere(peers);
      atLock := past;
      OccursLater(seen, old(past), past);
      r := ReconcileCurrentExecutable(seen, q, h, digest, host);
      if Timely(atLock) {
        TimelyRunsEvolve(atLock, seen);
        if Evolves(atLock.Last(), past.Last()) {
          EvolvesIsTransitive(seen, atLock.Last(), past.Last());
        }
      }
    }

    /** There is nothing to initialize. */
    static predicate IsSettled(m: Meta, h: Header) {
      m.update.Some? && (m.update.value.pending.Some? || UpToDate(m, h))
    }

    /** `initialize_current`: nothing is done while an update is pending or when the record is up to date; otherwise the
        metadata is read again and reconciled. */
    method InitializeCurrent(h: Header, host: Host, peers: seq<Peer>) returns (ok: bool, ghost seen: Meta, ghost atLock: History)
      requires Valid() && HaveRead(peers, past)
      modifies this, journal
      ensures Valid() && Continues(old(past), atLock) && Continues(atLock, past) && ReconcilesAt(seen, h, host, atLock)
      ensures old(past.Last()).update.Some? && old(past.Last()).update.value.pending.Some? ==> past == old(past)
      ensures old(past.Last()).update.Some? && UpToDate(old(past.Last()), h) ==> past == old(past)
      ensures ok ==> past.Last().update.Some? && (past.Last().update.value.pending.None? ==> UpToDate(past.Last(), h))
      ensures faults == old(faults) ==> (ok <==> IsSettled(old(past.Last()), h) || Grants(atLock.Last(), seen, h, host))
    {
      seen, atLock := past.Last(), past;
      if Timely(past) {
        TimelyRunsEvolve(past, seen);
      }
      var loaded := Load();
      if loaded.None? { return false, seen, atLock; }
      var meta := loaded.value;
      if meta.update.Some? && (meta.update.value.pending.Some? || UpToDate(meta, h)) { return true, seen, atLock; }
      var later := Interfere(peers);
      ghost var before := past;
      var r;
      r, seen, atLock := ReconcileCurrent(h, host, later);
      ContinuesIsTransitive(old(past), before, atLock);
      ok := r.Ok?;
    }
  }
}
