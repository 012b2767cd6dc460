/** One pass over the load commands, as `read_macho_layout` makes it in `src/runtime_data.rs`: it collects ranges in
    lists, keeps minima and maxima, and compares neighbours of sorted lists. It decides what `MachO` declares. */
module MachOLayout {
  import opened Wrappers
  import opened Bytes
  import opened MachO

  /** From `start` up to `end`. */
  datatype Range = Range(start: nat, end: nat)

  // ---------------------------------------------------------------------
  // What one command contributes to the lists
  // ---------------------------------------------------------------------

  function RangeOf(offset: nat, len: nat): seq<Range> {
    if len == 0 then [] else [Range(offset, offset + len)]
  }

  function FileRange(c: Command): seq<Range> {
    if IsSegment(c) then RangeOf(FileOff(c), FileSize(c)) else []
  }

  function AddressRange(c: Command): seq<Range> {
    if IsSegment(c) then RangeOf(VmAddr(c), VmSize(c)) else []
  }

  function TableRange(c: Command, t: Table): seq<Range> {
    if t.offsetAt + 4 <= |c| && t.countAt + 4 <= |c| then RangeOf(Field(c, t.offsetAt, 4), Field(c, t.countAt, 4) * t.entryLen) else []
  }

  /** The ranges of the first `n` parts of a command. */
  function Gather(f: (Command, nat) -> seq<Range>, c: Command, n: nat): seq<Range> {
    if n == 0 then [] else Gather(f, c, n - 1) + f(c, n - 1)
  }

  function TableAt(c: Command, i: nat): seq<Range> {
    if |c| >= 8 && i < |TablesOf(Kind(c))| then TableRange(c, TablesOf(Kind(c))[i]) else []
  }

  function TableCount(c: Command): nat {
    if |c| >= 8 then |TablesOf(Kind(c))| else 0
  }

  /** The relocations of a section. */
  function RelocationsAt(c: Command, j: nat): seq<Range> {
    if HasSections(c) && j < SectionCount(c) then RangeOf(SectionAt(c, j).relocOffset, SectionAt(c, j).relocCount * 8) else []
  }

  function References(c: Command): seq<Range> {
    if HasSections(c) then Gather(RelocationsAt, c, SectionCount(c)) else Gather(TableAt, c, TableCount(c))
  }

  /** The part of the file that a section with code takes up. */
  function CodeAt(c: Command, j: nat): seq<Range> {
    if HasSections(c) && j < SectionCount(c) && HasBit(InitProt(c), EXECUTE) && SectionAt(c, j).InFile()
    then [Range(SectionAt(c, j).offset, SectionAt(c, j).End())] else []
  }

  function Executables(c: Command): seq<Range> {
    if HasSections(c) then Gather(CodeAt, c, SectionCount(c)) else []
  }

  function Lower(a: Option<nat>, b: Option<nat>): Option<nat> {
    if a.None? then b else if b.None? || a.value <= b.value then a else b
  }

  function StartAt(c: Command, j: nat): Option<nat> {
    if HasSections(c) && j < SectionCount(c) && SectionAt(c, j).InFile() && SectionAt(c, j).offset != 0
    then Some(SectionAt(c, j).offset) else None
  }

  /** The lowest offset among the first `n` parts of a command. */
  function Least(f: (Command, nat) -> Option<nat>, c: Command, n: nat): Option<nat> {
    if n == 0 then None else Lower(Least(f, c, n - 1), f(c, n - 1))
  }

  function FirstOf(c: Command): Option<nat> {
    if HasSections(c) then Least(StartAt, c, SectionCount(c)) else None
  }

  predicate IsCapability(c: Command, j: nat)
    requires HasSections(c) && j < SectionCount(c)
  {
    SectionAt(c, j).sectionName == CAPABILITY
  }

  predicate CapabilityBefore(c: Command, n: nat)
    requires HasSections(c) && n <= SectionCount(c)
  {
    exists j {:trigger IsCapability(c, j)} :: 0 <= j < n && IsCapability(c, j)
  }

  predicate HasCapability(c: Command) {
    HasSections(c) && CapabilityBefore(c, SectionCount(c))
  }

  // ---------------------------------------------------------------------
  // What the loop knows after some commands
  // ---------------------------------------------------------------------

  datatype Scan = Scan(
    files: seq<Range>, addresses: seq<Range>, references: seq<Range>, executable: seq<Range>, firstSection: Option<nat>,
    maxVmAddr: nat, maxFileOff: nat, linkedit: Option<nat>, signature: Option<nat>, entry: Option<nat>, platform: bool,
    texts: nat, dylinkers: nat, capability: bool)

  function Max(a: nat, b: nat): nat {
    if a >= b then a else b
  }

  function Collect(f: Command -> seq<Range>, cs: seq<Command>): seq<Range> {
    if cs == [] then [] else Collect(f, cs[..|cs| - 1]) + f(cs[|cs| - 1])
  }

  function FirstSection(cs: seq<Command>): Option<nat> {
    if cs == [] then None else Lower(FirstSection(cs[..|cs| - 1]), FirstOf(cs[|cs| - 1]))
  }

  function Highest(f: Command -> nat, cs: seq<Command>): nat {
    if cs == [] then 0 else Max(Highest(f, cs[..|cs| - 1]), f(cs[|cs| - 1]))
  }

  function Count(cs: seq<Command>, role: Role): nat {
    if cs == [] then 0 else Count(cs[..|cs| - 1], role) + if RoleOf(cs[|cs| - 1]) == role then 1 else 0
  }

  function AddressOf(c: Command): nat {
    if IsSegment(c) then VmAddr(c) else 0
  }

  function OffsetOf(c: Command): nat {
    if IsSegment(c) then FileOff(c) else 0
  }

  function EntryOffset(c: Command): nat {
    if |c| >= 16 then Field(c, 8, 8) else 0
  }

  predicate AnyCapability(cs: seq<Command>) {
    exists i {:trigger HasCapability(cs[i])} :: 0 <= i < |cs| && HasCapability(cs[i])
  }

  function EntryOf(cs: seq<Command>): Option<nat> {
    var entry := FindRole(cs, Entry);
    if entry.Some? then Some(EntryOffset(cs[entry.value])) else None
  }

  function ScanOf(cs: seq<Command>): Scan {
    Scan(Collect(FileRange, cs), Collect(AddressRange, cs), Collect(References, cs), Collect(Executables, cs), FirstSection(cs),
         Highest(AddressOf, cs), Highest(OffsetOf, cs), FindRole(cs, Linkedit), FindRole(cs, Signature),
         EntryOf(cs), FindRole(cs, Platform).Some?,
         Count(cs, Text), Count(cs, Dylinker), AnyCapability(cs))
  }

  /** What command number `k` adds. */
  function Next(st: Scan, c: Command, k: nat): Scan {
    var role := RoleOf(c);
    Scan(st.files + FileRange(c), st.addresses + AddressRange(c), st.references + References(c), st.executable + Executables(c),
         Lower(st.firstSection, FirstOf(c)), Max(st.maxVmAddr, AddressOf(c)), Max(st.maxFileOff, OffsetOf(c)),
         if role.Linkedit? then Some(k) else st.linkedit, if role.Signature? then Some(k) else st.signature,
         if role.Entry? then Some(EntryOffset(c)) else st.entry, st.platform || role.Platform?,
         st.texts + (if role.Text? then 1 else 0), st.dylinkers + (if role.Dylinker? then 1 else 0), st.capability || HasCapability(c))
  }

  lemma FoundLater(cs: seq<Command>, c: Command, role: Role)
    ensures FindRole(cs + [c], role) == if RoleOf(c) == role then Some(|cs|) else FindRole(cs, role)
  {
    assert (cs + [c])[..|cs|] == cs;
  }

  lemma EntryNext(cs: seq<Command>, c: Command)
    ensures EntryOf(cs + [c]) == if RoleOf(c) == Entry then Some(EntryOffset(c)) else EntryOf(cs)
  {
    FoundLater(cs, c, Entry);
  }

  lemma CollectNext(f: Command -> seq<Range>, cs: seq<Command>, c: Command)
    ensures Collect(f, cs + [c]) == Collect(f, cs) + f(c)
  {
    assert (cs + [c])[..|cs|] == cs;
  }

  lemma HighestNext(f: Command -> nat, cs: seq<Command>, c: Command)
    ensures Highest(f, cs + [c]) == Max(Highest(f, cs), f(c))
  {
    assert (cs + [c])[..|cs|] == cs;
  }

  lemma CountNext(cs: seq<Command>, c: Command, role: Role)
    ensures Count(cs + [c], role) == Count(cs, role) + if RoleOf(c) == role then 1 else 0
  {
    assert (cs + [c])[..|cs|] == cs;
  }

  lemma FirstNext(cs: seq<Command>, c: Command)
    ensures FirstSection(cs + [c]) == Lower(FirstSection(cs), FirstOf(c))
  {
    assert (cs + [c])[..|cs|] == cs;
  }

  lemma CapabilityNext(cs: seq<Command>, c: Command)
    ensures AnyCapability(cs + [c]) <==> AnyCapability(cs) || HasCapability(c)
  {
    var all := cs + [c];
    assert all[|cs|] == c;
    if i :| 0 <= i < |cs| && HasCapability(cs[i]) {
      assert HasCapability(all[i]);
    }
  }

  lemma ScanNext(cs: seq<Command>, c: Command)
    ensures ScanOf(cs + [c]) == Next(ScanOf(cs), c, |cs|)
  {
    CollectNext(FileRange, cs, c);
    CollectNext(AddressRange, cs, c);
    CollectNext(References, cs, c);
    CollectNext(Executables, cs, c);
    FirstNext(cs, c);
    HighestNext(AddressOf, cs, c);
    HighestNext(OffsetOf, cs, c);
    FoundLater(cs, c, Linkedit);
    FoundLater(cs, c, Signature);
    EntryNext(cs, c);
    FoundLater(cs, c, Platform);
    CountNext(cs, c, Text);
    CountNext(cs, c, Dylinker);
    CapabilityNext(cs, c);
  }

  // ---------------------------------------------------------------------
  // One turn of the loop
  // ---------------------------------------------------------------------

  predicate FieldsOk(c: Command)
    requires IsSegment(c)
  {
    && VmEnd(c) < U64_END && FileSize(c) <= VmSize(c) && FileEnd(c) < U64_END
    && ProtectionOk(c)
    && (IsText(c) ==> FileOff(c) == 0)
    && (IsLinkedit(c) ==> SectionCount(c) == 0)
  }

  predicate SectionPasses(c: Command, j: nat, fileLen: nat)
    requires HasSections(c) && j < SectionCount(c)
  {
    SectionOk(c, SectionAt(c, j)) && (SectionAt(c, j).InFile() ==> SectionAt(c, j).End() <= fileLen)
  }

  predicate SectionsPass(c: Command, n: nat, fileLen: nat)
    requires HasSections(c) && n <= SectionCount(c)
  {
    EachPasses(c, n, fileLen) && OneCapability(c, n)
  }

  predicate EachPasses(c: Command, n: nat, fileLen: nat)
    requires HasSections(c) && n <= SectionCount(c)
  {
    forall j {:trigger SectionPasses(c, j, fileLen)} :: 0 <= j < n ==> SectionPasses(c, j, fileLen)
  }

  predicate SegmentPasses(c: Command, tableEnd: nat, fileLen: nat) {
    && HasSections(c) && FieldsOk(c) && FileEnd(c) <= fileLen && (IsText(c) ==> tableEnd <= FileEnd(c))
    && SectionsPass(c, SectionCount(c), fileLen)
  }

  /** What the command may exist only once is there already. The source counts some kinds in a byte. */
  predicate Repeats(c: Command, st: Scan) {
    || (match RoleOf(c)
        case Plain => false
        case Platform => st.platform
        case Entry => st.entry.Some?
        case Dylinker => st.dylinkers >= 255
        case Text => st.texts >= 255
        case Linkedit => st.linkedit.Some?
        case Signature => st.signature.Some?)
    || (HasCapability(c) && st.capability)
  }

  /** The tests that one turn makes on a command. */
  predicate Passes(c: Command, tableEnd: nat, fileLen: nat, st: Scan) {
    && WellFormed(c)
    && (if Kind(c) == LC_SEGMENT_64 then SegmentPasses(c, tableEnd, fileLen) else OtherOk(c))
    && !Repeats(c, st)
  }

  /** `st` and the first `n` sections of a segment. */
  function WithSections(st: Scan, c: Command, n: nat): Scan
    requires HasSections(c) && n <= SectionCount(c)
  {
    st.(references := st.references + Gather(RelocationsAt, c, n), executable := st.executable + Gather(CodeAt, c, n),
        firstSection := Lower(st.firstSection, Least(StartAt, c, n)), capability := st.capability || CapabilityBefore(c, n))
  }

  function WithSection(st: Scan, c: Command, j: nat): Scan
    requires HasSections(c) && j < SectionCount(c)
  {
    st.(references := st.references + RelocationsAt(c, j), executable := st.executable + CodeAt(c, j),
        firstSection := Lower(st.firstSection, StartAt(c, j)), capability := st.capability || IsCapability(c, j))
  }

  lemma Regroup<T>(a: seq<T>, b: seq<T>, c: seq<T>)
    ensures a + (b + c) == (a + b) + c
  {
  }

  lemma CapabilityAt(c: Command, j: nat)
    requires HasSections(c) && j < SectionCount(c)
    ensures CapabilityBefore(c, j + 1) <==> CapabilityBefore(c, j) || IsCapability(c, j)
  {
    if CapabilityBefore(c, j) {
      var i :| 0 <= i < j && IsCapability(c, i);
    }
  }

  lemma NextSection(st: Scan, c: Command, j: nat)
    requires HasSections(c) && j < SectionCount(c)
    ensures WithSections(st, c, j + 1) == WithSection(WithSections(st, c, j), c, j)
  {
    Regroup(st.references, Gather(RelocationsAt, c, j), RelocationsAt(c, j));
    Regroup(st.executable, Gather(CodeAt, c, j), CodeAt(c, j));
    CapabilityAt(c, j);
  }

  /** What the section loop has tested after `n` sections. */
  predicate SectionsGo(c: Command, n: nat, fileLen: nat, capability: bool)
    requires HasSections(c) && n <= SectionCount(c)
  {
    SectionsPass(c, n, fileLen) && !(CapabilityBefore(c, n) && capability)
  }

  predicate OneCapability(c: Command, n: nat)
    requires HasSections(c) && n <= SectionCount(c)
  {
    forall i, j {:trigger IsCapability(c, i), IsCapability(c, j)} :: 0 <= i < j < n ==> !(IsCapability(c, i) && IsCapability(c, j))
  }

  lemma OneCapabilityNext(c: Command, j: nat)
    requires HasSections(c) && j < SectionCount(c)
    ensures OneCapability(c, j + 1) <==> OneCapability(c, j) && !(CapabilityBefore(c, j) && IsCapability(c, j))
  {
    if OneCapability(c, j + 1) && CapabilityBefore(c, j) {
      var i :| 0 <= i < j && IsCapability(c, i);
      assert !(IsCapability(c, i) && IsCapability(c, j));
    }
  }

  lemma EachPassesNext(c: Command, j: nat, fileLen: nat)
    requires HasSections(c) && j < SectionCount(c)
    ensures EachPasses(c, j + 1, fileLen) <==> EachPasses(c, j, fileLen) && SectionPasses(c, j, fileLen)
  {
  }

  lemma SectionsGoOn(c: Command, j: nat, fileLen: nat, capability: bool)
    requires HasSections(c) && j < SectionCount(c)
    ensures SectionsGo(c, j + 1, fileLen, capability)
            <==> SectionsGo(c, j, fileLen, capability) && SectionPasses(c, j, fileLen)
                 && !(IsCapability(c, j) && (capability || CapabilityBefore(c, j)))
  {
    CapabilityAt(c, j);
    OneCapabilityNext(c, j);
    EachPassesNext(c, j, fileLen);
  }

  lemma {:induction false} SectionsStop(c: Command, j: nat, n: nat, fileLen: nat, capability: bool)
    requires HasSections(c) && j <= n <= SectionCount(c) && !SectionsGo(c, j, fileLen, capability)
    ensures !SectionsGo(c, n, fileLen, capability)
  {
    if j < n {
      SectionsStop(c, j, n - 1, fileLen, capability);
      SectionsGoOn(c, n - 1, fileLen, capability);
    }
  }

  lemma NoSections(st: Scan, c: Command)
    requires HasSections(c)
    ensures WithSections(st, c, 0) == st
  {
    assert st.references + [] == st.references && st.executable + [] == st.executable;
  }

  /** The tests on one section record. */
  method CheckSection(c: Command, s: Section, fileLen: nat) returns (ok: bool)
    requires IsSegment(c)
    ensures ok <==> SectionOk(c, s) && (s.InFile() ==> s.End() <= fileLen)
  {
    if s.segmentName != c[8..24] { return false; }
    if s.addr + s.size >= U64_END { return false; }
    if s.size != 0 && (s.addr < VmAddr(c) || s.addr + s.size > VmEnd(c)) { return false; }
    if s.InFile() {
      if s.End() >= U64_END { return false; }
      if s.End() > fileLen || (s.size != 0 && (s.offset < FileOff(c) || s.End() > FileEnd(c))) { return false; }
    }
    if s.sectionName == CAPABILITY {
      if !IsText(c) || s.size != CAPABILITY_LEN || s.flags % 256 != 0 || s.relocCount != 0 { return false; }
      if exists i :: 0 <= i < |s.reserved| && s.reserved[i] != 0 { return false; }
    }
    ok := true;
  }

  /** A list after a range has been added that is not empty. */
  function Pushed(rs: seq<Range>, offset: nat, len: nat): seq<Range> {
    if len != 0 then rs + [Range(offset, offset + len)] else rs
  }

  lemma PushedIs(rs: seq<Range>, offset: nat, len: nat)
    ensures Pushed(rs, offset, len) == rs + RangeOf(offset, len)
  {
  }

  /** What one section adds. A section of `__LINKEDIT` would be a reference too, but that segment has none. */
  method AddSection(st: Scan, c: Command, j: nat) returns (next: Scan)
    requires HasSections(c) && j < SectionCount(c)
    ensures next == WithSection(st, c, j)
  {
    var s := SectionAt(c, j);
    next := st;
    if s.InFile() {
      if s.offset != 0 {
        next := next.(firstSection := Lower(next.firstSection, Some(s.offset)));
      }
      if HasBit(InitProt(c), EXECUTE) {
        next := next.(executable := next.executable + [Range(s.offset, s.End())]);
      }
    }
    next := next.(references := Pushed(next.references, s.relocOffset, s.relocCount * 8));
    if s.sectionName == CAPABILITY {
      next := next.(capability := true);
    }
    PushedIs(st.references, s.relocOffset, s.relocCount * 8);
    assert st.executable + [] == st.executable;
  }

  /** The loop over the sections of a segment. */
  method CheckSections(c: Command, fileLen: nat, st: Scan) returns (r: Option<Scan>)
    requires HasSections(c)
    ensures r.Some? <==> SectionsGo(c, SectionCount(c), fileLen, st.capability)
    ensures r.Some? ==> r.value == WithSections(st, c, SectionCount(c))
  {
    var next := st;
    NoSections(st, c);
    for j := 0 to SectionCount(c)
      invariant SectionsGo(c, j, fileLen, st.capability)
      invariant next == WithSections(st, c, j)
    {
      var ok := CheckSection(c, SectionAt(c, j), fileLen);
      SectionsGoOn(c, j, fileLen, st.capability);
      if !ok || (IsCapability(c, j) && next.capability) {
        SectionsStop(c, j + 1, SectionCount(c), fileLen, st.capability);
        return None;
      }
      NextSection(st, c, j);
      next := AddSection(next, c, j);
    }
    r := Some(next);
  }

  /** The tests on the fields of a segment. */
  method CheckFields(c: Command, tableEnd: nat, fileLen: nat) returns (ok: bool)
    requires IsSegment(c)
    ensures ok <==> FieldsOk(c) && FileEnd(c) <= fileLen && (IsText(c) ==> tableEnd <= FileEnd(c))
  {
    if VmEnd(c) >= U64_END { return false; }
    if !BitsWithin(InitProt(c), MaxProt(c)) { return false; }
    if (HasBit(InitProt(c), WRITE) || HasBit(MaxProt(c), WRITE)) && (HasBit(InitProt(c), EXECUTE) || HasBit(MaxProt(c), EXECUTE)) {
      return false;
    }
    if FileSize(c) > VmSize(c) { return false; }
    if FileEnd(c) >= U64_END { return false; }
    if FileEnd(c) > fileLen { return false; }
    if IsText(c) {
      if FileOff(c) != 0 || !(HasBit(InitProt(c), READ) && HasBit(InitProt(c), EXECUTE)) || HasBit(InitProt(c), WRITE)
         || FileEnd(c) < tableEnd {
        return false;
      }
    }
    if IsLinkedit(c) && (InitProt(c) != READ || MaxProt(c) != READ || SectionCount(c) != 0) { return false; }
    ok := true;
  }

  lemma SegmentRole(c: Command)
    requires IsSegment(c)
    ensures RoleOf(c) == if IsText(c) then Text else if IsLinkedit(c) then Linkedit else Plain
    ensures !(IsText(c) && IsLinkedit(c))
  {
    NotBoth(c);
  }

  /** One turn of the loop on a segment. */
  method CheckSegment(c: Command, k: nat, tableEnd: nat, fileLen: nat, st: Scan) returns (r: Option<Scan>)
    requires WellFormed(c) && Kind(c) == LC_SEGMENT_64
    ensures r.Some? <==> Passes(c, tableEnd, fileLen, st)
    ensures r.Some? ==> r.value == Next(st, c, k)
  {
    if |c| < SEGMENT_COMMAND_LEN { return None; }
    if |c| != SEGMENT_COMMAND_LEN + SECTION_LEN * SectionCount(c) { return None; }
    SegmentRole(c);
    var ok := CheckFields(c, tableEnd, fileLen);
    if !ok || (IsText(c) && st.texts >= 255) || (IsLinkedit(c) && st.linkedit.Some?) { return None; }
    r := CheckSections(c, fileLen, st);
    if r.None? { return None; }
    NextSegment(st, c, k);
    r := Some(WithSegment(r.value, c, k));
  }

  lemma NextSegment(st: Scan, c: Command, k: nat)
    requires HasSections(c)
    ensures Next(st, c, k) == WithSegment(WithSections(st, c, SectionCount(c)), c, k)
  {
    SegmentRole(c);
    PushedIs(st.files, FileOff(c), FileSize(c));
    PushedIs(st.addresses, VmAddr(c), VmSize(c));
  }

  /** What the segment itself adds. */
  function WithSegment(st: Scan, c: Command, k: nat): Scan
    requires IsSegment(c)
  {
    st.(files := Pushed(st.files, FileOff(c), FileSize(c)), addresses := Pushed(st.addresses, VmAddr(c), VmSize(c)),
        maxVmAddr := Max(st.maxVmAddr, VmAddr(c)), maxFileOff := Max(st.maxFileOff, FileOff(c)),
        texts := if IsText(c) then st.texts + 1 else st.texts, linkedit := if IsLinkedit(c) then Some(k) else st.linkedit)
  }

  /** The kinds of commands that may exist only once, and dynamic linkers, which are counted. */
  function RoleOfKind(c: Command): Role
    requires |c| >= 8
  {
    if Kind(c) == LC_CODE_SIGNATURE && |c| == SIGNATURE_COMMAND_LEN then Signature
    else if Kind(c) == LC_BUILD_VERSION || Kind(c) == LC_VERSION_MIN_MACOSX then Platform
    else if Kind(c) == LC_MAIN then Entry
    else if Kind(c) == LC_LOAD_DYLINKER then Dylinker
    else Plain
  }

  lemma OtherRole(c: Command)
    requires WellFormed(c) && Kind(c) != LC_SEGMENT_64
    ensures RoleOf(c) == RoleOfKind(c) && !HasCapability(c)
  {
  }

  /** What a command adds that is not a segment. */
  function WithOther(st: Scan, c: Command, role: Role, references: seq<Range>, k: nat): Scan {
    st.(references := references, signature := if role.Signature? then Some(k) else st.signature,
        entry := if role.Entry? then Some(EntryOffset(c)) else st.entry, platform := st.platform || role.Platform?,
        dylinkers := st.dylinkers + (if role.Dylinker? then 1 else 0))
  }

  lemma NextOther(st: Scan, c: Command, k: nat)
    requires WellFormed(c) && Kind(c) != LC_SEGMENT_64
    ensures Next(st, c, k) == WithOther(st, c, RoleOf(c), st.references + Gather(TableAt, c, TableCount(c)), k)
  {
    OtherRole(c);
    assert st.files + [] == st.files && st.addresses + [] == st.addresses && st.executable + [] == st.executable;
  }

  /** The loop over the tables that a command names. */
  method AddTables(references: seq<Range>, c: Command) returns (r: seq<Range>)
    requires |c| >= 8
    requires forall i :: 0 <= i < |TablesOf(Kind(c))| ==> TablesOf(Kind(c))[i].offsetAt + 4 <= |c| && TablesOf(Kind(c))[i].countAt + 4 <= |c|
    ensures r == references + Gather(TableAt, c, TableCount(c))
  {
    var tables := TablesOf(Kind(c));
    r := references;
    assert references + [] == references;
    for i := 0 to |tables|
      invariant r == references + Gather(TableAt, c, i)
    {
      var t := tables[i];
      PushedIs(r, Field(c, t.offsetAt, 4), Field(c, t.countAt, 4) * t.entryLen);
      Regroup(references, Gather(TableAt, c, i), TableAt(c, i));
      r := Pushed(r, Field(c, t.offsetAt, 4), Field(c, t.countAt, 4) * t.entryLen);
    }
  }

  /** One turn of the loop on a command that refers to tables. */
  method CheckTables(c: Command, len: nat, k: nat, st: Scan) returns (r: Option<Scan>)
    requires WellFormed(c) && (|c| == len ==> OtherOk(c)) && (OtherOk(c) ==> |c| == len) && TablesOf(Kind(c)) != []
    requires forall i :: 0 <= i < |TablesOf(Kind(c))| ==> TablesOf(Kind(c))[i].offsetAt + 4 <= len && TablesOf(Kind(c))[i].countAt + 4 <= len
    ensures r.Some? <==> OtherOk(c) && !Repeats(c, st)
    ensures r.Some? ==> r.value == Next(st, c, k)
  {
    OtherRole(c);
    if |c| != len { return None; }
    var references := AddTables(st.references, c);
    NextOther(st, c, k);
    r := Some(st.(references := references));
  }

  /** One turn of the loop on a command that is neither a segment nor refers to tables. */
  method CheckPlain(c: Command, k: nat, st: Scan) returns (r: Option<Scan>)
    requires WellFormed(c) && Kind(c) != LC_SEGMENT_64 && TablesOf(Kind(c)) == []
    ensures r.Some? <==> OtherOk(c) && !Repeats(c, st)
    ensures r.Some? ==> r.value == Next(st, c, k)
  {
    var kind := Kind(c);
    OtherRole(c);
    NextOther(st, c, k);
    assert st.references + [] == st.references;
    if kind == LC_BUILD_VERSION {
      if st.platform { return None; }
      if |c| < 24 || |c| != 24 + 8 * Field(c, 20, 4) || Field(c, 8, 4) != PLATFORM_MACOS { return None; }
      r := Some(st.(platform := true));
    } else if kind == LC_VERSION_MIN_MACOSX {
      if st.platform || |c| != 16 { return None; }
      r := Some(st.(platform := true));
    } else if kind == LC_MAIN {
      if st.entry.Some? || |c| != 24 || Field(c, 16, 8) != 0 { return None; }
      r := Some(st.(entry := Some(Field(c, 8, 8))));
    } else if kind == LC_LOAD_DYLINKER {
      if |c| < 12 || TextAt(c, Field(c, 8, 4)) != Some(DYLD) || st.dylinkers >= 255 { return None; }
      r := Some(st.(dylinkers := st.dylinkers + 1));
    } else if kind in DYLIB_KINDS {
      if |c| < 24 || TextAt(c, Field(c, 8, 4)).None? || TextAt(c, Field(c, 8, 4)) == Some([]) { return None; }
      r := Some(st);
    } else if kind == LC_UUID {
      if |c| != 24 { return None; }
      r := Some(st);
    } else if kind == LC_SOURCE_VERSION {
      if |c| != 16 { return None; }
      r := Some(st);
    } else if kind == LC_CODE_SIGNATURE {
      if |c| != SIGNATURE_COMMAND_LEN || st.signature.Some? { return None; }
      r := Some(st.(signature := Some(k)));
    } else {
      return None;
    }
  }

  /** One turn of the loop. */
  method CheckCommand(c: Command, k: nat, tableEnd: nat, fileLen: nat, st: Scan) returns (r: Option<Scan>)
    requires |c| >= 8 && Field(c, 4, 4) == |c|
    ensures r.Some? <==> Passes(c, tableEnd, fileLen, st)
    ensures r.Some? ==> r.value == Next(st, c, k)
  {
    if |c| % 8 != 0 { return None; }
    SizeFits(c);
    var kind := Kind(c);
    if kind == LC_SEGMENT_64 {
      r := CheckSegment(c, k, tableEnd, fileLen, st);
    } else if kind == LC_DYLD_INFO || kind == LC_DYLD_INFO_ONLY {
      r := CheckTables(c, 48, k, st);
    } else if kind == LC_SYMTAB {
      r := CheckTables(c, 24, k, st);
    } else if kind == LC_DYSYMTAB {
      r := CheckTables(c, 80, k, st);
    } else if kind in LINKEDIT_DATA_KINDS {
      r := CheckTables(c, 16, k, st);
    } else {
      r := CheckPlain(c, k, st);
    }
  }

  lemma SizeFits(c: Command)
    requires |c| >= 8 && Field(c, 4, 4) == |c|
    ensures |c| < U32_END
  {
    ToFromLe(c[4..8]);
    Powers();
  }
}
