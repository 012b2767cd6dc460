/** Mach-O executables as `read_macho_layout` and `validate_macho_final_layout` in `src/runtime_data.rs` accept them:
    the header, the load commands as byte blocks whose fields are read from the bytes, and the rest of the file. */
module MachO {
  import opened Wrappers
  import opened Bytes

  const HEADER_LEN := 32
  const SIGNATURE_COMMAND_LEN := 16
  const SIGNATURE_ALIGNMENT := 16
  const SEGMENT_COMMAND_LEN := 72
  const SECTION_LEN := 80
  const MAX_TABLE_LEN := 1024 * 1024

  const LC_SYMTAB := 0x2
  const LC_DYSYMTAB := 0xb
  const LC_LOAD_DYLIB := 0xc
  const LC_LOAD_DYLINKER := 0xe
  const LC_SEGMENT_64 := 0x19
  const LC_UUID := 0x1b
  const LC_CODE_SIGNATURE := 0x1d
  const LC_LAZY_LOAD_DYLIB := 0x20
  const LC_DYLD_INFO := 0x22
  const LC_VERSION_MIN_MACOSX := 0x24
  const LC_SOURCE_VERSION := 0x2a
  const LC_BUILD_VERSION := 0x32
  const LC_LOAD_WEAK_DYLIB := 0x8000_0018
  const LC_REEXPORT_DYLIB := 0x8000_001f
  const LC_DYLD_INFO_ONLY := 0x8000_0022
  const LC_LOAD_UPWARD_DYLIB := 0x8000_0023
  const LC_MAIN := 0x8000_0028

  /** LC_SEGMENT_SPLIT_INFO, LC_FUNCTION_STARTS, LC_DATA_IN_CODE, LC_DYLIB_CODE_SIGN_DRS,
      LC_LINKER_OPTIMIZATION_HINT, LC_ATOM_INFO, LC_FUNCTION_VARIANTS, LC_FUNCTION_VARIANT_FIXUPS,
      LC_LAZY_LOAD_DYLIB_INFO, LC_DYLD_EXPORTS_TRIE and LC_DYLD_CHAINED_FIXUPS. */
  const LINKEDIT_DATA_KINDS: set<nat> := {0x1e, 0x26, 0x29, 0x2b, 0x2e, 0x36, 0x37, 0x38, 0x3a, 0x8000_0033, 0x8000_0034}

  const DYLIB_KINDS: set<nat> :=
    {LC_LOAD_DYLIB, LC_LOAD_WEAK_DYLIB, LC_REEXPORT_DYLIB, LC_LAZY_LOAD_DYLIB, LC_LOAD_UPWARD_DYLIB}

  const PLATFORM_MACOS := 1
  const READ := 1
  const WRITE := 2
  const EXECUTE := 4

  const MAGIC_64: seq<byte> := [0xcf, 0xfa, 0xed, 0xfe]
  const MH_EXECUTE := 2
  const MH_DYLDLINK := 0x4
  const MH_ALLOW_STACK_EXECUTION := 0x2_0000
  const MH_PIE := 0x20_0000
  const CPU_X86_64 := 0x0100_0007
  const CPU_ARM64 := 0x0100_000c

  /** `__TEXT`, `__LINKEDIT`, `/usr/lib/dyld` and the 16 bytes of `__cship_reader`. */
  const TEXT: seq<byte> := [95, 95, 84, 69, 88, 84]
  const LINKEDIT: seq<byte> := [95, 95, 76, 73, 78, 75, 69, 68, 73, 84]
  const DYLD: seq<byte> := [47, 117, 115, 114, 47, 108, 105, 98, 47, 100, 121, 108, 100]
  const CAPABILITY: seq<byte> := [95, 95, 99, 115, 104, 105, 112, 95, 114, 101, 97, 100, 101, 114, 0, 0]
  const CAPABILITY_LEN := 48

  // ---------------------------------------------------------------------
  // Load commands
  // ---------------------------------------------------------------------

  /** A load command: its kind and its size, four bytes each, and then its fields. */
  type Command = seq<byte>

  function Field(c: seq<byte>, at: nat, len: nat): nat
    requires at + len <= |c|
  {
    FromLe(c[at..at + len])
  }

  /** Whether a flag is set. */
  predicate HasBit(n: nat, bit: nat)
    requires bit > 0
  {
    n / bit % 2 == 1
  }

  /** Every flag of `a` is one of `b`. */
  predicate BitsWithin(a: nat, b: nat) {
    a == 0 || (a % 2 <= b % 2 && BitsWithin(a / 2, b / 2))
  }

  predicate WellFormed(c: Command) {
    && |c| >= 8 && |c| % 8 == 0 && |c| < U32_END
    && Field(c, 4, 4) == |c|
  }

  function Kind(c: Command): nat
    requires |c| >= 4
  {
    Field(c, 0, 4)
  }

  predicate IsSegment(c: Command) {
    |c| >= SEGMENT_COMMAND_LEN && Kind(c) == LC_SEGMENT_64
  }

  predicate IsSignature(c: Command) {
    |c| == SIGNATURE_COMMAND_LEN && Kind(c) == LC_CODE_SIGNATURE
  }

  /** A name in a field of 16 bytes ends at the first zero. */
  predicate IsNamed(c: Command, name: seq<byte>)
    requires |c| >= 24 && |name| < 16
  {
    c[8..8 + |name|] == name && c[8 + |name|] == 0
  }

  predicate IsText(c: Command) {
    IsSegment(c) && IsNamed(c, TEXT)
  }

  predicate IsLinkedit(c: Command) {
    IsSegment(c) && IsNamed(c, LINKEDIT)
  }

  function VmAddr(c: Command): nat requires IsSegment(c) { Field(c, 24, 8) }

  function VmSize(c: Command): nat requires IsSegment(c) { Field(c, 32, 8) }

  function VmEnd(c: Command): nat requires IsSegment(c) { VmAddr(c) + VmSize(c) }

  function FileOff(c: Command): nat requires IsSegment(c) { Field(c, 40, 8) }

  function FileSize(c: Command): nat requires IsSegment(c) { Field(c, 48, 8) }

  function FileEnd(c: Command): nat requires IsSegment(c) { FileOff(c) + FileSize(c) }

  function MaxProt(c: Command): nat requires IsSegment(c) { Field(c, 56, 4) }

  function InitProt(c: Command): nat requires IsSegment(c) { Field(c, 60, 4) }

  function SectionCount(c: Command): nat requires IsSegment(c) { Field(c, 64, 4) }

  function DataOff(c: Command): nat requires IsSignature(c) { Field(c, 8, 4) }

  function DataSize(c: Command): nat requires IsSignature(c) { Field(c, 12, 4) }

  /** The section records fill the command behind its own fields. */
  predicate HasSections(c: Command) {
    IsSegment(c) && |c| == SEGMENT_COMMAND_LEN + SECTION_LEN * SectionCount(c)
  }

  datatype Section = Section(
    sectionName: seq<byte>, segmentName: seq<byte>, addr: nat, size: nat, offset: nat, relocOffset: nat, relocCount: nat,
    flags: nat, reserved: seq<byte>)
  {
    /** Sections that are filled with zeros take up no part of the file. */
    predicate InFile() { flags % 256 !in {0x1, 0xc, 0x12} }

    function End(): nat { offset + size }
  }

  function SectionAt(c: Command, j: nat): Section
    requires HasSections(c) && j < SectionCount(c)
  {
    var s := c[SEGMENT_COMMAND_LEN + SECTION_LEN * j..SEGMENT_COMMAND_LEN + SECTION_LEN * j + SECTION_LEN];
    Section(s[..16], s[16..32], Field(s, 32, 8), Field(s, 40, 8), Field(s, 48, 4), Field(s, 56, 4), Field(s, 60, 4), Field(s, 64, 4),
            s[68..80])
  }

  // ---------------------------------------------------------------------
  // Checks on the bytes of one command
  // ---------------------------------------------------------------------

  predicate SectionOk(c: Command, s: Section)
    requires IsSegment(c)
  {
    && s.segmentName == c[8..24]
    && s.addr + s.size < U64_END && (s.InFile() ==> s.End() < U64_END)
    && (s.size != 0 ==> VmAddr(c) <= s.addr && s.addr + s.size <= VmEnd(c))
    && (s.InFile() && s.size != 0 ==> FileOff(c) <= s.offset && s.End() <= FileEnd(c))
    && (s.sectionName == CAPABILITY ==>
         && IsText(c) && s.size == CAPABILITY_LEN && s.flags % 256 == 0 && s.relocCount == 0
         && forall i :: 0 <= i < |s.reserved| ==> s.reserved[i] == 0)
  }

  predicate SegmentOk(c: Command)
    requires IsSegment(c)
  {
    && HasSections(c)
    && VmEnd(c) < U64_END && FileSize(c) <= VmSize(c) && FileEnd(c) < U64_END
    && ProtectionOk(c)
    && (IsText(c) ==> FileOff(c) == 0)
    && (IsLinkedit(c) ==> SectionCount(c) == 0)
    && (forall j :: 0 <= j < SectionCount(c) ==> SectionOk(c, SectionAt(c, j)))
    && (forall i, j :: 0 <= i < j < SectionCount(c) ==>
          !(SectionAt(c, i).sectionName == CAPABILITY && SectionAt(c, j).sectionName == CAPABILITY))
  }

  predicate ProtectionOk(c: Command)
    requires IsSegment(c)
  {
    && BitsWithin(InitProt(c), MaxProt(c))
    && !((HasBit(InitProt(c), WRITE) || HasBit(MaxProt(c), WRITE)) && (HasBit(InitProt(c), EXECUTE) || HasBit(MaxProt(c), EXECUTE)))
    && (IsText(c) ==> HasBit(InitProt(c), READ) && HasBit(InitProt(c), EXECUTE) && !HasBit(InitProt(c), WRITE))
    && (IsLinkedit(c) ==> InitProt(c) == READ && MaxProt(c) == READ)
  }

  /** The text at `at`, up to a zero byte. */
  function TextAt(c: seq<byte>, at: nat): Option<seq<byte>>
    decreases |c| - at
  {
    if at >= |c| then None
    else if c[at] == 0 then Some([])
    else
      match TextAt(c, at + 1)
      case None => None
      case Some(rest) => Some([c[at]] + rest)
  }

  /** The commands that are not segments. */
  predicate OtherOk(c: Command)
    requires WellFormed(c)
  {
    var kind := Kind(c);
    if kind == LC_BUILD_VERSION then
      |c| >= 24 && |c| == 24 + 8 * Field(c, 20, 4) && Field(c, 8, 4) == PLATFORM_MACOS
    else if kind == LC_VERSION_MIN_MACOSX || kind == LC_SOURCE_VERSION || kind == LC_CODE_SIGNATURE then |c| == 16
    else if kind == LC_MAIN then |c| == 24 && Field(c, 16, 8) == 0
    else if kind == LC_DYLD_INFO || kind == LC_DYLD_INFO_ONLY then |c| == 48
    else if kind == LC_SYMTAB || kind == LC_UUID then |c| == 24
    else if kind == LC_DYSYMTAB then |c| == 80
    else if kind in LINKEDIT_DATA_KINDS then |c| == 16
    else if kind == LC_LOAD_DYLINKER then |c| >= 12 && TextAt(c, Field(c, 8, 4)) == Some(DYLD)
    else if kind in DYLIB_KINDS then |c| >= 24 && TextAt(c, Field(c, 8, 4)).Some? && TextAt(c, Field(c, 8, 4)) != Some([])
    else false
  }

  predicate CommandOk(c: Command) {
    && WellFormed(c)
    && if Kind(c) == LC_SEGMENT_64 then IsSegment(c) && SegmentOk(c) else OtherOk(c)
  }

  /** What a file has exactly one of, and a signature, of which it has at most one. */
  datatype Role = Plain | Platform | Entry | Dylinker | Text | Linkedit | Signature

  const REQUIRED: set<Role> := {Platform, Entry, Dylinker, Text, Linkedit}

  function RoleOf(c: Command): Role {
    if IsText(c) then Text
    else if IsLinkedit(c) then Linkedit
    else if IsSignature(c) then Signature
    else if |c| < 8 then Plain
    else if Kind(c) == LC_BUILD_VERSION || Kind(c) == LC_VERSION_MIN_MACOSX then Platform
    else if Kind(c) == LC_MAIN then Entry
    else if Kind(c) == LC_LOAD_DYLINKER then Dylinker
    else Plain
  }

  // ---------------------------------------------------------------------
  // The file ranges that a command refers to
  // ---------------------------------------------------------------------

  /** Where a command keeps the offset and the count of a table, and the size of the table's entries. */
  datatype Table = Table(offsetAt: nat, countAt: nat, entryLen: nat)

  function TablesOf(kind: nat): seq<Table> {
    if kind == LC_DYLD_INFO || kind == LC_DYLD_INFO_ONLY then
      [Table(8, 12, 1), Table(16, 20, 1), Table(24, 28, 1), Table(32, 36, 1), Table(40, 44, 1)]
    else if kind == LC_SYMTAB then [Table(8, 12, 16), Table(16, 20, 1)]
    else if kind == LC_DYSYMTAB then
      [Table(32, 36, 8), Table(40, 44, 56), Table(48, 52, 4), Table(56, 60, 4), Table(64, 68, 8), Table(72, 76, 8)]
    else if kind in LINKEDIT_DATA_KINDS then [Table(8, 12, 1)]
    else []
  }

  predicate RangeInside(offset: nat, len: nat, start: nat, end: nat) {
    len != 0 ==> start <= offset && offset + len <= end
  }

  predicate TableInside(c: Command, t: Table, start: nat, end: nat) {
    t.offsetAt + 4 <= |c| && t.countAt + 4 <= |c| ==>
      RangeInside(Field(c, t.offsetAt, 4), Field(c, t.countAt, 4) * t.entryLen, start, end)
  }

  /** Everything that `c` refers to, relocations included, lies between `start` and `end`. */
  predicate Covered(c: Command, start: nat, end: nat) {
    && (|c| >= 8 ==> forall i :: 0 <= i < |TablesOf(Kind(c))| ==> TableInside(c, TablesOf(Kind(c))[i], start, end))
    && (HasSections(c) ==> forall j :: 0 <= j < SectionCount(c) ==>
          RangeInside(SectionAt(c, j).relocOffset, SectionAt(c, j).relocCount * 8, start, end))
  }

  // ---------------------------------------------------------------------
  // Checks on the whole table
  // ---------------------------------------------------------------------

  predicate RangesApart(a: nat, aLen: nat, b: nat, bLen: nat) {
    aLen == 0 || bLen == 0 || a + aLen <= b || b + bLen <= a
  }

  /** Two segments share neither file bytes nor addresses. */
  predicate Apart(a: Command, b: Command) {
    IsSegment(a) && IsSegment(b) ==>
      && RangesApart(FileOff(a), FileSize(a), FileOff(b), FileSize(b))
      && RangesApart(VmAddr(a), VmSize(a), VmAddr(b), VmSize(b))
  }

  predicate Compatible(a: Command, b: Command) {
    Apart(a, b) && (RoleOf(a) == RoleOf(b) ==> RoleOf(a).Plain?)
  }

  /** The entry point is in a section of a segment that can be executed. */
  predicate EntersAt(entry: Command, c: Command, j: nat) {
    && RoleOf(entry).Entry? && |entry| == 24
    && HasSections(c) && j < SectionCount(c) && HasBit(InitProt(c), EXECUTE)
    && SectionAt(c, j).InFile() && SectionAt(c, j).offset <= Field(entry, 8, 8) < SectionAt(c, j).End()
  }

  predicate EntersCommand(entry: Command, c: Command) {
    HasSections(c) && exists j {:trigger EntersAt(entry, c, j)} :: 0 <= j < SectionCount(c) && EntersAt(entry, c, j)
  }

  predicate HasEntry(cs: seq<Command>) {
    exists i {:trigger EntersSome(cs[i], cs)} :: 0 <= i < |cs| && EntersSome(cs[i], cs)
  }

  predicate EntersSome(entry: Command, cs: seq<Command>) {
    exists k {:trigger EntersCommand(entry, cs[k])} :: 0 <= k < |cs| && EntersCommand(entry, cs[k])
  }

  predicate HasRole(cs: seq<Command>, role: Role) {
    exists i {:trigger RoleOf(cs[i])} :: 0 <= i < |cs| && RoleOf(cs[i]) == role
  }

  /** The checks of `read_macho_layout` that do not depend on where the commands and the file end. */
  predicate Structured(cs: seq<Command>) {
    AllOk(cs) && AllCompatible(cs) && Complete(cs)
  }

  predicate AllOk(cs: seq<Command>) {
    forall i {:trigger CommandOk(cs[i])} :: 0 <= i < |cs| ==> CommandOk(cs[i])
  }

  predicate AllCompatible(cs: seq<Command>) {
    forall i, j {:trigger Compatible(cs[i], cs[j])} :: 0 <= i < j < |cs| ==> Compatible(cs[i], cs[j])
  }

  predicate Complete(cs: seq<Command>) {
    (forall role {:trigger HasRole(cs, role)} :: role in REQUIRED ==> HasRole(cs, role)) && HasEntry(cs)
  }

  /** A segment in a file of `fileLen` bytes whose load commands end at `tableEnd`. The source compares the lowest section
      offset only, which decides the same. */
  predicate Placed(c: Command, tableEnd: nat, fileLen: nat) {
    HasSections(c) ==>
      && FileEnd(c) <= fileLen
      && (IsText(c) ==> tableEnd <= FileEnd(c))
      && forall j :: 0 <= j < SectionCount(c) && SectionAt(c, j).InFile() ==>
           SectionAt(c, j).End() <= fileLen && (SectionAt(c, j).offset != 0 ==> tableEnd <= SectionAt(c, j).offset)
  }

  function Concat(cs: seq<Command>): seq<byte> {
    if cs == [] then [] else cs[0] + Concat(cs[1..])
  }

  function TableEnd(cs: seq<Command>): nat {
    HEADER_LEN + |Concat(cs)|
  }

  /** `read_macho_layout`, for the command table `cs` whose `__LINKEDIT` segment is number `m`. */
  predicate LayoutOk(cs: seq<Command>, fileLen: nat, m: nat) {
    && TableEnd(cs) <= fileLen && |Concat(cs)| <= MAX_TABLE_LEN
    && Structured(cs)
    && AllPlaced(cs, fileLen)
    && m < |cs| && IsLinkedit(cs[m])
    && AllCovered(cs, FileOff(cs[m]), FileEnd(cs[m]))
  }

  predicate AllPlaced(cs: seq<Command>, fileLen: nat) {
    forall i {:trigger Placed(cs[i], TableEnd(cs), fileLen)} :: 0 <= i < |cs| ==> Placed(cs[i], TableEnd(cs), fileLen)
  }

  predicate AllCovered(cs: seq<Command>, start: nat, end: nat) {
    forall i {:trigger Covered(cs[i], start, end)} :: 0 <= i < |cs| ==> Covered(cs[i], start, end)
  }

  /** `validate_macho_final_layout`: `__LINKEDIT` is last in the file and in memory, and a signature ends it. */
  predicate FinalOk(cs: seq<Command>, fileLen: nat, m: nat)
    requires m < |cs| && IsSegment(cs[m])
  {
    && FileEnd(cs[m]) == fileLen
    && AllBelow(cs, cs[m])
    && FileOff(cs[m]) >= TableEnd(cs)
    && forall k :: 0 <= k < |cs| && IsSignature(cs[k]) ==> SignatureOk(cs, fileLen, m, k)
  }

  predicate IsBelow(c: Command, linkedit: Command)
    requires IsSegment(linkedit)
  {
    IsSegment(c) ==> FileOff(c) <= FileOff(linkedit) && VmAddr(c) <= VmAddr(linkedit)
  }

  predicate AllBelow(cs: seq<Command>, linkedit: Command)
    requires IsSegment(linkedit)
  {
    forall i {:trigger IsBelow(cs[i], linkedit)} :: 0 <= i < |cs| ==> IsBelow(cs[i], linkedit)
  }

  predicate SignatureOk(cs: seq<Command>, fileLen: nat, m: nat, k: nat)
    requires m < |cs| && IsSegment(cs[m]) && k < |cs| && IsSignature(cs[k])
  {
    var c := cs[k];
    && DataSize(c) != 0 && DataOff(c) + DataSize(c) == fileLen
    && DataOff(c) >= FileOff(cs[m]) && DataOff(c) >= TableEnd(cs)
    && DataOff(c) % SIGNATURE_ALIGNMENT == 0
    && AllCovered(cs, 0, DataOff(c))
  }

  /** An executable for a supported processor. */
  predicate HeaderOk(h: seq<byte>) {
    && |h| == HEADER_LEN && h[..4] == MAGIC_64
    && Field(h, 12, 4) == MH_EXECUTE
    && HasBit(Field(h, 24, 4), MH_DYLDLINK) && HasBit(Field(h, 24, 4), MH_PIE)
    && !HasBit(Field(h, 24, 4), MH_ALLOW_STACK_EXECUTION)
    && ((Field(h, 4, 4) == CPU_X86_64 && Field(h, 8, 4) == 3) || (Field(h, 4, 4) == CPU_ARM64 && Field(h, 8, 4) == 0))
  }

  function PageLen(h: seq<byte>): nat
    requires |h| == HEADER_LEN
  {
    if Field(h, 4, 4) == CPU_X86_64 then 4 * 1024 else 16 * 1024
  }

  // ---------------------------------------------------------------------
  // Files
  // ---------------------------------------------------------------------

  datatype Image = Image(header: seq<byte>, commands: seq<Command>, body: seq<byte>) {
    function Bytes(): seq<byte> { header + Concat(commands) + body }
  }

  /** Reading the table: as many commands as the header counts, each as long as it says. */
  function ParseCommands(table: seq<byte>, count: nat): Option<seq<Command>>
    decreases count
  {
    if count == 0 then if table == [] then Some([]) else None
    else if |table| < 8 then None
    else
      var size := Field(table, 4, 4);
      if size < 8 || size > |table| then None
      else
        match ParseCommands(table[size..], count - 1)
        case None => None
        case Some(cs) => Some([table[..size]] + cs)
  }

  /** The header, the commands that it counts, and what follows them. */
  function ParseImage(file: seq<byte>): Option<Image> {
    if |file| < HEADER_LEN then None
    else
      var count, size := Field(file, 16, 4), Field(file, 20, 4);
      if size > MAX_TABLE_LEN || count > size / 8 || HEADER_LEN + size > |file| then None
      else
        match ParseCommands(file[HEADER_LEN..HEADER_LEN + size], count)
        case None => None
        case Some(cs) => Some(Image(file[..HEADER_LEN], cs, file[HEADER_LEN + size..]))
  }

  predicate CountsMatch(img: Image) {
    |img.header| == HEADER_LEN && Field(img.header, 16, 4) == |img.commands| && Field(img.header, 20, 4) == |Concat(img.commands)|
  }

  /** What the reader and the writer accept, with `__LINKEDIT` as command number `m`. */
  predicate AcceptedAt(img: Image, m: nat) {
    && HeaderOk(img.header) && CountsMatch(img)
    && LayoutOk(img.commands, |img.Bytes()|, m) && FinalOk(img.commands, |img.Bytes()|, m)
  }

  ghost predicate Accepted(img: Image) {
    exists m :: AcceptedAt(img, m)
  }

  // ---------------------------------------------------------------------
  // Lemmas about tables
  // ---------------------------------------------------------------------

  lemma {:induction false} ConcatAppends(a: seq<Command>, b: seq<Command>)
    ensures Concat(a + b) == Concat(a) + Concat(b)
  {
    if a == [] {
      assert a + b == b;
    } else {
      assert (a + b)[1..] == a[1..] + b;
      ConcatAppends(a[1..], b);
    }
  }

  lemma ConcatOne(c: Command)
    ensures Concat([c]) == c
  {
    assert [c][1..] == [];
    assert c + [] == c;
  }

  /** The table split at one of its commands. */
  lemma ConcatSplits(cs: seq<Command>, k: nat)
    requires k < |cs|
    ensures Concat(cs) == Concat(cs[..k]) + cs[k] + Concat(cs[k + 1..])
  {
    assert cs == cs[..k] + cs[k..];
    ConcatAppends(cs[..k], cs[k..]);
    assert cs[k..][1..] == cs[k + 1..];
    assert Concat(cs[k..]) == cs[k] + Concat(cs[k + 1..]);
  }

  lemma {:induction false} ParseConcat(cs: seq<Command>)
    requires forall i :: 0 <= i < |cs| ==> WellFormed(cs[i])
    ensures ParseCommands(Concat(cs), |cs|) == Some(cs)
  {
    if cs != [] {
      var table := Concat(cs);
      assert WellFormed(cs[0]);
      assert table[4..8] == cs[0][4..8];
      assert table[|cs[0]|..] == Concat(cs[1..]) && table[..|cs[0]|] == cs[0];
      ParseConcat(cs[1..]);
      assert [cs[0]] + cs[1..] == cs;
    }
  }

  /** Commands of at least 8 bytes cannot be more than an eighth of their table. */
  lemma {:induction false} CountFits(cs: seq<Command>)
    requires forall i :: 0 <= i < |cs| ==> WellFormed(cs[i])
    ensures 8 * |cs| <= |Concat(cs)|
  {
    if cs != [] {
      assert WellFormed(cs[0]);
      CountFits(cs[1..]);
    }
  }

  lemma OkCountFits(cs: seq<Command>)
    requires AllOk(cs)
    ensures 8 * |cs| <= |Concat(cs)|
  {
    forall i | 0 <= i < |cs| ensures WellFormed(cs[i]) {
      assert CommandOk(cs[i]);
    }
    CountFits(cs);
  }

  /** What an image is written as parses into the image. */
  lemma ParseInvertsBytes(img: Image)
    requires CountsMatch(img) && |Concat(img.commands)| <= MAX_TABLE_LEN
    requires forall i :: 0 <= i < |img.commands| ==> WellFormed(img.commands[i])
    ensures ParseImage(img.Bytes()) == Some(img)
  {
    var file, end := img.Bytes(), TableEnd(img.commands);
    assert file[16..20] == img.header[16..20] && file[20..24] == img.header[20..24];
    assert file[..HEADER_LEN] == img.header && file[HEADER_LEN..end] == Concat(img.commands) && file[end..] == img.body;
    CountFits(img.commands);
    ParseConcat(img.commands);
  }

  /** A file that parses consists of the parsed parts. */
  lemma {:induction false} ParsedConcat(table: seq<byte>, count: nat)
    requires ParseCommands(table, count).Some?
    ensures Concat(ParseCommands(table, count).value) == table
    decreases count
  {
    if count > 0 {
      var size := Field(table, 4, 4);
      ParsedConcat(table[size..], count - 1);
      var rest := ParseCommands(table[size..], count - 1).value;
      assert ([table[..size]] + rest)[1..] == rest;
      assert table == table[..size] + table[size..];
    }
  }

  lemma ThreeParts(s: seq<byte>, a: nat, b: nat)
    requires a <= b <= |s|
    ensures s[..a] + s[a..b] + s[b..] == s
  {
  }

  lemma ParseIsExact(file: seq<byte>)
    requires ParseImage(file).Some?
    ensures ParseImage(file).value.Bytes() == file
  {
    var size := Field(file, 20, 4);
    var table := file[HEADER_LEN..HEADER_LEN + size];
    ParsedConcat(table, Field(file, 16, 4));
    ThreeParts(file, HEADER_LEN, HEADER_LEN + size);
  }

  lemma {:induction false} ParsedSizes(table: seq<byte>, count: nat)
    requires ParseCommands(table, count).Some?
    ensures |ParseCommands(table, count).value| == count
    ensures AllSized(ParseCommands(table, count).value)
    decreases count
  {
    if count > 0 {
      var size := Field(table, 4, 4);
      ParsedSizes(table[size..], count - 1);
      assert table[..size][4..8] == table[4..8];
    }
  }

  /** Every command is as long as it says. */
  predicate AllSized(cs: seq<Command>) {
    forall i {:trigger cs[i]} :: 0 <= i < |cs| ==> |cs[i]| >= 8 && Field(cs[i], 4, 4) == |cs[i]|
  }

  /** What parsing tells about the parts of a file. */
  lemma ParsedFacts(file: seq<byte>)
    requires ParseImage(file).Some?
    ensures var img := ParseImage(file).value;
            && img.Bytes() == file && CountsMatch(img) && AllSized(img.commands)
            && TableEnd(img.commands) <= |file| && |Concat(img.commands)| <= MAX_TABLE_LEN
  {
    var count, size := Field(file, 16, 4), Field(file, 20, 4);
    var table := file[HEADER_LEN..HEADER_LEN + size];
    ParseIsExact(file);
    ParsedConcat(table, count);
    ParsedSizes(table, count);
    assert file[..HEADER_LEN][16..20] == file[16..20] && file[..HEADER_LEN][20..24] == file[20..24];
  }

  lemma RolesDiffer(cs: seq<Command>, i: nat, j: nat)
    requires AllCompatible(cs) && i < j < |cs|
    ensures RoleOf(cs[i]) == RoleOf(cs[j]) ==> RoleOf(cs[i]).Plain?
  {
    assert Compatible(cs[i], cs[j]);
  }

  /** A table cannot have two commands of one role. */
  lemma RoleIsUnique(cs: seq<Command>, i: nat, j: nat)
    requires AllCompatible(cs) && i < |cs| && j < |cs| && RoleOf(cs[i]) == RoleOf(cs[j]) != Plain
    ensures i == j
  {
    if i < j {
      RolesDiffer(cs, i, j);
    } else if j < i {
      RolesDiffer(cs, j, i);
    }
  }

  function FindRole(cs: seq<Command>, role: Role): (r: Option<nat>)
    ensures r.Some? ==> r.value < |cs| && RoleOf(cs[r.value]) == role
    ensures r.None? ==> forall i :: 0 <= i < |cs| ==> RoleOf(cs[i]) != role
  {
    if cs == [] then None
    else if RoleOf(cs[|cs| - 1]) == role then Some(|cs| - 1)
    else FindRole(cs[..|cs| - 1], role)
  }

  lemma LinkeditIsFound(img: Image, m: nat)
    requires AcceptedAt(img, m)
    ensures FindRole(img.commands, Linkedit) == Some(m)
  {
    RoleOfLinkedit(img.commands[m]);
    RoleIsUnique(img.commands, FindRole(img.commands, Linkedit).value, m);
  }

  /** No command is both `__TEXT` and `__LINKEDIT`. */
  lemma NotBoth(c: Command)
    requires |c| >= 24
    ensures !(IsNamed(c, TEXT) && IsNamed(c, LINKEDIT))
  {
    assert TEXT[2] != LINKEDIT[2];
    assert IsNamed(c, TEXT) ==> c[8..8 + |TEXT|][2] == TEXT[2];
    assert IsNamed(c, LINKEDIT) ==> c[8..8 + |LINKEDIT|][2] == LINKEDIT[2];
  }

  lemma RoleOfLinkedit(c: Command)
    requires IsLinkedit(c)
    ensures RoleOf(c) == Linkedit
  {
    NotBoth(c);
  }
}
