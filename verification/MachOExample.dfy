/** A family of executables, built byte by byte, on which the conditions of the stamp and of the signature decide
    differently. */
module MachOExample {
  import opened Wrappers
  import opened Bytes
  import opened RuntimeFooter
  import opened MachO
  import opened MachOEdit
  import opened MachOStamp
  import opened MachOSign
  import opened MachORoundTrip

  const CODE: seq<byte> := [95, 95, 67, 79, 68, 69]

  /** `__TEXT`, `__CODE` with one section, platform, entry point, dynamic linker and `__LINKEDIT` take 376 bytes. */
  const TABLE_END := 408
  const CODE_START := 424
  const FILE_LEN := 512
  const CODE_ADDR := 0x4000
  const CODE_ADDR_END := 0x5000
  const PAGE := 0x1000

  // ---------------------------------------------------------------------
  // Building commands
  // ---------------------------------------------------------------------

  lemma Piece(a: seq<byte>, b: seq<byte>, c: seq<byte>, at: nat, end: nat)
    requires at == |a| && end == |a| + |b|
    ensures (a + b + c)[at..end] == b
  {
  }

  lemma Number(s: seq<byte>, at: nat, len: nat, n: nat)
    requires at + len <= |s| && s[at..at + len] == ToLe(n, len) && n < Power256(len)
    ensures Field(s, at, len) == n
  {
    FromToLe(n, len);
  }

  /** Four numbers of the same length, one behind the other. */
  lemma FourNumbers(len: nat, n0: nat, n1: nat, n2: nat, n3: nat) returns (s: seq<byte>)
    requires n0 < Power256(len) && n1 < Power256(len) && n2 < Power256(len) && n3 < Power256(len)
    ensures |s| == 4 * len
    ensures Field(s, 0, len) == n0 && Field(s, len, len) == n1 && Field(s, 2 * len, len) == n2 && Field(s, 3 * len, len) == n3
  {
    var a, b, c, d := ToLe(n0, len), ToLe(n1, len), ToLe(n2, len), ToLe(n3, len);
    s := a + b + c + d;
    assert s[0..len] == a && s[len..2 * len] == b && s[2 * len..3 * len] == c && s[3 * len..4 * len] == d;
    Number(s, 0, len, n0);
    Number(s, len, len, n1);
    Number(s, 2 * len, len, n2);
    Number(s, 3 * len, len, n3);
  }

  lemma Inner(front: seq<byte>, s: seq<byte>, back: seq<byte>, at: nat, len: nat)
    requires at + len <= |s|
    ensures Field(front + s + back, |front| + at, len) == Field(s, at, len)
  {
    assert (front + s + back)[|front| + at..|front| + at + len] == s[at..at + len];
  }

  /** Kind and size of a command. */
  lemma Start(kind: u32, size: u32) returns (s: seq<byte>)
    ensures |s| == 8 && Field(s, 0, 4) == kind && Field(s, 4, 4) == size
  {
    var a, b := ToLe(kind, 4), ToLe(size, 4);
    s := a + b;
    assert s[0..4] == a && s[4..8] == b;
    Powers();
    Number(s, 0, 4, kind);
    Number(s, 4, 4, size);
  }

  type Name = s: seq<byte> | |s| == 16 witness Zeros(16)

  datatype Segment = Segment(vmAddr: u64, vmSize: u64, fileOff: u64, fileSize: u64, prot: u32)

  /** A segment command with `count` sections. */
  lemma MakeSegment(name: Name, g: Segment, count: u32, sections: seq<byte>) returns (c: Command)
    requires |sections| == SECTION_LEN * count && SEGMENT_COMMAND_LEN + |sections| < U32_END
    ensures WellFormed(c) && |c| == SEGMENT_COMMAND_LEN + |sections| && Kind(c) == LC_SEGMENT_64 && SectionCount(c) == count
    ensures c[8..24] == name && c[SEGMENT_COMMAND_LEN..] == sections
    ensures VmAddr(c) == g.vmAddr && VmSize(c) == g.vmSize && FileOff(c) == g.fileOff && FileSize(c) == g.fileSize
    ensures MaxProt(c) == g.prot && InitProt(c) == g.prot
  {
    Powers();
    var start := Start(LC_SEGMENT_64, SEGMENT_COMMAND_LEN + |sections|);
    var ranges := FourNumbers(8, g.vmAddr, g.vmSize, g.fileOff, g.fileSize);
    var rest := FourNumbers(4, g.prot, g.prot, count, 0);
    c := JoinSegment(start, name, ranges, rest, sections);
  }

  lemma JoinSegment(start: seq<byte>, name: Name, ranges: seq<byte>, rest: seq<byte>, sections: seq<byte>) returns (c: Command)
    requires |start| == 8 && |ranges| == 32 && |rest| == 16
    ensures |c| == SEGMENT_COMMAND_LEN + |sections|
    ensures Field(c, 0, 4) == Field(start, 0, 4) && Field(c, 4, 4) == Field(start, 4, 4)
    ensures c[8..24] == name && c[SEGMENT_COMMAND_LEN..] == sections
    ensures Field(c, 24, 8) == Field(ranges, 0, 8) && Field(c, 32, 8) == Field(ranges, 8, 8)
    ensures Field(c, 40, 8) == Field(ranges, 16, 8) && Field(c, 48, 8) == Field(ranges, 24, 8)
    ensures Field(c, 56, 4) == Field(rest, 0, 4) && Field(c, 60, 4) == Field(rest, 4, 4) && Field(c, 64, 4) == Field(rest, 8, 4)
  {
    c := start + name + ranges + rest + sections;
    assert c[0..4] == start[0..4] && c[4..8] == start[4..8];
    assert c == (start + name) + ranges + (rest + sections);
    Inner(start + name, ranges, rest + sections, 0, 8);
    Inner(start + name, ranges, rest + sections, 8, 8);
    Inner(start + name, ranges, rest + sections, 16, 8);
    Inner(start + name, ranges, rest + sections, 24, 8);
    Inner(start + name + ranges, rest, sections, 0, 4);
    Inner(start + name + ranges, rest, sections, 4, 4);
    Inner(start + name + ranges, rest, sections, 8, 4);
  }

  /** A section with nothing but a range. */
  lemma MakeSection(name: Name, segment: Name, addr: u64, size: u64, offset: u32) returns (s: seq<byte>)
    ensures |s| == SECTION_LEN && s[..16] == name && s[16..32] == segment
    ensures Field(s, 32, 8) == addr && Field(s, 40, 8) == size && Field(s, 48, 4) == offset
    ensures Field(s, 56, 4) == 0 && Field(s, 60, 4) == 0 && Field(s, 64, 4) == 0
  {
    Powers();
    var ranges := FourNumbers(8, addr, size, offset, 0);
    var low := FourNumbers(4, offset, 0, 0, 0);
    var high := FourNumbers(4, 0, 0, 0, 0);
    var front := name + segment + ranges[..16];
    assert ranges[..16][0..8] == ranges[0..8] && ranges[..16][8..16] == ranges[8..16];
    s := front + low + high;
    SectionParts(s, name, segment, ranges[..16], low, high);
  }

  lemma SectionParts(s: seq<byte>, name: Name, segment: Name, ranges: seq<byte>, low: seq<byte>, high: seq<byte>)
    requires |ranges| == 16 && |low| == 16 && |high| == 16 && s == name + segment + ranges + low + high
    ensures |s| == SECTION_LEN && s[..16] == name && s[16..32] == segment
    ensures Field(s, 32, 8) == Field(ranges, 0, 8) && Field(s, 40, 8) == Field(ranges, 8, 8) && Field(s, 48, 4) == Field(low, 0, 4)
    ensures Field(s, 56, 4) == Field(low, 8, 4) && Field(s, 60, 4) == Field(low, 12, 4) && Field(s, 64, 4) == Field(high, 0, 4)
  {
    assert s == (name + segment) + ranges + (low + high);
    Inner(name + segment, ranges, low + high, 0, 8);
    Inner(name + segment, ranges, low + high, 8, 8);
    Inner(name + segment + ranges, low, high, 0, 4);
    Inner(name + segment + ranges, low, high, 8, 4);
    Inner(name + segment + ranges, low, high, 12, 4);
    assert s[64..68] == high[0..4];
  }

  lemma MakeName(name: seq<byte>) returns (s: Name)
    requires |name| < 16
    ensures s[..|name|] == name && s[|name|] == 0
  {
    s := name + Zeros(16 - |name|);
  }

  lemma IsNamedBy(c: Command, s: Name, name: seq<byte>)
    requires |c| >= 24 && |name| < 16 && c[8..24] == s && s[..|name|] == name && s[|name|] == 0
    ensures IsNamed(c, name)
  {
    assert c[8..8 + |name|] == c[8..24][..|name|];
    assert c[8 + |name|] == c[8..24][|name|];
  }

  lemma IsNotNamed(c: Command, name: seq<byte>, other: seq<byte>)
    requires |c| >= 24 && IsNamedAs(c, name) && 2 < |name| < 16 && 2 < |other| < 16 && name[2] != other[2]
    ensures !IsNamed(c, other)
  {
    assert c[8..8 + |name|][2] == c[10];
    assert c[8..8 + |other|][2] == c[10];
  }

  predicate IsNamedAs(c: Command, name: seq<byte>)
    requires |c| >= 24
  {
    |name| < 16 && IsNamed(c, name)
  }

  // ---------------------------------------------------------------------
  // The commands
  // ---------------------------------------------------------------------

  lemma ReadAndExecute()
    ensures BitsWithin(5, 5) && BitsWithin(1, 1)
  {
  }

  /** `__TEXT`, over the first `len` bytes of the file. */
  predicate TextOf(c: Command, len: nat) {
    && IsText(c) && RoleOf(c) == Text && SectionCount(c) == 0 && |c| == SEGMENT_COMMAND_LEN
    && VmAddr(c) == 0 && VmSize(c) == CODE_ADDR && FileOff(c) == 0 && FileSize(c) == len
  }

  lemma MakeText(len: nat) returns (c: Command)
    requires len <= CODE_START
    ensures CommandOk(c) && TextOf(c, len)
  {
    var name := MakeName(TEXT);
    c := MakeSegment(name, Segment(0, CODE_ADDR, 0, len, READ + EXECUTE), 0, []);
    IsNamedBy(c, name, TEXT);
    NotBoth(c);
    ReadAndExecute();
  }

  /** An empty `__LINKEDIT` at an address. */
  predicate LinkeditOf(c: Command, vmAddr: nat) {
    && IsLinkedit(c) && !IsText(c) && RoleOf(c) == Linkedit && SectionCount(c) == 0 && |c| == SEGMENT_COMMAND_LEN
    && VmAddr(c) == vmAddr && VmSize(c) == 0 && FileOff(c) == FILE_LEN && FileSize(c) == 0
  }

  lemma MakeLinkedit(vmAddr: u64) returns (c: Command)
    ensures CommandOk(c) && LinkeditOf(c, vmAddr)
  {
    var name := MakeName(LINKEDIT);
    c := MakeSegment(name, Segment(vmAddr, 0, FILE_LEN, 0, READ), 0, []);
    IsNamedBy(c, name, LINKEDIT);
    NotBoth(c);
    ReadAndExecute();
  }

  /** A segment of 8 bytes, with a section of 4 at its start. */
  predicate CodeOf(c: Command) {
    && IsSegment(c) && !IsText(c) && !IsLinkedit(c) && RoleOf(c) == Plain && HasSections(c) && SectionCount(c) == 1
    && |c| == SEGMENT_COMMAND_LEN + SECTION_LEN && HasBit(InitProt(c), EXECUTE)
    && VmAddr(c) == CODE_ADDR && VmSize(c) == PAGE && FileOff(c) == CODE_START && FileSize(c) == 8
    && IsPlainSection(SectionAt(c, 0))
  }

  predicate IsPlainSection(s: Section) {
    s.addr == CODE_ADDR && s.size == 4 && s.offset == CODE_START && s.relocCount == 0 && s.flags == 0
  }

  lemma MakeCode() returns (c: Command)
    ensures CommandOk(c) && CodeOf(c)
  {
    var name := MakeName(CODE);
    var section := MakeSection(name, name, CODE_ADDR, 4, CODE_START);
    c := MakeSegment(name, Segment(CODE_ADDR, PAGE, CODE_START, 8, READ + EXECUTE), 1, section);
    IsNamedBy(c, name, CODE);
    IsNotNamed(c, CODE, TEXT);
    IsNotNamed(c, CODE, LINKEDIT);
    assert c[72..152] == section;
    assert SectionAt(c, 0).sectionName[..6][2] == CODE[2];
    CodeIsOk(c);
  }

  lemma CodeIsOk(c: Command)
    requires WellFormed(c) && CodeOf(c) && InitProt(c) == 5 && MaxProt(c) == 5
    requires SectionAt(c, 0).segmentName == c[8..24] && SectionAt(c, 0).sectionName != CAPABILITY
    ensures CommandOk(c)
  {
    ReadAndExecute();
  }

  predicate OtherOf(c: Command, kind: nat, role: Role, len: nat) {
    |c| == len && len >= 4 && Kind(c) == kind && RoleOf(c) == role
  }

  lemma MakePlatform() returns (c: Command)
    ensures CommandOk(c) && OtherOf(c, LC_BUILD_VERSION, Platform, 24)
  {
    Powers();
    var start := Start(LC_BUILD_VERSION, 24);
    var rest := FourNumbers(4, PLATFORM_MACOS, 0, 0, 0);
    c := start + rest;
    assert c == start + rest + [];
    Inner([], start, rest, 0, 4);
    Inner([], start, rest, 4, 4);
    assert [] + start + rest == c;
    Inner(start, rest, [], 0, 4);
    Inner(start, rest, [], 12, 4);
  }

  lemma MakeEntry() returns (c: Command)
    ensures CommandOk(c) && OtherOf(c, LC_MAIN, Entry, 24) && Field(c, 8, 8) == CODE_START
  {
    Powers();
    var start := Start(LC_MAIN, 24);
    var numbers := FourNumbers(8, CODE_START, 0, 0, 0);
    var rest := numbers[..16];
    assert rest[0..8] == numbers[0..8] && rest[8..16] == numbers[8..16];
    c := start + rest;
    assert c == start + rest + [];
    Inner([], start, rest, 0, 4);
    Inner([], start, rest, 4, 4);
    assert [] + start + rest == c;
    Inner(start, rest, [], 0, 8);
    Inner(start, rest, [], 8, 8);
  }

  lemma {:induction false} TextIs(c: seq<byte>, at: nat, text: seq<byte>)
    requires at + |text| < |c| && c[at..at + |text|] == text && c[at + |text|] == 0
    requires forall i :: 0 <= i < |text| ==> text[i] != 0
    ensures TextAt(c, at) == Some(text)
    decreases |text|
  {
    if text != [] {
      assert c[at] == c[at..at + |text|][0];
      assert c[at + 1..at + |text|] == c[at..at + |text|][1..];
      assert text == [text[0]] + text[1..];
      TextIs(c, at + 1, text[1..]);
    }
  }

  lemma MakeLinker() returns (c: Command)
    ensures CommandOk(c) && OtherOf(c, LC_LOAD_DYLINKER, Dylinker, 32)
  {
    Powers();
    var start := Start(LC_LOAD_DYLINKER, 32);
    var rest := FourNumbers(4, 12, 0, 0, 0);
    var name: seq<byte> := DYLD;
    c := start + rest[..4] + (name + Zeros(7));
    Inner([], start, rest[..4] + (name + Zeros(7)), 0, 4);
    Inner([], start, rest[..4] + (name + Zeros(7)), 4, 4);
    assert [] + start + (rest[..4] + (name + Zeros(7))) == c;
    assert c[8..12] == rest[0..4];
    assert c[12..12 + |name|] == name;
    TextIs(c, 12, name);
  }

  /** The header of a position independent executable for x86-64, counting 6 commands in 376 bytes. */
  predicate HeaderOf(h: seq<byte>) {
    |h| == HEADER_LEN && HeaderOk(h) && PageLen(h) == PAGE && Field(h, 16, 4) == 6 && Field(h, 20, 4) == TABLE_END - HEADER_LEN
  }

  lemma MakeHeader() returns (h: seq<byte>)
    ensures HeaderOf(h)
  {
    Powers();
    var magic: seq<byte> := MAGIC_64;
    var low := FourNumbers(4, 0, CPU_X86_64, 3, MH_EXECUTE);
    var high := FourNumbers(4, 6, TABLE_END - HEADER_LEN, MH_PIE + MH_DYLDLINK, 0);
    h := magic + low[4..] + high;
    assert h[4..8] == low[4..8] && h[8..12] == low[8..12] && h[12..16] == low[12..16];
    assert h[16..20] == high[0..4] && h[20..24] == high[4..8] && h[24..28] == high[8..12];
    assert h[..4] == magic;
  }

  // ---------------------------------------------------------------------
  // The templates
  // ---------------------------------------------------------------------

  const LINKEDIT_INDEX := 5

  predicate TableOf(cs: seq<Command>, vmAddr: nat, textLen: nat) {
    && |cs| == 6 && AllOk(cs)
    && TextOf(cs[0], textLen) && CodeOf(cs[1]) && OtherOf(cs[2], LC_BUILD_VERSION, Platform, 24)
    && OtherOf(cs[3], LC_MAIN, Entry, 24) && Field(cs[3], 8, 8) == CODE_START
    && OtherOf(cs[4], LC_LOAD_DYLINKER, Dylinker, 32) && LinkeditOf(cs[LINKEDIT_INDEX], vmAddr)
  }

  /** An executable whose `__LINKEDIT` is empty and at `vmAddr`, and whose `__TEXT` holds `textLen` bytes of the file. */
  predicate ExampleOf(img: Image, vmAddr: nat, textLen: nat) {
    && HeaderOf(img.header) && TableOf(img.commands, vmAddr, textLen)
    && |img.body| == FILE_LEN - TABLE_END && forall i :: 0 <= i < |img.body| ==> img.body[i] == 0
  }

  lemma SixAreOk(cs: seq<Command>)
    requires |cs| == 6 && CommandOk(cs[0]) && CommandOk(cs[1]) && CommandOk(cs[2]) && CommandOk(cs[3]) && CommandOk(cs[4]) && CommandOk(cs[5])
    ensures AllOk(cs)
  {
  }

  lemma MakeTable(vmAddr: u64, textLen: nat) returns (cs: seq<Command>)
    requires textLen <= CODE_START
    ensures TableOf(cs, vmAddr, textLen)
  {
    var text := MakeText(textLen);
    var code := MakeCode();
    var platform := MakePlatform();
    var entry := MakeEntry();
    var linker := MakeLinker();
    var linkedit := MakeLinkedit(vmAddr);
    cs := [text, code, platform, entry, linker, linkedit];
    SixAreOk(cs);
  }

  lemma MakeExample(vmAddr: u64, textLen: nat) returns (img: Image)
    requires textLen <= CODE_START
    ensures ExampleOf(img, vmAddr, textLen)
  {
    var header := MakeHeader();
    var table := MakeTable(vmAddr, textLen);
    var body: seq<byte> := Zeros(FILE_LEN - TABLE_END);
    img := Image(header, table, body);
  }

  lemma TableLen(cs: seq<Command>, vmAddr: nat, textLen: nat)
    requires TableOf(cs, vmAddr, textLen)
    ensures TableEnd(cs) == TABLE_END
  {
    assert cs[1..][1..] == cs[2..] && cs[2..][1..] == cs[3..] && cs[3..][1..] == cs[4..] && cs[4..][1..] == cs[5..] && cs[5..][1..] == cs[6..];
    assert |Concat(cs[3..])| == 24 + |Concat(cs[4..])|;
    assert |Concat(cs[4..])| == 32 + |Concat(cs[5..])|;
    assert |Concat(cs[5..])| == 72;
    assert |Concat(cs)| == 72 + |Concat(cs[1..])|;
    assert |Concat(cs[1..])| == 152 + |Concat(cs[2..])|;
    assert |Concat(cs[2..])| == 24 + |Concat(cs[3..])|;
  }

  lemma OthersAreNoSegments(cs: seq<Command>, vmAddr: nat, textLen: nat)
    requires TableOf(cs, vmAddr, textLen)
    ensures forall i :: 2 <= i < 5 ==> !IsSegment(cs[i])
  {
  }

  lemma SegmentsApart(a: Command, b: Command, c: Command, vmAddr: nat, textLen: nat)
    requires TextOf(a, textLen) && CodeOf(b) && LinkeditOf(c, vmAddr) && textLen <= CODE_START
    ensures Apart(a, b) && Apart(a, c) && Apart(b, c)
  {
  }

  lemma AreCompatible(cs: seq<Command>, vmAddr: nat, textLen: nat)
    requires TableOf(cs, vmAddr, textLen) && textLen <= CODE_START
    ensures AllCompatible(cs)
  {
    OthersAreNoSegments(cs, vmAddr, textLen);
    SegmentsApart(cs[0], cs[1], cs[5], vmAddr, textLen);
    forall i, j | 0 <= i < j < |cs| ensures Compatible(cs[i], cs[j]) {
      assert Apart(cs[i], cs[j]);
    }
  }

  lemma AreComplete(cs: seq<Command>, vmAddr: nat, textLen: nat)
    requires TableOf(cs, vmAddr, textLen)
    ensures Complete(cs)
  {
    forall role | role in REQUIRED ensures HasRole(cs, role) {
      assert RoleOf(cs[if role.Text? then 0 else if role.Platform? then 2 else if role.Entry? then 3 else if role.Dylinker? then 4 else 5])
             == role;
    }
    assert EntersAt(cs[3], cs[1], 0);
    assert EntersCommand(cs[3], cs[1]);
    assert EntersSome(cs[3], cs);
  }

  lemma SegmentIsPlaced(c: Command, vmAddr: nat, textLen: nat)
    requires TABLE_END <= textLen <= CODE_START && (TextOf(c, textLen) || CodeOf(c) || LinkeditOf(c, vmAddr))
    ensures Placed(c, TABLE_END, FILE_LEN)
  {
  }

  lemma ArePlaced(cs: seq<Command>, vmAddr: nat, textLen: nat)
    requires TableOf(cs, vmAddr, textLen) && TABLE_END <= textLen <= CODE_START
    ensures AllPlaced(cs, FILE_LEN)
  {
    TableLen(cs, vmAddr, textLen);
    OthersAreNoSegments(cs, vmAddr, textLen);
    forall i | 0 <= i < |cs| ensures Placed(cs[i], TABLE_END, FILE_LEN) {
      if !(2 <= i < 5) {
        SegmentIsPlaced(cs[i], vmAddr, textLen);
      }
    }
  }

  lemma SegmentIsCovered(c: Command, vmAddr: nat, textLen: nat, start: nat, end: nat)
    requires TextOf(c, textLen) || CodeOf(c) || LinkeditOf(c, vmAddr)
    ensures Covered(c, start, end)
  {
  }

  lemma OtherIsCovered(c: Command, kind: nat, role: Role, len: nat, start: nat, end: nat)
    requires OtherOf(c, kind, role, len) && |c| >= 8 && kind in {LC_BUILD_VERSION, LC_MAIN, LC_LOAD_DYLINKER}
    ensures Covered(c, start, end)
  {
  }

  lemma IsCovered(cs: seq<Command>, vmAddr: nat, textLen: nat, start: nat, end: nat, i: nat)
    requires TableOf(cs, vmAddr, textLen) && i < 6
    ensures Covered(cs[i], start, end)
  {
    if 2 <= i < 5 {
      OtherIsCovered(cs[i], Kind(cs[i]), RoleOf(cs[i]), |cs[i]|, start, end);
    } else {
      SegmentIsCovered(cs[i], vmAddr, textLen, start, end);
    }
  }

  lemma AreCovered(cs: seq<Command>, vmAddr: nat, textLen: nat, start: nat, end: nat)
    requires TableOf(cs, vmAddr, textLen)
    ensures AllCovered(cs, start, end)
  {
    forall i | 0 <= i < |cs| ensures Covered(cs[i], start, end) {
      IsCovered(cs, vmAddr, textLen, start, end, i);
    }
  }

  lemma AreUnsigned(cs: seq<Command>, vmAddr: nat, textLen: nat)
    requires TableOf(cs, vmAddr, textLen)
    ensures forall i :: 0 <= i < |cs| ==> RoleOf(cs[i]) != Signature && !IsSignature(cs[i])
  {
    forall i | 0 <= i < |cs| ensures RoleOf(cs[i]) != Signature && !IsSignature(cs[i]) {
      SignatureRole(cs[i]);
    }
  }

  lemma AreBelow(cs: seq<Command>, vmAddr: nat, textLen: nat)
    requires TableOf(cs, vmAddr, textLen) && CODE_ADDR <= vmAddr
    ensures AllBelow(cs, cs[LINKEDIT_INDEX])
  {
    OthersAreNoSegments(cs, vmAddr, textLen);
  }

  lemma IsLaidOut(cs: seq<Command>, vmAddr: nat, textLen: nat)
    requires TableOf(cs, vmAddr, textLen) && CODE_ADDR <= vmAddr && TABLE_END <= textLen <= CODE_START
    ensures LayoutOk(cs, FILE_LEN, LINKEDIT_INDEX) && FinalOk(cs, FILE_LEN, LINKEDIT_INDEX)
  {
    TableLen(cs, vmAddr, textLen);
    AreUnsigned(cs, vmAddr, textLen);
    AreCompatible(cs, vmAddr, textLen);
    AreComplete(cs, vmAddr, textLen);
    ArePlaced(cs, vmAddr, textLen);
    AreCovered(cs, vmAddr, textLen, FILE_LEN, FILE_LEN);
    AreBelow(cs, vmAddr, textLen);
  }

  lemma ExampleIsAccepted(img: Image, vmAddr: nat, textLen: nat)
    requires ExampleOf(img, vmAddr, textLen) && CODE_ADDR <= vmAddr && TABLE_END <= textLen <= CODE_START
    ensures AcceptedAt(img, LINKEDIT_INDEX) && ParseImage(img.Bytes()) == Some(img) && |img.Bytes()| == FILE_LEN
    ensures SignatureOf(img).None?
  {
    TableLen(img.commands, vmAddr, textLen);
    AreUnsigned(img.commands, vmAddr, textLen);
    IsLaidOut(img.commands, vmAddr, textLen);
    forall i | 0 <= i < |img.commands| ensures WellFormed(img.commands[i]) {
      assert CommandOk(img.commands[i]);
    }
    ParseInvertsBytes(img);
  }

  // ---------------------------------------------------------------------
  // Stamping and signing them
  // ---------------------------------------------------------------------

  lemma CodeHasStart(c: Command)
    requires CodeOf(c)
    ensures HasSectionStart(c) && SectionsStartAt(c, CODE_START) && StartsAfter(c, CODE_START)
  {
    assert StartsInFile(c, 0);
  }

  lemma EmptyStartsHigh(c: Command, low: nat)
    requires HasSections(c) ==> SectionCount(c) == 0
    ensures SectionsStartAt(c, low)
  {
  }

  lemma StartsHigh(cs: seq<Command>, vmAddr: nat, textLen: nat, i: nat)
    requires TableOf(cs, vmAddr, textLen) && i < 6
    ensures SectionsStartAt(cs[i], CODE_START)
  {
    if i == 1 {
      CodeHasStart(cs[1]);
    } else {
      OthersAreNoSegments(cs, vmAddr, textLen);
      EmptyStartsHigh(cs[i], CODE_START);
    }
  }

  lemma HasSlot(img: Image, vmAddr: nat, textLen: nat)
    requires ExampleOf(img, vmAddr, textLen)
    ensures HasFreeSlot(img)
  {
    TableLen(img.commands, vmAddr, textLen);
    CodeHasStart(img.commands[1]);
    forall i | 0 <= i < 6 ensures SectionsStartAt(img.commands[i], CODE_START) {
      StartsHigh(img.commands, vmAddr, textLen, i);
    }
  }

  function ExamplePlan(payloadLen: nat): Plan
    requires payloadLen < 0x8000_0000
  {
    Plan(FILE_LEN, FILE_LEN + payloadLen, payloadLen, AlignUp(payloadLen, PAGE))
  }

  lemma ExampleIsPlanned(img: Image, vmAddr: nat, textLen: nat, payloadLen: nat)
    requires ExampleOf(img, vmAddr, textLen) && CODE_ADDR <= vmAddr && TABLE_END <= textLen <= CODE_START
    requires 0 < payloadLen < 0x8000_0000
    ensures PlannedFor(img, LINKEDIT_INDEX, ExamplePlan(payloadLen), payloadLen)
    ensures CanStamp(img, LINKEDIT_INDEX, ExamplePlan(payloadLen)) && SignatureOf(img).None?
  {
    ExampleIsAccepted(img, vmAddr, textLen);
    HasSlot(img, vmAddr, textLen);
    AlignUpIsLeast(FILE_LEN, SIGNATURE_ALIGNMENT, FILE_LEN);
    PlanBounds(img, LINKEDIT_INDEX, ExamplePlan(payloadLen), payloadLen);
  }

  lemma CodeEndsBelowIff(cs: seq<Command>, vmAddr: nat, textLen: nat, vmSize: nat)
    requires TableOf(cs, vmAddr, textLen) && CODE_ADDR <= vmAddr
    ensures AddressesFit(cs, LINKEDIT_INDEX, vmSize) <==> CODE_ADDR_END <= vmAddr && vmAddr + vmSize < U64_END
  {
    OthersAreNoSegments(cs, vmAddr, textLen);
    assert EndsBelow(cs[1], cs[LINKEDIT_INDEX]) <==> CODE_ADDR_END <= vmAddr;
  }

  lemma SectionsEnd(cs: seq<Command>, vmAddr: nat, textLen: nat, end: nat)
    requires TableOf(cs, vmAddr, textLen) && FILE_LEN <= end
    ensures AllEndBy(cs, end)
  {
    OthersAreNoSegments(cs, vmAddr, textLen);
  }

  /** Of these executables, all of which the writer accepts, the stamped form is accepted exactly when `__LINKEDIT`,
      which is empty in the template, lies above the other segments and its addresses do not overflow. */
  lemma EmptyLinkeditCanCollide(vmAddr: u64, textLen: nat, payload: seq<byte>) returns (img: Image, p: Plan)
    requires CODE_ADDR <= vmAddr && TABLE_END <= textLen <= CODE_START && 0 < |payload| < 0x8000_0000
    ensures ExampleOf(img, vmAddr, textLen) && ParseImage(img.Bytes()) == Some(img)
    ensures p == ExamplePlan(|payload|) && PlannedFor(img, LINKEDIT_INDEX, p, |payload|) && CanStamp(img, LINKEDIT_INDEX, p)
    ensures Accepted(StampedImage(img, LINKEDIT_INDEX, p, payload))
            <==> CODE_ADDR_END <= vmAddr && vmAddr + AlignUp(|payload|, PAGE) < U64_END
  {
    img := MakeExample(vmAddr, textLen);
    p := ExamplePlan(|payload|);
    ExampleIsAccepted(img, vmAddr, textLen);
    ExampleIsPlanned(img, vmAddr, textLen, |payload|);
    StampedIsAcceptedIff(img, LINKEDIT_INDEX, p, payload);
    CodeEndsBelowIff(img.commands, vmAddr, textLen, p.vmSize);
    SectionsEnd(img.commands, vmAddr, textLen, p.payloadEnd);
  }

  lemma TextStartsAfterIff(c: Command, textLen: nat)
    requires TextOf(c, textLen)
    ensures StartsAfter(c, CODE_START) <==> CODE_START <= textLen
  {
  }

  lemma GrownTable(cs: seq<Command>, vmAddr: nat, textLen: nat, p: Plan)
    requires TableOf(cs, vmAddr, textLen)
    ensures var grown := GrownAt(cs, LINKEDIT_INDEX, p.vmSize, p.fileSize);
            && grown[0] == cs[0] && grown[1] == cs[1] && (forall i :: 2 <= i < 5 ==> !IsSegment(grown[i]))
            && IsLinkedit(grown[LINKEDIT_INDEX]) && FileOff(grown[LINKEDIT_INDEX]) == FILE_LEN
            && VmAddr(grown[LINKEDIT_INDEX]) == vmAddr && StartsAfter(grown[LINKEDIT_INDEX], CODE_START)
  {
    assert CommandOk(cs[LINKEDIT_INDEX]);
    GrownKeepsTheRest(cs[LINKEDIT_INDEX], p.vmSize, p.fileSize);
    GrownStartsAfter(cs[LINKEDIT_INDEX], p.vmSize, p.fileSize, CODE_START);
    OthersAreNoSegments(cs, vmAddr, textLen);
  }

  lemma GrownStartsAfterIff(cs: seq<Command>, vmAddr: nat, textLen: nat, p: Plan)
    requires TableOf(cs, vmAddr, textLen)
    ensures AllStartAfter(GrownAt(cs, LINKEDIT_INDEX, p.vmSize, p.fileSize), CODE_START) <==> CODE_START <= textLen
  {
    var grown := GrownAt(cs, LINKEDIT_INDEX, p.vmSize, p.fileSize);
    GrownTable(cs, vmAddr, textLen, p);
    TextStartsAfterIff(cs[0], textLen);
    CodeHasStart(cs[1]);
    OnlyTheFirst(grown, CODE_START);
  }

  lemma OnlyTheFirst(cs: seq<Command>, end: nat)
    requires |cs| == 6 && StartsAfter(cs[1], end) && StartsAfter(cs[5], end) && forall i :: 2 <= i < 5 ==> !IsSegment(cs[i])
    ensures AllStartAfter(cs, end) <==> StartsAfter(cs[0], end)
  {
    forall i | 1 <= i < 6 ensures StartsAfter(cs[i], end) {
    }
  }

  lemma SegmentsEnd(text: Command, code: Command, textLen: nat)
    requires TextOf(text, textLen) && CodeOf(code)
    ensures VmEnd(text) <= CODE_ADDR_END && VmEnd(code) == CODE_ADDR_END
  {
  }

  lemma GrownAddressesFitIff(cs: seq<Command>, vmAddr: nat, textLen: nat, p: Plan, vmSize: nat)
    requires TableOf(cs, vmAddr, textLen) && CODE_ADDR_END <= vmAddr
    ensures var grown := GrownAt(cs, LINKEDIT_INDEX, p.vmSize, p.fileSize);
            && IsLinkedit(grown[LINKEDIT_INDEX]) && FileOff(grown[LINKEDIT_INDEX]) == FILE_LEN
            && (AddressesFit(grown, LINKEDIT_INDEX, vmSize) <==> vmAddr + vmSize < U64_END)
  {
    GrownTable(cs, vmAddr, textLen, p);
    SegmentsEnd(cs[0], cs[1], textLen);
  }

  lemma SigningFitsIff(cs: seq<Command>, vmAddr: nat, textLen: nat, p: Plan, vmSize: nat)
    requires TableOf(cs, vmAddr, textLen) && CODE_ADDR_END <= vmAddr
    ensures var grown := GrownAt(cs, LINKEDIT_INDEX, p.vmSize, p.fileSize);
            && IsSegment(grown[LINKEDIT_INDEX])
            && (SigningFits(grown, LINKEDIT_INDEX, vmSize) <==> CODE_START <= textLen && vmAddr + vmSize < U64_END)
  {
    TableLen(cs, vmAddr, textLen);
    GrownTableLen(cs, LINKEDIT_INDEX, p.vmSize, p.fileSize);
    GrownStartsAfterIff(cs, vmAddr, textLen, p);
    GrownAddressesFitIff(cs, vmAddr, textLen, p, vmSize);
  }

  /** Once stamped, they can be signed exactly when the file range of `__TEXT` leaves the room behind the load commands that
      the writer has checked the sections for. */
  lemma TextCanBlockTheSignature(img: Image, vmAddr: u64, textLen: nat, payload: seq<byte>, vmSize: nat)
    requires ExampleOf(img, vmAddr, textLen) && CODE_ADDR_END <= vmAddr && TABLE_END <= textLen <= CODE_START
    requires 0 < |payload| < 0x8000_0000
    ensures var p := ExamplePlan(|payload|);
            && PlannedFor(img, LINKEDIT_INDEX, p, |payload|) && CanStamp(img, LINKEDIT_INDEX, p)
            && CoreIndex(img, LINKEDIT_INDEX) == LINKEDIT_INDEX && IsSegment(StampedCommands(img, LINKEDIT_INDEX, p)[LINKEDIT_INDEX])
            && (SigningFits(StampedCommands(img, LINKEDIT_INDEX, p), LINKEDIT_INDEX, vmSize)
                <==> textLen == CODE_START && vmAddr + vmSize < U64_END)
  {
    var p := ExamplePlan(|payload|);
    ExampleIsPlanned(img, vmAddr, textLen, |payload|);
    SigningFitsIff(img.commands, vmAddr, textLen, p, vmSize);
  }
}
