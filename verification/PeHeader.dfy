/** Where the fields of a PE image are in its bytes (Microsoft PE Format, "MS-DOS Stub (Image Only)", "COFF File Header",
    "Optional Header (Image Only)" and "Section Table (Section Headers)"), as `src/runtime_data.rs` reads and changes them. */
module PeHeader {
  import opened Wrappers
  import opened Bytes
  import opened PeImage

  const DOS_HEADER_LEN := 64
  const E_LFANEW := 60
  const MZ: seq<byte> := [77, 90]
  const SIGNATURE: seq<byte> := [80, 69, 0, 0]
  const EXECUTABLE := 2
  const DLL := 0x2000
  const MAGIC_32 := 0x10b
  const MAGIC_64 := 0x20b

  function FieldAt(b: seq<byte>, at: nat, len: nat): nat
    requires at + len <= |b|
  {
    FromLe(b[at..at + len])
  }

  /** A number of two or four bytes. */
  function Word(b: seq<byte>, at: nat): (n: u16)
    requires at + 2 <= |b|
  {
    Powers(); ToFromLe(b[at..at + 2]);
    FieldAt(b, at, 2)
  }

  function Long(b: seq<byte>, at: nat): (n: u32)
    requires at + 4 <= |b|
  {
    Powers(); ToFromLe(b[at..at + 4]);
    FieldAt(b, at, 4)
  }

  function FixedLen(kind: Kind): nat {
    if kind.Pe32? then 96 else 112
  }

  function KindOf(magic: nat): Option<Kind> {
    if magic == MAGIC_32 then Some(Pe32) else if magic == MAGIC_64 then Some(Pe64) else None
  }

  /** One entry of the section table. */
  function SectionIn(b: seq<byte>, at: nat): Section
    requires at + SECTION_HEADER_LEN <= |b|
  {
    Section(b[at..at + 8], Long(b, at + 12), Long(b, at + 8), Long(b, at + 20), Long(b, at + 16), Long(b, at + 36))
  }

  function SectionsIn(b: seq<byte>, at: nat, count: nat): (ss: seq<Section>)
    requires at + count * SECTION_HEADER_LEN <= |b|
    ensures |ss| == count
  {
    if count == 0 then [] else SectionsIn(b, at, count - 1) + [SectionIn(b, at + (count - 1) * SECTION_HEADER_LEN)]
  }

  /** The optional header is in the file and has its fixed part. */
  predicate HasHeaders(b: seq<byte>) {
    && |b| >= DOS_HEADER_LEN && b[..2] == MZ
    && Long(b, E_LFANEW) + 26 <= |b| && b[Long(b, E_LFANEW)..Long(b, E_LFANEW) + 4] == SIGNATURE
    && KindOf(Word(b, Long(b, E_LFANEW) + 24)).Some?
    && FixedLen(KindOf(Word(b, Long(b, E_LFANEW) + 24)).value) <= Word(b, Long(b, E_LFANEW) + 20)
    && Long(b, E_LFANEW) + 24 + Word(b, Long(b, E_LFANEW) + 20) <= |b|
  }

  function HeadersIn(b: seq<byte>): Headers
    requires HasHeaders(b)
  {
    HeadersAt(b, Long(b, E_LFANEW), KindOf(Word(b, Long(b, E_LFANEW) + 24)).value)
  }

  /** The fields of a header that starts at `pe`. */
  function HeadersAt(b: seq<byte>, pe: u32, kind: Kind): Headers
    requires pe + 24 + FixedLen(kind) <= |b| && pe + 24 + Word(b, pe + 20) <= |b|
  {
    var directories := Long(b, pe + 20 + FixedLen(kind));
    var size := Word(b, pe + 20);
    Headers(
      kind, IsExecutable(Word(b, pe + 22)), pe, size, directories, SecurityIn(b, pe, kind, size, directories),
      Long(b, pe + 60), Long(b, pe + 56), Long(b, pe + 84), Long(b, pe + 80), Long(b, pe + 32))
  }

  predicate IsExecutable(characteristics: nat) {
    characteristics / EXECUTABLE % 2 == 1 && characteristics / DLL % 2 == 0
  }

  /** Bit 1 is set and bit 13 is clear: an executable that is no library. */
  lemma ExecutableBits(n: nat, above: nat, executable: nat, low: nat, top: nat, dll: nat, below: nat)
    requires n == 2 * (2 * above + executable) + low && executable < 2 && low < 2
    requires n == 0x2000 * (2 * top + dll) + below && dll < 2 && below < 0x2000
    ensures IsExecutable(n) <==> executable == 1 && dll == 0
  {
    QuotientIs(n, 2, 2 * above + executable, low);
    QuotientIs(n, 0x2000, 2 * top + dll, below);
    QuotientIs(2 * above + executable, 2, above, executable);
    QuotientIs(2 * top + dll, 2, top, dll);
  }

  lemma QuotientIs(n: nat, m: nat, q: nat, r: nat)
    requires n == q * m + r && r < m
    ensures n / m == q && n % m == r
  {
    ProductIsFar(n / m - q, m);
    assert n == n / m * m + n % m;
    assert (n / m - q) * m == r - n % m;
  }

  /** The magic number, byte by byte: 10B for PE32, and 20B for PE32+. */
  lemma KindBytes(b: seq<byte>)
    requires HasHeaders(b)
    ensures var magic := b[Long(b, E_LFANEW) + 24..Long(b, E_LFANEW) + 26];
            match HeadersIn(b).kind
            case Pe32 => magic == [0x0b, 0x01]
            case Pe64 => magic == [0x0b, 0x02]
  {
    var magic := b[Long(b, E_LFANEW) + 24..Long(b, E_LFANEW) + 26];
    assert FromLe(magic) == magic[0] as int + 256 * FromLe(magic[1..]) && FromLe(magic[1..]) == magic[1] as int + 256 * FromLe(magic[2..]);
  }

  /** The certificate entry, if the optional header holds it. */
  function SecurityIn(b: seq<byte>, pe: nat, kind: Kind, size: nat, directories: nat): (u32, u32)
    requires pe + 24 + size <= |b|
  {
    var entry := pe + 24 + FixedLen(kind) + SECURITY_DIRECTORY * 8;
    if directories > SECURITY_DIRECTORY && entry + 8 <= pe + 24 + size then (Long(b, entry), Long(b, entry + 4)) else (0, 0)
  }

  function SectionCount(b: seq<byte>): nat
    requires HasHeaders(b)
  {
    Word(b, Long(b, E_LFANEW) + 6)
  }

  /** The image in a file. */
  function ParsePe(b: seq<byte>): Option<Image> {
    if !HasHeaders(b) then None
    else
      var h, count := HeadersIn(b), SectionCount(b);
      if h.SectionTable() + count * SECTION_HEADER_LEN > |b| then None
      else Some(Image(h, SectionsIn(b, h.SectionTable(), count), b))
  }

  // ---------------------------------------------------------------------
  // Changing the headers
  // ---------------------------------------------------------------------

  /** What the writer sets in the headers that start at `pe`: the section count, two sizes, a section header in a free
      slot; the checksum and the certificate entry are cleared. */
  datatype HeaderEdit = HeaderEdit(pe: nat, count: u16, initializedData: u32, sizeOfImage: u32, entry: nat, slot: nat, section: Section)

  function SectionHeaderBytes(s: Section): (r: seq<byte>)
    requires |s.name| == 8
    ensures |r| == SECTION_HEADER_LEN
  {
    s.name + ToLe(s.vsize, 4) + ToLe(s.vaddr, 4) + ToLe(s.rawSize, 4) + ToLe(s.raw, 4) + Zeros(12) + ToLe(s.flags, 4)
  }

  predicate EditFits(e: HeaderEdit, len: nat) {
    e.pe + 92 <= e.entry && e.entry + 8 <= e.slot && e.slot + SECTION_HEADER_LEN <= len && |e.section.name| == 8
  }

  datatype Change = Change(at: nat, data: seq<byte>) {
    function End(): nat { at + |data| }
  }

  function ChangesOf(e: HeaderEdit): seq<Change>
    requires |e.section.name| == 8
  {
    [Change(e.pe + 6, ToLe(e.count, 2)), Change(e.pe + 32, ToLe(e.initializedData, 4)), Change(e.pe + 80, ToLe(e.sizeOfImage, 4)),
     Change(e.pe + 88, Zeros(4)), Change(e.entry, Zeros(8)), Change(e.slot, SectionHeaderBytes(e.section))]
  }

  predicate InSequence(cs: seq<Change>, len: nat) {
    && (forall k :: 0 <= k < |cs| ==> cs[k].End() <= len)
    && (forall j, k :: 0 <= j < k < |cs| ==> cs[j].End() <= cs[k].at)
  }

  /** The bytes after the changes, which are made one after the other. */
  function Apply(s: seq<byte>, cs: seq<Change>): (r: seq<byte>)
    requires forall k :: 0 <= k < |cs| ==> cs[k].End() <= |s|
    ensures |r| == |s|
    decreases |cs|
  {
    if |cs| == 0 then s else assert cs[0].End() <= |s|; Apply(Patch(s, cs[0].at, cs[0].data), cs[1..])
  }

  lemma InSequenceIf(e: HeaderEdit, len: nat)
    requires EditFits(e, len)
    ensures InSequence(ChangesOf(e), len)
  {
  }

  function Edited(head: seq<byte>, e: HeaderEdit): (r: seq<byte>)
    requires EditFits(e, |head|)
    ensures |r| == |head|
  {
    InSequenceIf(e, |head|);
    Apply(head, ChangesOf(e))
  }

  lemma PatchReads(s: seq<byte>, at: nat, data: seq<byte>)
    requires at + |data| <= |s|
    ensures Patch(s, at, data)[at..at + |data|] == data
  {
  }

  lemma PatchKeeps(s: seq<byte>, at: nat, data: seq<byte>, from: nat, end: nat)
    requires at + |data| <= |s| && from <= end <= |s| && (end <= at || at + |data| <= from)
    ensures Patch(s, at, data)[from..end] == s[from..end]
  {
  }

  /** Bytes outside all changes stay. */
  lemma {:induction false} ApplyKeeps(s: seq<byte>, cs: seq<Change>, from: nat, end: nat)
    requires (forall k :: 0 <= k < |cs| ==> cs[k].End() <= |s|) && from <= end <= |s|
    requires forall k :: 0 <= k < |cs| ==> end <= cs[k].at || cs[k].End() <= from
    ensures Apply(s, cs)[from..end] == s[from..end]
    decreases |cs|
  {
    if |cs| != 0 {
      PatchKeeps(s, cs[0].at, cs[0].data, from, end);
      ApplyKeeps(Patch(s, cs[0].at, cs[0].data), cs[1..], from, end);
    }
  }

  /** What a change sets can be read back. */
  lemma {:induction false} ApplySets(s: seq<byte>, cs: seq<Change>, k: nat)
    requires InSequence(cs, |s|) && k < |cs|
    ensures Apply(s, cs)[cs[k].at..cs[k].End()] == cs[k].data
    decreases k
  {
    var next := Patch(s, cs[0].at, cs[0].data);
    if k == 0 {
      PatchReads(s, cs[0].at, cs[0].data);
      ApplyKeeps(next, cs[1..], cs[0].at, cs[0].End());
    } else {
      ApplySets(next, cs[1..], k - 1);
    }
  }

  lemma EditReads(head: seq<byte>, e: HeaderEdit, k: nat)
    requires EditFits(e, |head|) && k < 6
    ensures var c := ChangesOf(e)[k]; c.End() <= |head| && Edited(head, e)[c.at..c.End()] == c.data
  {
    InSequenceIf(e, |head|);
    ApplySets(head, ChangesOf(e), k);
  }

  /** A section header reads as the section that it was written for. */
  lemma SectionHeaderReads(s: Section, b: seq<byte>, at: nat)
    requires |s.name| == 8 && at + SECTION_HEADER_LEN <= |b| && b[at..at + SECTION_HEADER_LEN] == SectionHeaderBytes(s)
    ensures SectionIn(b, at) == s
  {
    var r := SectionHeaderBytes(s);
    Powers();
    FromToLe(s.vsize, 4);
    FromToLe(s.vaddr, 4);
    FromToLe(s.rawSize, 4);
    FromToLe(s.raw, 4);
    FromToLe(s.flags, 4);
    SectionHeaderSlices(s);
    SliceOfSlice(b, at, r, 0, 8);
    SliceOfSlice(b, at, r, 8, 12);
    SliceOfSlice(b, at, r, 12, 16);
    SliceOfSlice(b, at, r, 16, 20);
    SliceOfSlice(b, at, r, 20, 24);
    SliceOfSlice(b, at, r, 36, 40);
  }

  lemma SectionHeaderSlices(s: Section)
    requires |s.name| == 8
    ensures var r := SectionHeaderBytes(s);
            && r[0..8] == s.name && r[8..12] == ToLe(s.vsize, 4) && r[12..16] == ToLe(s.vaddr, 4)
            && r[16..20] == ToLe(s.rawSize, 4) && r[20..24] == ToLe(s.raw, 4) && r[36..40] == ToLe(s.flags, 4)
  {
  }

  lemma SliceOfSlice(b: seq<byte>, at: nat, r: seq<byte>, from: nat, end: nat)
    requires from <= end <= |r| && at + |r| <= |b| && b[at..at + |r|] == r
    ensures b[at + from..at + end] == r[from..end]
  {
    forall i | from <= i < end ensures b[at + i] == r[i] {
      assert b[at..at + |r|][i] == b[at + i];
    }
  }

  // ---------------------------------------------------------------------
  // Parsing a file that agrees with another one on most of its headers
  // ---------------------------------------------------------------------

  predicate Agree(b: seq<byte>, b': seq<byte>, at: nat, end: nat) {
    at <= end <= |b| && end <= |b'| && b'[at..end] == b[at..end]
  }

  lemma AgreeInside(b: seq<byte>, b': seq<byte>, at: nat, end: nat, from: nat, to: nat)
    requires Agree(b, b', at, end) && at <= from <= to <= end
    ensures Agree(b, b', from, to)
  {
    var r := b[at..end];
    SliceOfSlice(b, at, r, from - at, to - at);
    SliceOfSlice(b', at, r, from - at, to - at);
  }

  /** The two files agree on everything that is read of the headers, but for the section count, two sizes, the
      checksum, the certificate entry and what follows the section table. */
  predicate HeadersAgree(b: seq<byte>, b': seq<byte>, pe: nat, kind: Kind, table: nat, slot: nat) {
    && Agree(b, b', 0, 2) && Agree(b, b', pe, pe + 6) && Agree(b, b', pe + 20, pe + 26) && Agree(b, b', pe + 56, pe + 64)
    && Agree(b, b', pe + 84, pe + 88) && Agree(b, b', pe + 20 + FixedLen(kind), pe + 24 + FixedLen(kind))
    && Agree(b, b', table, slot)
  }

  lemma WordAgrees(b: seq<byte>, b': seq<byte>, at: nat, end: nat, word: nat)
    requires Agree(b, b', at, end) && at <= word && word + 2 <= end
    ensures Word(b', word) == Word(b, word)
  {
    AgreeInside(b, b', at, end, word, word + 2);
  }

  lemma LongAgrees(b: seq<byte>, b': seq<byte>, at: nat, end: nat, long: nat)
    requires Agree(b, b', at, end) && at <= long && long + 4 <= end
    ensures Long(b', long) == Long(b, long)
  {
    AgreeInside(b, b', at, end, long, long + 4);
  }

  lemma {:induction false} SectionsAgree(b: seq<byte>, b': seq<byte>, at: nat, count: nat)
    requires Agree(b, b', at, at + count * SECTION_HEADER_LEN)
    ensures SectionsIn(b', at, count) == SectionsIn(b, at, count)
  {
    if count > 0 {
      var last := at + (count - 1) * SECTION_HEADER_LEN;
      AgreeInside(b, b', at, at + count * SECTION_HEADER_LEN, at, last);
      SectionsAgree(b, b', at, count - 1);
      AgreeInside(b, b', at, at + count * SECTION_HEADER_LEN, last, last + SECTION_HEADER_LEN);
      SectionAgrees(b, b', last);
    }
  }

  lemma SectionAgrees(b: seq<byte>, b': seq<byte>, at: nat)
    requires Agree(b, b', at, at + SECTION_HEADER_LEN)
    ensures SectionIn(b', at) == SectionIn(b, at)
  {
    AgreeInside(b, b', at, at + SECTION_HEADER_LEN, at, at + 8);
    LongAgrees(b, b', at, at + SECTION_HEADER_LEN, at + 8);
    LongAgrees(b, b', at, at + SECTION_HEADER_LEN, at + 12);
    LongAgrees(b, b', at, at + SECTION_HEADER_LEN, at + 16);
    LongAgrees(b, b', at, at + SECTION_HEADER_LEN, at + 20);
    LongAgrees(b, b', at, at + SECTION_HEADER_LEN, at + 36);
  }

  predicate SameFields(b: seq<byte>, b': seq<byte>, pe: nat, kind: Kind) {
    && pe + 24 + FixedLen(kind) <= |b| && pe + 24 + FixedLen(kind) <= |b'| && 92 <= FixedLen(kind)
    && Word(b', pe + 20) == Word(b, pe + 20) && Word(b', pe + 22) == Word(b, pe + 22) && Word(b', pe + 24) == Word(b, pe + 24)
    && Long(b', pe + 56) == Long(b, pe + 56) && Long(b', pe + 60) == Long(b, pe + 60) && Long(b', pe + 84) == Long(b, pe + 84)
    && Long(b', pe + 20 + FixedLen(kind)) == Long(b, pe + 20 + FixedLen(kind))
  }

  lemma FieldsAgree(b: seq<byte>, b': seq<byte>, pe: nat, kind: Kind, table: nat, slot: nat)
    requires HeadersAgree(b, b', pe, kind, table, slot)
    ensures SameFields(b, b', pe, kind)
  {
    WordAgrees(b, b', pe + 20, pe + 26, pe + 20);
    WordAgrees(b, b', pe + 20, pe + 26, pe + 22);
    WordAgrees(b, b', pe + 20, pe + 26, pe + 24);
    LongAgrees(b, b', pe + 56, pe + 64, pe + 56);
    LongAgrees(b, b', pe + 56, pe + 64, pe + 60);
    LongAgrees(b, b', pe + 84, pe + 88, pe + 84);
    LongAgrees(b, b', pe + 20 + FixedLen(kind), pe + 24 + FixedLen(kind), pe + 20 + FixedLen(kind));
  }

  /** The record of the headers, with the fields that may differ as the second file has them. */
  function HeadersWith(h: Headers, initializedData: u32, sizeOfImage: u32, security: (u32, u32)): Headers {
    h.(initializedData := initializedData, sizeOfImage := sizeOfImage, security := security)
  }

  lemma HeadersFrom(b: seq<byte>, b': seq<byte>, pe: u32, kind: Kind, security: (u32, u32))
    requires SameFields(b, b', pe, kind) && pe + 24 + Word(b, pe + 20) <= |b| && pe + 24 + Word(b, pe + 20) <= |b'|
    requires SecurityIn(b', pe, kind, Word(b, pe + 20), Long(b, pe + 20 + FixedLen(kind))) == security
    ensures HeadersAt(b', pe, kind) == HeadersWith(HeadersAt(b, pe, kind), Long(b', pe + 32), Long(b', pe + 80), security)
  {
  }

  /** A file and what is read of its headers. */
  ghost predicate HeadersHold(b: seq<byte>, h: Headers) {
    && HasHeaders(b) && Long(b, E_LFANEW) == h.peOffset && KindOf(Word(b, h.peOffset + 24)) == Some(h.kind)
    && h == HeadersAt(b, h.peOffset, h.kind)
  }

  /** What a file with these fields holds. */
  lemma FieldsHold(b: seq<byte>, h: Headers, characteristics: nat)
    requires DOS_HEADER_LEN <= |b| && b[..2] == MZ && Long(b, E_LFANEW) == h.peOffset
    requires h.peOffset + 24 + FixedLen(h.kind) <= h.SectionTable() <= |b| && b[h.peOffset..h.peOffset + 4] == SIGNATURE
    requires KindOf(Word(b, h.peOffset + 24)) == Some(h.kind) && Word(b, h.peOffset + 20) == h.optionalHeaderSize
    requires Word(b, h.peOffset + 22) == characteristics && IsExecutable(characteristics) == h.executable
    requires Long(b, h.peOffset + 20 + FixedLen(h.kind)) == h.directories
    requires SecurityIn(b, h.peOffset, h.kind, h.optionalHeaderSize, h.directories) == h.security
    requires Long(b, h.peOffset + 56) == h.sectionAlignment && Long(b, h.peOffset + 60) == h.fileAlignment
    requires Long(b, h.peOffset + 80) == h.sizeOfImage && Long(b, h.peOffset + 84) == h.sizeOfHeaders
    requires Long(b, h.peOffset + 32) == h.initializedData
    ensures HeadersHold(b, h)
  {
  }

  /** The section table at `table`, for headers at `pe`. */
  ghost predicate SectionsHold(b: seq<byte>, pe: nat, table: nat, ss: seq<Section>) {
    && pe + 8 <= |b| && |ss| == Word(b, pe + 6)
    && table + |ss| * SECTION_HEADER_LEN <= |b| && ss == SectionsIn(b, table, |ss|)
  }

  ghost predicate Holds(b: seq<byte>, h: Headers, ss: seq<Section>) {
    HeadersHold(b, h) && SectionsHold(b, h.peOffset, h.SectionTable(), ss)
  }

  lemma HeadersHoldIff(b: seq<byte>, h: Headers)
    ensures HeadersHold(b, h) <==> HasHeaders(b) && h == HeadersIn(b)
  {
  }

  lemma HoldsIff(b: seq<byte>, h: Headers, ss: seq<Section>)
    ensures Holds(b, h, ss) <==> ParsePe(b) == Some(Image(h, ss, b))
  {
    HeadersHoldIff(b, h);
    if HasHeaders(b) && h == HeadersIn(b) {
      assert h.peOffset == Long(b, E_LFANEW);
    }
  }

  lemma HeadersStay(b: seq<byte>, b': seq<byte>, pe: u32, kind: Kind, table: nat, slot: nat)
    requires HasHeaders(b) && Long(b, E_LFANEW) == pe && KindOf(Word(b, pe + 24)) == Some(kind)
    requires HeadersAgree(b, b', pe, kind, table, slot) && SameFields(b, b', pe, kind)
    requires DOS_HEADER_LEN <= |b'| && Long(b', E_LFANEW) == pe && pe + 24 + Word(b, pe + 20) <= |b'|
    ensures HasHeaders(b') && KindOf(Word(b', pe + 24)) == Some(kind)
  {
    AgreeInside(b, b', pe, pe + 6, pe, pe + 4);
    assert b'[..2] == b'[0..2] && b[..2] == b[0..2];
  }

  /** Of a file that agrees with one that is known, only the fields that may differ are to be read. */
  lemma HeadersAgain(b: seq<byte>, b': seq<byte>, h: Headers, slot: nat, initializedData: u32, sizeOfImage: u32, security: (u32, u32))
    requires HeadersHold(b, h) && HeadersAgree(b, b', h.peOffset, h.kind, h.SectionTable(), slot)
    requires DOS_HEADER_LEN <= |b'| && Long(b', E_LFANEW) == h.peOffset
    requires SecurityIn(b', h.peOffset, h.kind, h.optionalHeaderSize, h.directories) == security
    requires h.peOffset + 84 <= |b'| && Long(b', h.peOffset + 32) == initializedData && Long(b', h.peOffset + 80) == sizeOfImage
    ensures HeadersHold(b', HeadersWith(h, initializedData, sizeOfImage, security))
  {
    FieldsAgree(b, b', h.peOffset, h.kind, h.SectionTable(), slot);
    RecordFields(b, h);
    HeadersStay(b, b', h.peOffset, h.kind, h.SectionTable(), slot);
    HeadersFrom(b, b', h.peOffset, h.kind, security);
  }

  lemma RecordFields(b: seq<byte>, h: Headers)
    requires HeadersHold(b, h)
    ensures h.optionalHeaderSize == Word(b, h.peOffset + 20) && h.SectionTable() == h.peOffset + 24 + Word(b, h.peOffset + 20) <= |b|
    ensures h.peOffset + 24 + FixedLen(h.kind) <= |b| && h.directories == Long(b, h.peOffset + 20 + FixedLen(h.kind))
    ensures h.initializedData == Long(b, h.peOffset + 32) && h.sizeOfImage == Long(b, h.peOffset + 80)
  {
  }

  /** Whether the pointer to the headers stays as it is. A change can reach it when the headers start so low that they
      overlap it. */
  predicate PointerStays(b: seq<byte>, b': seq<byte>) {
    |b| >= DOS_HEADER_LEN && |b'| >= DOS_HEADER_LEN && b'[E_LFANEW..E_LFANEW + 4] == b[E_LFANEW..E_LFANEW + 4]
  }

  lemma SamePointer(b: seq<byte>, b': seq<byte>)
    requires |b| >= DOS_HEADER_LEN && |b'| >= DOS_HEADER_LEN
    ensures PointerStays(b, b') <==> Long(b', E_LFANEW) == Long(b, E_LFANEW)
  {
    ToFromLe(b[E_LFANEW..E_LFANEW + 4]);
    ToFromLe(b'[E_LFANEW..E_LFANEW + 4]);
  }

  // ---------------------------------------------------------------------
  // The changed headers, parsed
  // ---------------------------------------------------------------------

  /** The changes of an image whose certificate entry is `e.entry` and whose next free section header is `e.slot`. */
  predicate EditsImage(e: HeaderEdit, h: Headers, count: nat) {
    && e.pe == h.peOffset && h.SecurityEntry() == Some(e.entry)
    && e.slot == h.SectionTable() + count * SECTION_HEADER_LEN && e.count == count + 1 && |e.section.name| == 8
  }

  /** A file that starts with the changed headers. */
  ghost predicate IsEdited(b: seq<byte>, b': seq<byte>, e: HeaderEdit, len: nat) {
    len <= |b| && len <= |b'| && EditFits(e, len) && b'[..len] == Edited(b[..len], e)
  }

  lemma PrefixSlice(b: seq<byte>, len: nat, at: nat, end: nat)
    requires at <= end <= len <= |b|
    ensures b[at..end] == b[..len][at..end]
  {
  }

  /** A range that none of the changes touches. */
  predicate Outside(e: HeaderEdit, from: nat, end: nat) {
    && (end <= e.pe + 6 || e.pe + 8 <= from) && (end <= e.pe + 32 || e.pe + 36 <= from)
    && (end <= e.pe + 80 || e.pe + 84 <= from) && (end <= e.pe + 88 || e.pe + 92 <= from)
    && (end <= e.entry || e.entry + 8 <= from) && (end <= e.slot || e.slot + SECTION_HEADER_LEN <= from)
  }

  lemma EditKeeps(head: seq<byte>, e: HeaderEdit, from: nat, end: nat)
    requires EditFits(e, |head|) && from <= end <= |head| && Outside(e, from, end)
    ensures Edited(head, e)[from..end] == head[from..end]
  {
    InSequenceIf(e, |head|);
    ApplyKeeps(head, ChangesOf(e), from, end);
  }

  lemma EditAgrees(b: seq<byte>, b': seq<byte>, e: HeaderEdit, len: nat, at: nat, end: nat)
    requires IsEdited(b, b', e, len) && at <= end <= len && Outside(e, at, end)
    ensures Agree(b, b', at, end)
  {
    EditKeeps(b[..len], e, at, end);
    PrefixSlice(b, len, at, end);
    PrefixSlice(b', len, at, end);
  }

  lemma EditedAgrees(b: seq<byte>, b': seq<byte>, e: HeaderEdit, len: nat, kind: Kind, table: nat)
    requires IsEdited(b, b', e, len) && e.entry == e.pe + 24 + FixedLen(kind) + SECURITY_DIRECTORY * 8
    requires e.entry + 8 <= table <= e.slot
    ensures HeadersAgree(b, b', e.pe, kind, table, e.slot)
  {
    EditAgrees(b, b', e, len, 0, 2);
    EditAgrees(b, b', e, len, e.pe, e.pe + 6);
    EditAgrees(b, b', e, len, e.pe + 20, e.pe + 26);
    EditAgrees(b, b', e, len, e.pe + 56, e.pe + 64);
    EditAgrees(b, b', e, len, e.pe + 84, e.pe + 88);
    EditAgrees(b, b', e, len, e.pe + 20 + FixedLen(kind), e.pe + 24 + FixedLen(kind));
    EditAgrees(b, b', e, len, table, e.slot);
  }

  lemma ChangeIsThere(b: seq<byte>, b': seq<byte>, e: HeaderEdit, len: nat, k: nat)
    requires IsEdited(b, b', e, len) && k < 6
    ensures var c := ChangesOf(e)[k]; c.End() <= |b'| && b'[c.at..c.End()] == c.data
  {
    EditReads(b[..len], e, k);
    PrefixSlice(b', len, ChangesOf(e)[k].at, ChangesOf(e)[k].End());
  }

  lemma SetFields(b: seq<byte>, b': seq<byte>, e: HeaderEdit, len: nat)
    requires IsEdited(b, b', e, len)
    ensures Word(b', e.pe + 6) == e.count && Long(b', e.pe + 32) == e.initializedData && Long(b', e.pe + 80) == e.sizeOfImage
    ensures Long(b', e.entry) == 0 && Long(b', e.entry + 4) == 0
  {
    ChangeIsThere(b, b', e, len, 0);
    ChangeIsThere(b, b', e, len, 1);
    ChangeIsThere(b, b', e, len, 2);
    ChangeIsThere(b, b', e, len, 4);
    WordReads(b', e.pe + 6, e.count);
    LongReads(b', e.pe + 32, e.initializedData);
    LongReads(b', e.pe + 80, e.sizeOfImage);
    ZeroEntry(b', e.entry);
  }

  lemma WordReads(b: seq<byte>, at: nat, n: u16)
    requires at + 2 <= |b| && b[at..at + 2] == ToLe(n, 2)
    ensures Word(b, at) == n
  {
    Powers();
    FromToLe(n, 2);
  }

  lemma LongReads(b: seq<byte>, at: nat, n: u32)
    requires at + 4 <= |b| && b[at..at + 4] == ToLe(n, 4)
    ensures Long(b, at) == n
  {
    Powers();
    FromToLe(n, 4);
  }

  lemma ZeroEntry(b: seq<byte>, entry: nat)
    requires entry + 8 <= |b| && b[entry..entry + 8] == Zeros(8)
    ensures Long(b, entry) == 0 && Long(b, entry + 4) == 0
  {
    assert forall i :: entry <= i < entry + 8 ==> b[i] == b[entry..entry + 8][i - entry];
    ZeroIsZero(b[entry..entry + 4]);
    ZeroIsZero(b[entry + 4..entry + 8]);
  }

  lemma {:induction false} ZeroIsZero(s: seq<byte>)
    requires forall i :: 0 <= i < |s| ==> s[i] == 0
    ensures FromLe(s) == 0
  {
    if s != [] {
      ZeroIsZero(s[1..]);
    }
  }

  lemma LastSection(b: seq<byte>, at: nat, count: nat)
    requires at + (count + 1) * SECTION_HEADER_LEN <= |b|
    ensures SectionsIn(b, at, count + 1) == SectionsIn(b, at, count) + [SectionIn(b, at + count * SECTION_HEADER_LEN)]
  {
  }

  lemma SectionsInEdited(b: seq<byte>, b': seq<byte>, e: HeaderEdit, len: nat, table: nat, count: nat, total: nat)
    requires IsEdited(b, b', e, len) && e.entry + 8 <= table && table + count * SECTION_HEADER_LEN == e.slot && total == count + 1
    ensures table + total * SECTION_HEADER_LEN <= |b'|
    ensures SectionsIn(b', table, total) == SectionsIn(b, table, count) + [e.section]
  {
    LastSection(b', table, count);
    EditAgrees(b, b', e, len, table, e.slot);
    SectionsAgree(b, b', table, count);
    ChangeIsThere(b, b', e, len, 5);
    SectionHeaderReads(e.section, b', e.slot);
  }

  lemma AppendedHold(b: seq<byte>, pe: nat, table: nat, ss: seq<Section>, last: Section, total: nat)
    requires pe + 8 <= |b| && total == |ss| + 1 && Word(b, pe + 6) == total && table + total * SECTION_HEADER_LEN <= |b|
    requires SectionsIn(b, table, total) == ss + [last]
    ensures SectionsHold(b, pe, table, ss + [last])
  {
    assert |ss + [last]| == total;
  }

  lemma SectionsEdited(b: seq<byte>, b': seq<byte>, e: HeaderEdit, len: nat, table: nat, ss: seq<Section>)
    requires IsEdited(b, b', e, len) && e.entry + 8 <= table && table + |ss| * SECTION_HEADER_LEN == e.slot
    requires SectionsHold(b, e.pe, table, ss) && e.count == |ss| + 1
    ensures SectionsHold(b', e.pe, table, ss + [e.section])
  {
    SetFields(b, b', e, len);
    SectionsInEdited(b, b', e, len, table, |ss|, e.count);
    AppendedHold(b', e.pe, table, ss, e.section, e.count);
  }

  // ---------------------------------------------------------------------
  // When the pointer to the headers stays
  // ---------------------------------------------------------------------

  /** Where `data` is written at `at`, the bytes of the pointer are the same before. */
  predicate Spares(b: seq<byte>, at: nat, data: seq<byte>)
    requires |b| >= DOS_HEADER_LEN
  {
    forall i {:trigger b[i]} :: E_LFANEW <= i < E_LFANEW + 4 && at <= i < at + |data| ==> data[i - at] == b[i]
  }

  /** One byte of the pointer. Of the changes only the section count and the size of the initialized data are so near the
      start of the headers that they can reach it. */
  lemma EditedByte(b: seq<byte>, b': seq<byte>, e: HeaderEdit, len: nat, i: nat)
    requires IsEdited(b, b', e, len) && DOS_HEADER_LEN <= len && E_LFANEW <= i < E_LFANEW + 4
    ensures b'[i] == if e.pe + 6 <= i < e.pe + 8 then ToLe(e.count, 2)[i - e.pe - 6]
                     else if e.pe + 32 <= i < e.pe + 36 then ToLe(e.initializedData, 4)[i - e.pe - 32]
                     else b[i]
  {
    if e.pe + 6 <= i < e.pe + 8 {
      ChangeIsThere(b, b', e, len, 0);
      assert b'[i] == b'[e.pe + 6..e.pe + 8][i - e.pe - 6];
    } else if e.pe + 32 <= i < e.pe + 36 {
      ChangeIsThere(b, b', e, len, 1);
      assert b'[i] == b'[e.pe + 32..e.pe + 36][i - e.pe - 32];
    } else {
      EditAgrees(b, b', e, len, i, i + 1);
      assert b'[i] == b'[i..i + 1][0] && b[i] == b[i..i + 1][0];
    }
  }

  lemma PointerStaysIf(b: seq<byte>, b': seq<byte>)
    requires |b| >= DOS_HEADER_LEN && |b'| >= DOS_HEADER_LEN
    ensures PointerStays(b, b') <==> forall i :: E_LFANEW <= i < E_LFANEW + 4 ==> b'[i] == b[i]
  {
    forall i | E_LFANEW <= i < E_LFANEW + 4
      ensures b'[i] == b'[E_LFANEW..E_LFANEW + 4][i - E_LFANEW] && b[i] == b[E_LFANEW..E_LFANEW + 4][i - E_LFANEW]
    {
    }
  }

  lemma EditedPointerStaysIff(b: seq<byte>, b': seq<byte>, e: HeaderEdit, len: nat)
    requires IsEdited(b, b', e, len) && DOS_HEADER_LEN <= len
    ensures PointerStays(b, b') <==> Spares(b, e.pe + 6, ToLe(e.count, 2)) && Spares(b, e.pe + 32, ToLe(e.initializedData, 4))
  {
    PointerStaysIf(b, b');
    forall i | E_LFANEW <= i < E_LFANEW + 4
      ensures b'[i] == if e.pe + 6 <= i < e.pe + 8 then ToLe(e.count, 2)[i - e.pe - 6]
                       else if e.pe + 32 <= i < e.pe + 36 then ToLe(e.initializedData, 4)[i - e.pe - 32]
                       else b[i]
    {
      EditedByte(b, b', e, len, i);
    }
  }

  /** What a field of the headers, as its bytes say, becomes. */
  lemma FieldBytes(b: seq<byte>, at: nat, len: nat, n: nat)
    requires at + len <= |b| && FieldAt(b, at, len) == n
    ensures b[at..at + len] == ToLe(n, len) && forall k {:trigger ToLe(n, len)[k]} :: 0 <= k < len ==> b[at + k] == ToLe(n, len)[k]
  {
    ToFromLe(b[at..at + len]);
    forall k | 0 <= k < len ensures b[at + k] == ToLe(n, len)[k] {
      assert b[at..at + len][k] == b[at + k];
    }
  }

  /** A section count that is raised by one reaches the pointer only from one place: elsewhere the pointer would have
      to be zero where the count is not. */
  lemma CountSparesIff(b: seq<byte>, pe: nat, count: nat, raised: nat)
    requires |b| >= DOS_HEADER_LEN && pe + 8 <= |b| && Long(b, E_LFANEW) == pe && Word(b, pe + 6) == count && 1 <= count <= MAX_SECTIONS
    requires raised == count + 1
    ensures Spares(b, pe + 6, ToLe(raised, 2)) <==> pe != 54
  {
    FieldBytes(b, pe + 6, 2, count);
    assert ToLe(count, 2)[0] == count && ToLe(count, 2)[1] == 0 && ToLe(raised, 2)[0] == raised && ToLe(raised, 2)[1] == 0 by {
      SmallCount(count);
      SmallCount(raised);
    }
    assert b[pe + 6] == ToLe(count, 2)[0] && b[pe + 7] == ToLe(count, 2)[1];
    if pe < 64 {
      LowPointer(b, pe);
    }
  }

  lemma SmallCount(n: nat)
    requires n < 256
    ensures ToLe(n, 2)[0] == n && ToLe(n, 2)[1] == 0
  {
    assert ToLe(n, 2) == [n % 256] + ToLe(n / 256, 1);
  }

  lemma LowPointer(b: seq<byte>, pe: nat)
    requires |b| >= DOS_HEADER_LEN && Long(b, E_LFANEW) == pe < 256
    ensures b[60] == pe && b[61] == 0 && b[62] == 0 && b[63] == 0
  {
    FieldBytes(b, E_LFANEW, 4, pe);
    assert ToLe(pe, 4) == [pe] + ToLe(0, 3);
    assert ToLe(0, 3) == [0] + ToLe(0, 2);
    assert ToLe(0, 2) == [0] + ToLe(0, 1);
    assert b[E_LFANEW + 0] == ToLe(pe, 4)[0] && b[E_LFANEW + 1] == ToLe(pe, 4)[1];
    assert b[E_LFANEW + 2] == ToLe(pe, 4)[2] && b[E_LFANEW + 3] == ToLe(pe, 4)[3];
  }

  /** Adding to a size carries into its bytes from number `k` on. */
  predicate CarriesInto(size: nat, added: nat, k: nat) {
    size % Power256(k) + added >= Power256(k)
  }

  /** A number is not a multiple of that power: it has something in the `k` lowest bytes. */
  predicate HasBelow(n: nat, k: nat) {
    n % Power256(k) != 0
  }

  /** The added size leaves the bytes of the old one alone that lie in the pointer: the high ones, into which nothing is
      carried, or the low ones, of which the added size has none. */
  predicate DataSpared(pe: nat, size: nat, added: nat) {
    && (forall k {:trigger CarriesInto(size, added, k)} :: 0 <= k < 4 && pe + k == 28 ==> !CarriesInto(size, added, k))
    && (forall k {:trigger HasBelow(added, k)} :: 0 < k < 4 && pe + k == 32 ==> !HasBelow(added, k))
  }

  /** Whether raising the section count and appending a section of one file alignment leaves the pointer to the headers
      alone, from the headers themselves. Headers that start at 32 or behind, but for 54, are always safe, and so are headers
      that start below 25. */
  predicate SparesPointer(h: Headers) {
    h.peOffset != 54 && DataSpared(h.peOffset, h.initializedData, h.fileAlignment)
  }

  /** The bytes that are the pointer's too, of a field of four bytes that starts at `at`. */
  lemma SparesIff(b: seq<byte>, at: nat, size: nat, changed: nat)
    requires |b| >= DOS_HEADER_LEN && at + 4 <= |b| && Long(b, at) == size
    ensures at + 4 <= E_LFANEW || E_LFANEW + 4 <= at ==> Spares(b, at, ToLe(changed, 4))
    ensures E_LFANEW - 3 <= at <= E_LFANEW ==>
      (Spares(b, at, ToLe(changed, 4)) <==> ToLe(changed, 4)[E_LFANEW - at..] == ToLe(size, 4)[E_LFANEW - at..])
    ensures E_LFANEW < at < E_LFANEW + 4 ==>
      (Spares(b, at, ToLe(changed, 4)) <==> ToLe(changed, 4)[..E_LFANEW + 4 - at] == ToLe(size, 4)[..E_LFANEW + 4 - at])
  {
    FieldBytes(b, at, 4, size);
    var r, r' := ToLe(size, 4), ToLe(changed, 4);
    forall i | at <= i < at + 4 ensures b[i] == r[i - at] {
      assert b[at + (i - at)] == r[i - at];
    }
    if E_LFANEW - 3 <= at <= E_LFANEW {
      SameTail(r', r, E_LFANEW - at);
    } else if E_LFANEW < at < E_LFANEW + 4 {
      SameFront(r', r, E_LFANEW + 4 - at);
    }
  }

  lemma SameTail(r: seq<byte>, s: seq<byte>, k: nat)
    requires |r| == |s| && k <= |r|
    ensures r[k..] == s[k..] <==> forall i {:trigger r[i]} {:trigger s[i]} :: k <= i < |r| ==> r[i] == s[i]
  {
    if r[k..] == s[k..] {
      forall i | k <= i < |r| ensures r[i] == s[i] {
        assert r[k..][i - k] == s[k..][i - k];
      }
    }
  }

  lemma SameFront(r: seq<byte>, s: seq<byte>, k: nat)
    requires |r| == |s| && k <= |r|
    ensures r[..k] == s[..k] <==> forall i {:trigger r[i]} {:trigger s[i]} :: 0 <= i < k ==> r[i] == s[i]
  {
    if r[..k] == s[..k] {
      forall i | 0 <= i < k ensures r[i] == s[i] {
        assert r[..k][i] == s[..k][i];
      }
    }
  }

  /** The size of the initialized data after `added` bytes of it have been appended. */
  lemma DataSparesIff(b: seq<byte>, pe: nat, size: nat, added: nat, sum: u32)
    requires |b| >= DOS_HEADER_LEN && pe + 36 <= |b| && Long(b, pe + 32) == size && sum == size + added
    ensures Spares(b, pe + 32, ToLe(sum, 4)) <==> DataSpared(pe, size, added)
  {
    SparesIff(b, pe + 32, size, sum);
    if 25 <= pe <= 28 {
      HighBytes(size, added, 28 - pe);
    } else if 29 <= pe <= 31 {
      LowBytes(size, added, 32 - pe);
    }
  }

  /** The high bytes stay when nothing is carried to them. */
  lemma HighBytes(size: nat, added: nat, k: nat)
    requires k < 4 && size + added < U32_END
    ensures ToLe(size + added, 4)[k..] == ToLe(size, 4)[k..] <==> !CarriesInto(size, added, k)
  {
    SameHigh(size + added, size, k);
    SameQuotient(size, added, Power256(k));
  }

  lemma SameQuotient(size: nat, added: nat, m: nat)
    requires m > 0
    ensures (size + added) / m == size / m <==> size % m + added < m
  {
    var sum := size + added;
    var k := sum / m - size / m;
    assert sum == sum / m * m + sum % m && size == size / m * m + size % m;
    assert k * m == size % m + added - sum % m;
    ProductIsFar(k, m);
  }

  /** The low bytes stay when the added number has none. */
  lemma LowBytes(size: nat, added: nat, k: nat)
    requires 0 < k < 4
    ensures ToLe(size + added, 4)[..k] == ToLe(size, 4)[..k] <==> !HasBelow(added, k)
  {
    LowLe(size, k, 4);
    LowLe(size + added, k, 4);
    SameLow(size + added, size, k);
    SameRemainder(size, added, Power256(k));
  }

  lemma SameRemainder(size: nat, added: nat, m: nat)
    requires m > 0
    ensures (size + added) % m == size % m <==> added % m == 0
  {
    var sum := size + added;
    var k := sum / m - size / m - added / m;
    assert sum == sum / m * m + sum % m && size == size / m * m + size % m && added == added / m * m + added % m;
    assert k * m == size % m + added % m - sum % m;
    ProductIsFar(k, m);
    ProductIsFar(k - 1, m);
  }

  /** Adding a section of one file alignment, which is at most 64 KiB. */
  predicate AddsSection(e: HeaderEdit, h: Headers, count: nat) {
    && EditsImage(e, h, count) && 1 <= count <= MAX_SECTIONS
    && e.initializedData == h.initializedData + h.fileAlignment && h.fileAlignment <= 0x1_0000
  }

  lemma ParsedFields(b: seq<byte>, h: Headers, ss: seq<Section>)
    requires ParsePe(b) == Some(Image(h, ss, b))
    ensures |b| >= DOS_HEADER_LEN && Long(b, E_LFANEW) == h.peOffset && h.peOffset + 36 <= |b|
    ensures Word(b, h.peOffset + 6) == |ss| && Long(b, h.peOffset + 32) == h.initializedData
  {
  }

  /** The changes that add a section leave the pointer alone exactly when the headers spare it. */
  lemma AddedSectionSparesIff(b: seq<byte>, b': seq<byte>, h: Headers, ss: seq<Section>, e: HeaderEdit, len: nat)
    requires ParsePe(b) == Some(Image(h, ss, b)) && AddsSection(e, h, |ss|) && IsEdited(b, b', e, len) && DOS_HEADER_LEN <= len
    ensures PointerStays(b, b') <==> SparesPointer(h)
  {
    ParsedFields(b, h, ss);
    EditedPointerStaysIff(b, b', e, len);
    CountSparesIff(b, e.pe, |ss|, e.count);
    DataSparesIff(b, e.pe, h.initializedData, h.fileAlignment, e.initializedData);
  }

  // ---------------------------------------------------------------------
  // Where the pointer moves to
  // ---------------------------------------------------------------------

  /** Headers that share only their high bytes with the pointer, or the section count: it moves on by one. */
  predicate MovesByOne(h: Headers) {
    h.peOffset in {25, 26, 54} && !SparesPointer(h)
  }

  lemma LongIsSmall(b: seq<byte>, at: nat, n: byte)
    requires at + 4 <= |b| && b[at] == n && b[at + 1] == 0 && b[at + 2] == 0 && b[at + 3] == 0
    ensures Long(b, at) == n
  {
    assert ToLe(n, 4) == [n] + ToLe(0, 3);
    assert ToLe(0, 3) == [0] + ToLe(0, 2);
    assert ToLe(0, 2) == [0] + ToLe(0, 1);
    assert b[at..at + 4] == ToLe(n, 4);
    LongReads(b, at, n);
  }

  /** A carry into the highest byte, and into the two highest ones. */
  lemma CarryOne(size: nat, added: nat)
    requires size + added < U32_END && added <= 0x1_0000
    ensures ToLe(size, 4)[3] == 25 && size % 0x100_0000 + added >= 0x100_0000 ==> ToLe(size + added, 4)[3] == 26
    ensures ToLe(size, 4)[2] == 26 && ToLe(size, 4)[3] == 0 && size % 0x1_0000 + added >= 0x1_0000 ==>
      ToLe(size + added, 4)[2] == 27 && ToLe(size + added, 4)[3] == 0
  {
    TopByte(size);
    TopByte(size + added);
    TopTwoBytes(size);
    TopTwoBytes(size + added);
  }

  lemma TopByte(n: nat)
    requires n < U32_END
    ensures ToLe(n, 4)[3] == n / 0x100_0000
  {
    Powers();
    HighLe(n, 3, 4);
    PowersOf256();
    assert ToLe(n, 4)[3] == ToLe(n, 4)[3..][0];
  }

  lemma TopTwoBytes(n: nat)
    requires n < U32_END
    ensures n / 0x1_0000 == (ToLe(n, 4)[2] as int) + 256 * (ToLe(n, 4)[3] as int)
  {
    Powers();
    HighLe(n, 2, 4);
    PowersOf256();
    assert ToLe(n, 4)[2] == ToLe(n, 4)[2..][0] && ToLe(n, 4)[3] == ToLe(n, 4)[2..][1];
    var m := n / 0x1_0000;
    assert ToLe(m, 2) == [m % 256] + ToLe(m / 256, 1);
  }

  lemma MovesFrom25(b: seq<byte>, b': seq<byte>, size: nat, added: nat)
    requires |b| >= DOS_HEADER_LEN && |b'| >= DOS_HEADER_LEN && Long(b, E_LFANEW) == 25 && Long(b, 57) == size
    requires size + added < U32_END && added <= 0x1_0000 && CarriesInto(size, added, 3)
    requires b'[60] == ToLe(size + added, 4)[3] && b'[61] == b[61] && b'[62] == b[62] && b'[63] == b[63]
    ensures Long(b', E_LFANEW) == 26
  {
    LowPointer(b, 25);
    FieldBytes(b, 57, 4, size);
    assert b[57 + 3] == ToLe(size, 4)[3];
    PowersOf256();
    CarryOne(size, added);
    LongIsSmall(b', E_LFANEW, 26);
  }

  lemma MovesFrom26(b: seq<byte>, b': seq<byte>, size: nat, added: nat)
    requires |b| >= DOS_HEADER_LEN && |b'| >= DOS_HEADER_LEN && Long(b, E_LFANEW) == 26 && Long(b, 58) == size
    requires size + added < U32_END && added <= 0x1_0000 && CarriesInto(size, added, 2)
    requires b'[60] == ToLe(size + added, 4)[2] && b'[61] == ToLe(size + added, 4)[3] && b'[62] == b[62] && b'[63] == b[63]
    ensures Long(b', E_LFANEW) == 27
  {
    LowPointer(b, 26);
    FieldBytes(b, 58, 4, size);
    assert b[58 + 2] == ToLe(size, 4)[2] && b[58 + 3] == ToLe(size, 4)[3];
    PowersOf256();
    CarryOne(size, added);
    LongIsSmall(b', E_LFANEW, 27);
  }

  lemma MovesFrom54(b: seq<byte>, b': seq<byte>, count: nat, raised: u16)
    requires |b| >= DOS_HEADER_LEN && |b'| >= DOS_HEADER_LEN && Long(b, E_LFANEW) == 54 && Word(b, 60) == count
    requires count <= MAX_SECTIONS && raised == count + 1
    requires b'[60] == ToLe(raised, 2)[0] && b'[61] == ToLe(raised, 2)[1] && b'[62] == b[62] && b'[63] == b[63]
    ensures Long(b', E_LFANEW) == 55
  {
    LowPointer(b, 54);
    FieldBytes(b, 60, 2, count);
    SmallCount(count);
    SmallCount(raised);
    assert b[60 + 0] == ToLe(count, 2)[0];
    LongIsSmall(b', E_LFANEW, 55);
  }

  /** The pointer, where it overlaps the section count, and where it overlaps the high bytes of the size. */
  lemma EditedPointer(b: seq<byte>, b': seq<byte>, e: HeaderEdit, len: nat)
    requires IsEdited(b, b', e, len) && DOS_HEADER_LEN <= len && e.pe in {25, 26, 54}
    ensures e.pe == 54 ==> b'[60] == ToLe(e.count, 2)[0] && b'[61] == ToLe(e.count, 2)[1]
    ensures e.pe == 25 ==> b'[60] == ToLe(e.initializedData, 4)[3] && b'[61] == b[61]
    ensures e.pe == 26 ==> b'[60] == ToLe(e.initializedData, 4)[2] && b'[61] == ToLe(e.initializedData, 4)[3]
    ensures b'[62] == b[62] && b'[63] == b[63]
  {
    EditedByte(b, b', e, len, 60);
    EditedByte(b, b', e, len, 61);
    EditedByte(b, b', e, len, 62);
    EditedByte(b, b', e, len, 63);
  }

  lemma PointerMovesByOne(b: seq<byte>, b': seq<byte>, h: Headers, ss: seq<Section>, e: HeaderEdit, len: nat)
    requires ParsePe(b) == Some(Image(h, ss, b)) && AddsSection(e, h, |ss|) && IsEdited(b, b', e, len) && DOS_HEADER_LEN <= len
    requires MovesByOne(h)
    ensures Long(b', E_LFANEW) == h.peOffset + 1
  {
    ParsedFields(b, h, ss);
    EditedPointer(b, b', e, len);
    MovedByOne(b, b', e.pe, h.initializedData, h.fileAlignment, e.initializedData, |ss|, e.count);
  }

  lemma MovedByOne(b: seq<byte>, b': seq<byte>, pe: nat, size: nat, added: nat, sum: u32, count: nat, raised: u16)
    requires |b| >= DOS_HEADER_LEN && |b'| >= DOS_HEADER_LEN && pe in {25, 26, 54} && pe + 36 <= |b| && Long(b, E_LFANEW) == pe
    requires Long(b, pe + 32) == size && sum == size + added && added <= 0x1_0000 && (pe == 54 || !DataSpared(pe, size, added))
    requires Word(b, pe + 6) == count <= MAX_SECTIONS && raised == count + 1
    requires pe == 54 ==> b'[60] == ToLe(raised, 2)[0] && b'[61] == ToLe(raised, 2)[1]
    requires pe == 25 ==> b'[60] == ToLe(sum, 4)[3] && b'[61] == b[61]
    requires pe == 26 ==> b'[60] == ToLe(sum, 4)[2] && b'[61] == ToLe(sum, 4)[3]
    requires b'[62] == b[62] && b'[63] == b[63]
    ensures Long(b', E_LFANEW) == pe + 1
  {
    if pe == 54 {
      MovesFrom54(b, b', count, raised);
    } else if pe == 25 {
      MovesFrom25(b, b', size, added);
    } else {
      MovesFrom26(b, b', size, added);
    }
  }

  /** One byte further on there is no signature. */
  lemma MovedByOneIsLost(b: seq<byte>, b': seq<byte>, h: Headers, ss: seq<Section>, e: HeaderEdit, len: nat)
    requires ParsePe(b) == Some(Image(h, ss, b)) && AddsSection(e, h, |ss|) && IsEdited(b, b', e, len) && DOS_HEADER_LEN <= len
    requires MovesByOne(h)
    ensures ParsePe(b') == None
  {
    PointerMovesByOne(b, b', h, ss, e, len);
    EditAgrees(b, b', e, len, e.pe, e.pe + 6);
    ParsedSignature(b, h, ss);
    SecondLetter(b, b', e.pe);
    if HasHeaders(b') {
      SignatureIsFirst(b');
    }
  }

  lemma SecondLetter(b: seq<byte>, b': seq<byte>, pe: nat)
    requires Agree(b, b', pe, pe + 6) && b[pe..pe + 4] == SIGNATURE
    ensures b'[pe + 1] != SIGNATURE[0]
  {
    assert b'[pe + 1] == b'[pe..pe + 6][1] && b[pe + 1] == b[pe..pe + 6][1] && b[pe + 1] == b[pe..pe + 4][1];
  }

  lemma SignatureIsFirst(b: seq<byte>)
    requires HasHeaders(b)
    ensures b[Long(b, E_LFANEW)] == SIGNATURE[0]
  {
    assert b[Long(b, E_LFANEW)] == b[Long(b, E_LFANEW)..Long(b, E_LFANEW) + 4][0];
  }

  lemma ParsedSignature(b: seq<byte>, h: Headers, ss: seq<Section>)
    requires ParsePe(b) == Some(Image(h, ss, b))
    ensures h.peOffset + 6 <= |b| && b[h.peOffset..h.peOffset + 4] == SIGNATURE
  {
  }

  /** The changed file parses into the changed image exactly when the pointer to the headers stays. */
  lemma EditedParsesIff(b: seq<byte>, b': seq<byte>, h: Headers, ss: seq<Section>, e: HeaderEdit, len: nat)
    requires ParsePe(b) == Some(Image(h, ss, b)) && EditsImage(e, h, |ss|) && IsEdited(b, b', e, len) && DOS_HEADER_LEN <= |b'|
    ensures ParsePe(b') == Some(Image(HeadersWith(h, e.initializedData, e.sizeOfImage, (0, 0)), ss + [e.section], b'))
            <==> PointerStays(b, b')
  {
    SamePointer(b, b');
    HoldsIff(b, h, ss);
    HoldsIff(b', HeadersWith(h, e.initializedData, e.sizeOfImage, (0, 0)), ss + [e.section]);
    if PointerStays(b, b') {
      EditedHolds(b, b', h, ss, e, len);
    }
  }

  lemma EditedHolds(b: seq<byte>, b': seq<byte>, h: Headers, ss: seq<Section>, e: HeaderEdit, len: nat)
    requires Holds(b, h, ss) && EditsImage(e, h, |ss|) && IsEdited(b, b', e, len)
    requires DOS_HEADER_LEN <= |b'| && Long(b', E_LFANEW) == h.peOffset
    ensures Holds(b', HeadersWith(h, e.initializedData, e.sizeOfImage, (0, 0)), ss + [e.section])
  {
    var h' := HeadersWith(h, e.initializedData, e.sizeOfImage, (0, 0));
    EditedHeaders(b, b', h, e, len);
    SectionsEdited(b, b', e, len, h.SectionTable(), ss);
    assert h'.SectionTable() == h.SectionTable();
  }

  lemma EditedHeaders(b: seq<byte>, b': seq<byte>, h: Headers, e: HeaderEdit, len: nat)
    requires HeadersHold(b, h) && e.pe == h.peOffset && h.SecurityEntry() == Some(e.entry) && h.SectionTable() <= e.slot
    requires IsEdited(b, b', e, len) && DOS_HEADER_LEN <= |b'| && Long(b', E_LFANEW) == h.peOffset
    ensures HeadersHold(b', HeadersWith(h, e.initializedData, e.sizeOfImage, (0, 0)))
  {
    EditedAgrees(b, b', e, len, h.kind, h.SectionTable());
    SetFields(b, b', e, len);
    SecurityCleared(b', h, e.entry);
    HeadersAgain(b, b', h, e.slot, e.initializedData, e.sizeOfImage, (0, 0));
  }

  lemma SecurityCleared(b: seq<byte>, h: Headers, entry: nat)
    requires h.SecurityEntry() == Some(entry) && h.SectionTable() <= |b| && Long(b, entry) == 0 && Long(b, entry + 4) == 0
    ensures SecurityIn(b, h.peOffset, h.kind, h.optionalHeaderSize, h.directories) == (0, 0)
  {
  }

  // ---------------------------------------------------------------------
  // Naming a certificate table
  // ---------------------------------------------------------------------

  /** What a signing tool writes into the headers: a checksum of its own, and the range of the table. */
  function SignChanges(pe: nat, entry: nat, checksum: u32, offset: u32, size: u32): seq<Change> {
    [Change(pe + 88, ToLe(checksum, 4)), Change(entry, ToLe(offset, 4)), Change(entry + 4, ToLe(size, 4))]
  }

  predicate SignFits(pe: nat, entry: nat, len: nat) {
    pe + 92 <= entry && entry + 8 <= len
  }

  function SignedHead(b: seq<byte>, pe: nat, entry: nat, checksum: u32, offset: u32, size: u32): (r: seq<byte>)
    requires SignFits(pe, entry, |b|)
    ensures |r| == |b|
  {
    Apply(b, SignChanges(pe, entry, checksum, offset, size))
  }

  lemma SignAgrees(b: seq<byte>, rest: seq<byte>, pe: nat, entry: nat, checksum: u32, offset: u32, size: u32, at: nat, end: nat)
    requires SignFits(pe, entry, |b|) && at <= end <= |b|
    requires (end <= pe + 88 || pe + 92 <= at) && (end <= entry || entry + 8 <= at)
    ensures Agree(b, SignedHead(b, pe, entry, checksum, offset, size) + rest, at, end)
  {
    var head := SignedHead(b, pe, entry, checksum, offset, size);
    ApplyKeeps(b, SignChanges(pe, entry, checksum, offset, size), at, end);
    assert (head + rest)[at..end] == head[at..end];
  }

  lemma SignReads(b: seq<byte>, rest: seq<byte>, pe: nat, entry: nat, checksum: u32, offset: u32, size: u32)
    requires SignFits(pe, entry, |b|)
    ensures var b' := SignedHead(b, pe, entry, checksum, offset, size) + rest; Long(b', entry) == offset && Long(b', entry + 4) == size
  {
    var cs, head := SignChanges(pe, entry, checksum, offset, size), SignedHead(b, pe, entry, checksum, offset, size);
    ApplySets(b, cs, 1);
    ApplySets(b, cs, 2);
    assert (head + rest)[entry..entry + 4] == head[entry..entry + 4] && (head + rest)[entry + 4..entry + 8] == head[entry + 4..entry + 8];
    LongReads(head + rest, entry, offset);
    LongReads(head + rest, entry + 4, size);
  }

  lemma SignedAgrees(b: seq<byte>, rest: seq<byte>, pe: nat, entry: nat, checksum: u32, offset: u32, size: u32, kind: Kind,
                     table: nat, slot: nat)
    requires SignFits(pe, entry, |b|) && entry == pe + 24 + FixedLen(kind) + SECURITY_DIRECTORY * 8 && entry + 8 <= table <= slot <= |b|
    ensures HeadersAgree(b, SignedHead(b, pe, entry, checksum, offset, size) + rest, pe, kind, table, slot)
  {
    SignAgrees(b, rest, pe, entry, checksum, offset, size, 0, 2);
    SignAgrees(b, rest, pe, entry, checksum, offset, size, pe, pe + 6);
    SignAgrees(b, rest, pe, entry, checksum, offset, size, pe + 20, pe + 26);
    SignAgrees(b, rest, pe, entry, checksum, offset, size, pe + 56, pe + 64);
    SignAgrees(b, rest, pe, entry, checksum, offset, size, pe + 84, pe + 88);
    SignAgrees(b, rest, pe, entry, checksum, offset, size, pe + 20 + FixedLen(kind), pe + 24 + FixedLen(kind));
    SignAgrees(b, rest, pe, entry, checksum, offset, size, table, slot);
  }

  /** Signing writes behind the pointer to the headers, wherever they start. */
  lemma SignedPointerStays(b: seq<byte>, rest: seq<byte>, pe: nat, entry: nat, checksum: u32, offset: u32, size: u32)
    requires |b| >= DOS_HEADER_LEN && SignFits(pe, entry, |b|)
    ensures PointerStays(b, SignedHead(b, pe, entry, checksum, offset, size) + rest)
  {
    SignAgrees(b, rest, pe, entry, checksum, offset, size, E_LFANEW, E_LFANEW + 4);
  }

  /** The signed file parses into the image that names the table. */
  lemma SignedFileParses(b: seq<byte>, rest: seq<byte>, h: Headers, ss: seq<Section>, entry: nat, checksum: u32, offset: u32, size: u32)
    requires ParsePe(b) == Some(Image(h, ss, b)) && h.SecurityEntry() == Some(entry) && SignFits(h.peOffset, entry, |b|)
    ensures var b' := SignedHead(b, h.peOffset, entry, checksum, offset, size) + rest;
            ParsePe(b') == Some(Image(h.(security := (offset, size)), ss, b'))
  {
    var b' := SignedHead(b, h.peOffset, entry, checksum, offset, size) + rest;
    HoldsIff(b, h, ss);
    HoldsIff(b', h.(security := (offset, size)), ss);
    SignedPointerStays(b, rest, h.peOffset, entry, checksum, offset, size);
    SamePointer(b, b');
    SignedHolds(b, rest, h, ss, entry, checksum, offset, size);
  }

  lemma SignedHolds(b: seq<byte>, rest: seq<byte>, h: Headers, ss: seq<Section>, entry: nat, checksum: u32, offset: u32, size: u32)
    requires Holds(b, h, ss) && h.SecurityEntry() == Some(entry) && SignFits(h.peOffset, entry, |b|)
    requires Long(SignedHead(b, h.peOffset, entry, checksum, offset, size) + rest, E_LFANEW) == h.peOffset
    ensures Holds(SignedHead(b, h.peOffset, entry, checksum, offset, size) + rest, h.(security := (offset, size)), ss)
  {
    SignedHeaders(b, rest, h, h.SectionTable() + |ss| * SECTION_HEADER_LEN, entry, checksum, offset, size);
    SignedSections(b, rest, h.peOffset, entry, checksum, offset, size, h.SectionTable(), ss);
    assert h.(security := (offset, size)).SectionTable() == h.SectionTable();
  }

  lemma SignedHeaders(b: seq<byte>, rest: seq<byte>, h: Headers, slot: nat, entry: nat, checksum: u32, offset: u32, size: u32)
    requires HeadersHold(b, h) && h.SecurityEntry() == Some(entry) && SignFits(h.peOffset, entry, |b|)
    requires h.SectionTable() <= slot <= |b|
    requires Long(SignedHead(b, h.peOffset, entry, checksum, offset, size) + rest, E_LFANEW) == h.peOffset
    ensures HeadersHold(SignedHead(b, h.peOffset, entry, checksum, offset, size) + rest, h.(security := (offset, size)))
  {
    var b' := SignedHead(b, h.peOffset, entry, checksum, offset, size) + rest;
    SignReads(b, rest, h.peOffset, entry, checksum, offset, size);
    SignedAgrees(b, rest, h.peOffset, entry, checksum, offset, size, h.kind, h.SectionTable(), slot);
    OtherFieldsStay(b, rest, h.peOffset, entry, checksum, offset, size);
    SecurityNamed(b', h, entry, offset, size);
    RecordFields(b, h);
    HeadersAgain(b, b', h, slot, h.initializedData, h.sizeOfImage, (offset, size));
    assert HeadersWith(h, h.initializedData, h.sizeOfImage, (offset, size)) == h.(security := (offset, size));
  }

  lemma SignedSections(b: seq<byte>, rest: seq<byte>, pe: nat, entry: nat, checksum: u32, offset: u32, size: u32, table: nat,
                       ss: seq<Section>)
    requires SignFits(pe, entry, |b|) && SectionsHold(b, pe, table, ss) && entry + 8 <= table
    ensures SectionsHold(SignedHead(b, pe, entry, checksum, offset, size) + rest, pe, table, ss)
  {
    OtherFieldsStay(b, rest, pe, entry, checksum, offset, size);
    SignAgrees(b, rest, pe, entry, checksum, offset, size, table, table + |ss| * SECTION_HEADER_LEN);
    SectionsAgree(b, SignedHead(b, pe, entry, checksum, offset, size) + rest, table, |ss|);
  }

  lemma OtherFieldsStay(b: seq<byte>, rest: seq<byte>, pe: nat, entry: nat, checksum: u32, offset: u32, size: u32)
    requires SignFits(pe, entry, |b|)
    ensures var b' := SignedHead(b, pe, entry, checksum, offset, size) + rest;
            Word(b', pe + 6) == Word(b, pe + 6) && Long(b', pe + 32) == Long(b, pe + 32) && Long(b', pe + 80) == Long(b, pe + 80)
  {
    SignAgrees(b, rest, pe, entry, checksum, offset, size, pe + 6, pe + 8);
    SignAgrees(b, rest, pe, entry, checksum, offset, size, pe + 32, pe + 36);
    SignAgrees(b, rest, pe, entry, checksum, offset, size, pe + 80, pe + 84);
  }

  lemma SecurityNamed(b: seq<byte>, h: Headers, entry: nat, offset: u32, size: u32)
    requires h.SecurityEntry() == Some(entry) && h.SectionTable() <= |b| && Long(b, entry) == offset && Long(b, entry + 4) == size
    ensures SecurityIn(b, h.peOffset, h.kind, h.optionalHeaderSize, h.directories) == (offset, size)
  {
  }
}
