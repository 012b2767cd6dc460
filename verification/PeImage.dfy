/** PE images as the layout check of `src/runtime_data.rs` sees them: the header fields that it reads, the section
    table as a sequence of records, and the bytes of the file, from which `PeHeader` reads both. The rules are those of
    the Microsoft PE Format specification, "Section Table (Section Headers)" and "Optional Header Windows-Specific
    Fields". */
module PeImage {
  import opened Wrappers
  import opened Bytes

  const SECTION_HEADER_LEN := 40
  const MAX_SECTIONS := 96
  const MAX_HEADER_BYTES := 16 * 1024 * 1024
  const MAX_PE64_IMAGE := 2 * 1024 * 1024 * 1024
  const SECURITY_DIRECTORY := 4
  const ANCHOR_LEN := 100
  const CAPABILITY_LEN := 48

  /** `.cship` and `.cscap`, padded. */
  const ANCHOR_NAME: seq<byte> := [46, 99, 115, 104, 105, 112, 0, 0]
  const CAPABILITY_NAME: seq<byte> := [46, 99, 115, 99, 97, 112, 0, 0]

  /** Initialized data, readable. */
  const ANCHOR_FLAGS: u32 := 0x4000_0040

  datatype Kind = Pe32 | Pe64

  datatype Section = Section(name: seq<byte>, vaddr: u32, vsize: u32, raw: u32, rawSize: u32, flags: u32) {
    predicate FileBacked() { rawSize != 0 }

    function RawEnd(): nat { raw + rawSize }

    function Span(): nat { if vsize >= rawSize then vsize else rawSize }

    predicate Mapped() { Span() != 0 }

    function VirtualEnd(): nat { vaddr + Span() }
  }

  datatype Headers = Headers(
    kind: Kind,
    executable: bool,
    peOffset: u32,
    optionalHeaderSize: u16,
    directories: u32,
    security: (u32, u32),
    fileAlignment: u32,
    sectionAlignment: u32,
    sizeOfHeaders: u32,
    sizeOfImage: u32,
    initializedData: u32)
  {
    function OptionalHeaderOffset(): nat { peOffset + 24 }

    function SectionTable(): nat { OptionalHeaderOffset() + optionalHeaderSize }

    /** Images aligned below the page size keep file offsets equal to addresses. */
    predicate LowAlignment() { sectionAlignment < 4096 }

    /** Where the certificate entry of the data directories is, if the optional header has room for it. */
    function SecurityEntry(): Option<nat> {
      var offset := OptionalHeaderOffset() + (if kind.Pe32? then 96 else 112) + SECURITY_DIRECTORY * 8;
      if directories > SECURITY_DIRECTORY && offset + 8 <= SectionTable() then Some(offset) else None
    }
  }

  datatype Image = Image(h: Headers, sections: seq<Section>, bytes: seq<byte>)

  function IsPowerOfTwo(n: nat): bool {
    n == 1 || (n > 0 && n % 2 == 0 && IsPowerOfTwo(n / 2))
  }

  // ---------------------------------------------------------------------
  // What the check accepts
  // ---------------------------------------------------------------------

  predicate AlignmentsOk(h: Headers) {
    && IsPowerOfTwo(h.fileAlignment) && 512 <= h.fileAlignment <= 64 * 1024
    && IsPowerOfTwo(h.sectionAlignment)
    && (if h.LowAlignment() then h.sectionAlignment == h.fileAlignment else h.sectionAlignment >= h.fileAlignment)
  }

  /** A power of two is a multiple of the smaller ones. */
  lemma {:induction false} PowerIsWhole(n: nat, k: nat)
    requires IsPowerOfTwo(n) && IsPowerOfTwo(k) && k <= n
    ensures n % k == 0
  {
    if k > 1 {
      PowerIsWhole(n / 2, k / 2);
      assert n == 2 * (n / 2) && k == 2 * (k / 2);
      DoubleIsWhole(n / 2, k / 2);
    }
  }

  lemma DoubleIsWhole(n: nat, k: nat)
    requires k > 0 && n % k == 0
    ensures 2 * n % (2 * k) == 0
  {
    var q := n / k;
    assert 2 * n == q * (2 * k);
    MultipleIsAligned(q, 2 * k);
  }

  function Power2(k: nat): (p: nat)
    ensures p > 0
  {
    if k == 0 then 1 else 2 * Power2(k - 1)
  }

  lemma {:induction false} PowersAreFound(n: nat) returns (k: nat)
    requires IsPowerOfTwo(n)
    ensures n == Power2(k)
  {
    k := 0;
    if n > 1 {
      k := PowersAreFound(n / 2);
      k := k + 1;
    }
  }

  lemma {:induction false} PowersAre(k: nat)
    ensures IsPowerOfTwo(Power2(k))
  {
    if k > 0 {
      PowersAre(k - 1);
      assert Power2(k) % 2 == 0 && Power2(k) / 2 == Power2(k - 1);
    }
  }

  lemma PowerOfTwoIff(n: nat)
    ensures IsPowerOfTwo(n) <==> exists k: nat :: n == Power2(k)
  {
    if IsPowerOfTwo(n) {
      var k := PowersAreFound(n);
    }
    if k: nat :| n == Power2(k) {
      PowersAre(k);
    }
  }

  /** Both alignments are powers of two. */
  lemma AlignmentsArePowers(h: Headers)
    requires AlignmentsOk(h)
    ensures exists k: nat :: h.fileAlignment == Power2(k)
    ensures exists k: nat :: h.sectionAlignment == Power2(k)
  {
    PowerOfTwoIff(h.fileAlignment);
    PowerOfTwoIff(h.sectionAlignment);
  }

  lemma AlignmentIsWhole(h: Headers)
    requires AlignmentsOk(h)
    ensures h.fileAlignment % 0x100 == 0
  {
    assert IsPowerOfTwo(2) && IsPowerOfTwo(4) && IsPowerOfTwo(8) && IsPowerOfTwo(16) && IsPowerOfTwo(32);
    assert IsPowerOfTwo(64) && IsPowerOfTwo(128) && IsPowerOfTwo(256);
    PowerIsWhole(h.fileAlignment, 256);
  }

  /** The headers, for a table of `count` sections in a file of `fileLen` bytes. */
  predicate HeadersOk(h: Headers, count: nat, fileLen: nat) {
    && h.executable
    && 1 <= count <= MAX_SECTIONS
    && h.sizeOfHeaders <= MAX_HEADER_BYTES
    && h.sizeOfHeaders <= fileLen
    && h.SectionTable() + count * SECTION_HEADER_LEN <= h.sizeOfHeaders
    && AlignmentsOk(h)
    && h.sizeOfHeaders % h.fileAlignment == 0
    && h.sizeOfImage % h.sectionAlignment == 0
    && (h.kind.Pe64? ==> h.sizeOfImage <= MAX_PE64_IMAGE)
  }

  /** The file range of one section. */
  predicate RawRangeOk(h: Headers, s: Section, fileLen: nat)
    requires h.fileAlignment > 0
  {
    && s.RawEnd() <= fileLen
    && (s.FileBacked() ==>
         && s.raw >= h.sizeOfHeaders
         && s.raw % h.fileAlignment == 0 && s.rawSize % h.fileAlignment == 0
         && (h.LowAlignment() ==> s.raw == s.vaddr))
  }

  /** Where the last mapped section among the first `n` ends. */
  function LastVirtualEnd(ss: seq<Section>, n: nat): Option<nat>
    requires n <= |ss|
  {
    if n == 0 then None
    else if ss[n - 1].Mapped() then Some(ss[n - 1].VirtualEnd())
    else LastVirtualEnd(ss, n - 1)
  }

  /** A mapped section starts at the next aligned address after the mapped section before it. */
  predicate AdjacentTo(h: Headers, s: Section, previousEnd: Option<nat>)
    requires h.sectionAlignment > 0
  {
    s.Mapped() ==>
      && s.vaddr % h.sectionAlignment == 0
      && match previousEnd
         case None => s.vaddr >= AlignUp(h.sizeOfHeaders, h.sectionAlignment)
         case Some(end) => s.vaddr == AlignUp(end, h.sectionAlignment)
  }

  /** A section that carries one of the tool's own records. */
  predicate RecordSectionOk(h: Headers, s: Section, len: nat)
    requires h.fileAlignment > 0
  {
    s.vsize == len && s.rawSize == AlignUp(len, h.fileAlignment) && s.flags == ANCHOR_FLAGS
  }

  predicate SectionOk(h: Headers, ss: seq<Section>, j: nat, fileLen: nat)
    requires j < |ss| && h.fileAlignment > 0 && h.sectionAlignment > 0
  {
    && RawRangeOk(h, ss[j], fileLen)
    && AdjacentTo(h, ss[j], LastVirtualEnd(ss, j))
    && (ss[j].name == ANCHOR_NAME ==> RecordSectionOk(h, ss[j], ANCHOR_LEN))
    && (ss[j].name == CAPABILITY_NAME ==> RecordSectionOk(h, ss[j], CAPABILITY_LEN))
  }

  /** The first `n` sections: each one by itself, their order in the file, and at most one record section of a kind. */
  ghost predicate SectionsOk(h: Headers, ss: seq<Section>, n: nat, fileLen: nat)
    requires h.fileAlignment > 0 && h.sectionAlignment > 0 && n <= |ss|
  {
    && (forall j {:trigger SectionOk(h, ss, j, fileLen)} :: 0 <= j < n ==> SectionOk(h, ss, j, fileLen))
    && (forall i, j {:trigger InOrder(ss[i], ss[j])} :: 0 <= i < j < n ==> InOrder(ss[i], ss[j]))
  }

  predicate InOrder(a: Section, b: Section) {
    && (a.FileBacked() && b.FileBacked() ==> a.RawEnd() <= b.raw)
    && !(a.name == b.name && a.name in {ANCHOR_NAME, CAPABILITY_NAME})
  }

  /** The end of the headers or of the section that ends last in the file. */
  function MaxRawEnd(h: Headers, ss: seq<Section>, n: nat): nat
    requires n <= |ss|
  {
    if n == 0 then h.sizeOfHeaders
    else
      var m := MaxRawEnd(h, ss, n - 1);
      if ss[n - 1].FileBacked() && ss[n - 1].RawEnd() > m then ss[n - 1].RawEnd() else m
  }

  function MaxVirtualEnd(ss: seq<Section>, n: nat): nat
    requires n <= |ss|
  {
    if n == 0 then 0
    else
      var m := MaxVirtualEnd(ss, n - 1);
      if ss[n - 1].Mapped() && ss[n - 1].VirtualEnd() > m then ss[n - 1].VirtualEnd() else m
  }

  function FirstSectionOffset(ss: seq<Section>, n: nat): Option<nat>
    requires n <= |ss|
  {
    if n == 0 then None
    else
      var first := FirstSectionOffset(ss, n - 1);
      if !ss[n - 1].FileBacked() then first
      else if first.None? || ss[n - 1].raw < first.value then Some(ss[n - 1].raw)
      else first
  }

  function AnchorOf(ss: seq<Section>, n: nat): Option<Section>
    requires n <= |ss|
  {
    if n == 0 then None
    else if ss[n - 1].name == ANCHOR_NAME then Some(ss[n - 1])
    else AnchorOf(ss, n - 1)
  }

  /** The certificate range, when the security directory names one. */
  predicate CertificateOk(security: (u32, u32), maxRawEnd: nat, fileLen: nat) {
    || security == (0, 0)
    || (&& security.0 != 0 && security.1 != 0
        && security.0 % 8 == 0 && security.1 >= 8
        && security.0 + security.1 == fileLen
        && security.0 >= maxRawEnd)
  }

  datatype Layout = Layout(
    maxRawEnd: nat,
    maxVirtualEnd: nat,
    firstSection: Option<nat>,
    anchor: Option<Section>,
    certificate: Option<(u32, u32)>)

  function LayoutOf(img: Image): Layout {
    var n := |img.sections|;
    Layout(MaxRawEnd(img.h, img.sections, n), MaxVirtualEnd(img.sections, n), FirstSectionOffset(img.sections, n),
           AnchorOf(img.sections, n), if img.h.security == (0, 0) then None else Some(img.h.security))
  }

  ghost predicate Accepted(img: Image) {
    && HeadersOk(img.h, |img.sections|, |img.bytes|)
    && SectionsOk(img.h, img.sections, |img.sections|, |img.bytes|)
    && var l := LayoutOf(img);
       && AlignUp(l.maxVirtualEnd, img.h.sectionAlignment) <= img.h.sizeOfImage
       && (l.anchor.Some? ==> l.anchor.value.RawEnd() == l.maxRawEnd && l.anchor.value.VirtualEnd() == l.maxVirtualEnd)
       && CertificateOk(img.h.security, l.maxRawEnd, |img.bytes|)
  }

  lemma {:induction false} MappedEndsBefore(h: Headers, ss: seq<Section>, n: nat, fileLen: nat, i: nat)
    requires h.fileAlignment > 0 && h.sectionAlignment > 0 && n <= |ss| && SectionsOk(h, ss, n, fileLen) && i < n && ss[i].Mapped()
    ensures LastVirtualEnd(ss, n).Some? && ss[i].VirtualEnd() <= LastVirtualEnd(ss, n).value
  {
    if i < n - 1 {
      MappedEndsBefore(h, ss, n - 1, fileLen, i);
      assert SectionOk(h, ss, n - 1, fileLen);
    }
  }

  lemma {:induction false} MappedIsBehindHeaders(h: Headers, ss: seq<Section>, n: nat, fileLen: nat, i: nat)
    requires h.fileAlignment > 0 && h.sectionAlignment > 0 && n <= |ss| && SectionsOk(h, ss, n, fileLen) && i < n && ss[i].Mapped()
    ensures h.sizeOfHeaders <= ss[i].vaddr
  {
    assert SectionOk(h, ss, i, fileLen);
    if LastVirtualEnd(ss, i).Some? {
      var j := LastMapped(ss, i);
      MappedIsBehindHeaders(h, ss, i, fileLen, j);
    }
  }

  lemma {:induction false} LastMapped(ss: seq<Section>, n: nat) returns (j: nat)
    requires n <= |ss| && LastVirtualEnd(ss, n).Some?
    ensures j < n && ss[j].Mapped() && ss[j].VirtualEnd() == LastVirtualEnd(ss, n).value
  {
    j := n - 1;
    if !ss[j].Mapped() {
      j := LastMapped(ss, n - 1);
    }
  }

  lemma {:induction false} MappedEndsByMax(ss: seq<Section>, n: nat, i: nat)
    requires n <= |ss| && i < n && ss[i].Mapped()
    ensures ss[i].VirtualEnd() <= MaxVirtualEnd(ss, n)
  {
    if i < n - 1 {
      MappedEndsByMax(ss, n - 1, i);
    }
  }

  lemma {:induction false} FileEndsByMax(h: Headers, ss: seq<Section>, n: nat, i: nat)
    requires n <= |ss| && i < n && ss[i].FileBacked()
    ensures ss[i].RawEnd() <= MaxRawEnd(h, ss, n)
  {
    if i < n - 1 {
      FileEndsByMax(h, ss, n - 1, i);
    }
  }

  /** Apart in memory, behind the headers and in front of `end`. */
  ghost predicate ApartInMemory(ss: seq<Section>, start: nat, end: nat) {
    && (forall i {:trigger ss[i]} :: 0 <= i < |ss| && ss[i].Mapped() ==> start <= ss[i].vaddr && ss[i].VirtualEnd() <= end)
    && (forall i, j {:trigger ss[i], ss[j]} :: 0 <= i < j < |ss| && ss[i].Mapped() && ss[j].Mapped() ==> ss[i].VirtualEnd() <= ss[j].vaddr)
  }

  ghost predicate ApartInFile(ss: seq<Section>, start: nat, end: nat) {
    && (forall i {:trigger ss[i]} :: 0 <= i < |ss| && ss[i].FileBacked() ==> start <= ss[i].raw && ss[i].RawEnd() <= end)
    && (forall i, j {:trigger ss[i], ss[j]} :: 0 <= i < j < |ss| && ss[i].FileBacked() && ss[j].FileBacked() ==> ss[i].RawEnd() <= ss[j].raw)
  }

  lemma SectionsAreApartInMemory(h: Headers, ss: seq<Section>, len: nat)
    requires h.fileAlignment > 0 && h.sectionAlignment > 0 && SectionsOk(h, ss, |ss|, len)
    ensures ApartInMemory(ss, h.sizeOfHeaders, MaxVirtualEnd(ss, |ss|))
  {
    forall i | 0 <= i < |ss| && ss[i].Mapped() ensures h.sizeOfHeaders <= ss[i].vaddr && ss[i].VirtualEnd() <= MaxVirtualEnd(ss, |ss|) {
      MappedIsBehindHeaders(h, ss, |ss|, len, i);
      MappedEndsByMax(ss, |ss|, i);
    }
    forall i, j | 0 <= i < j < |ss| && ss[i].Mapped() && ss[j].Mapped() ensures ss[i].VirtualEnd() <= ss[j].vaddr {
      MappedEndsBefore(h, ss, j, len, i);
      assert SectionOk(h, ss, j, len);
    }
  }

  lemma SectionsAreApartInFile(h: Headers, ss: seq<Section>, len: nat)
    requires h.fileAlignment > 0 && h.sectionAlignment > 0 && SectionsOk(h, ss, |ss|, len)
    ensures ApartInFile(ss, h.sizeOfHeaders, MaxRawEnd(h, ss, |ss|))
  {
    forall i | 0 <= i < |ss| && ss[i].FileBacked() ensures h.sizeOfHeaders <= ss[i].raw && ss[i].RawEnd() <= MaxRawEnd(h, ss, |ss|) {
      FileEndsByMax(h, ss, |ss|, i);
      assert SectionOk(h, ss, i, len);
    }
    forall i, j | 0 <= i < j < |ss| && ss[i].FileBacked() && ss[j].FileBacked() ensures ss[i].RawEnd() <= ss[j].raw {
      assert InOrder(ss[i], ss[j]);
    }
  }

  /** In an accepted image the section table is inside the headers; headers, sections and certificates are apart in the file,
      and the sections are apart in memory, behind the headers and inside the image. */
  lemma PartsAreApart(img: Image)
    requires Accepted(img)
    ensures img.h.SectionTable() + |img.sections| * SECTION_HEADER_LEN <= img.h.sizeOfHeaders <= |img.bytes|
    ensures ApartInFile(img.sections, img.h.sizeOfHeaders, LayoutOf(img).maxRawEnd)
    ensures ApartInMemory(img.sections, img.h.sizeOfHeaders, LayoutOf(img).maxVirtualEnd) && LayoutOf(img).maxVirtualEnd <= img.h.sizeOfImage
    ensures img.h.security != (0, 0) ==>
      && img.h.sizeOfHeaders <= LayoutOf(img).maxRawEnd <= img.h.security.0
      && img.h.security.0 + img.h.security.1 == |img.bytes|
  {
    SectionsAreApartInMemory(img.h, img.sections, |img.bytes|);
    SectionsAreApartInFile(img.h, img.sections, |img.bytes|);
    HeadersEndByMax(img.h, img.sections, |img.sections|);
  }

  lemma {:induction false} HeadersEndByMax(h: Headers, ss: seq<Section>, n: nat)
    requires n <= |ss|
    ensures h.sizeOfHeaders <= MaxRawEnd(h, ss, n)
  {
    if n > 0 {
      HeadersEndByMax(h, ss, n - 1);
    }
  }

  // ---------------------------------------------------------------------
  // The check itself
  // ---------------------------------------------------------------------

  /** Ranges as the source collects them for its final overlap test, which sorts them first. They are collected in
      increasing order, so that sorting changes nothing and the test never fails. */
  ghost predicate RangesOrdered(ranges: seq<(nat, nat)>, bound: nat) {
    && (forall k :: 0 <= k < |ranges| ==> ranges[k].0 <= ranges[k].1 <= bound)
    && (forall k, m :: 0 <= k < m < |ranges| ==> ranges[k].1 <= ranges[m].0)
  }

  predicate Overlapping(ranges: seq<(nat, nat)>) {
    exists k {:trigger ranges[k]} :: 0 < k < |ranges| && ranges[k].0 < ranges[k - 1].1
  }

  /** The tests on one section, and what the loop carries to the next one. */
  datatype LoopState = LoopState(
    previousRawEnd: Option<nat>,
    previousVirtualEnd: Option<nat>,
    layout: Layout,
    capability: bool,
    rawRanges: seq<(nat, nat)>,
    virtualRanges: seq<(nat, nat)>)

  ghost predicate StateAt(h: Headers, ss: seq<Section>, n: nat, st: LoopState)
    requires n <= |ss|
  {
    RawStateAt(h, ss, n, st) && VirtualStateAt(ss, n, st) && NamesAt(ss, n, st)
  }

  ghost predicate RawStateAt(h: Headers, ss: seq<Section>, n: nat, st: LoopState)
    requires n <= |ss|
  {
    && (st.previousRawEnd.None? <==> forall k :: 0 <= k < n ==> !ss[k].FileBacked())
    && (st.previousRawEnd.Some? ==>
         && RangesOrdered(st.rawRanges, st.previousRawEnd.value)
         && forall k :: 0 <= k < n && ss[k].FileBacked() ==> ss[k].RawEnd() <= st.previousRawEnd.value)
    && (st.previousRawEnd.None? ==> st.rawRanges == [])
    && st.layout.maxRawEnd == MaxRawEnd(h, ss, n)
    && st.layout.firstSection == FirstSectionOffset(ss, n)
  }

  ghost predicate VirtualStateAt(ss: seq<Section>, n: nat, st: LoopState)
    requires n <= |ss|
  {
    && st.previousVirtualEnd == LastVirtualEnd(ss, n)
    && (if st.previousVirtualEnd.Some? then RangesOrdered(st.virtualRanges, st.previousVirtualEnd.value) else st.virtualRanges == [])
    && st.layout.maxVirtualEnd == MaxVirtualEnd(ss, n)
  }

  ghost predicate NamesAt(ss: seq<Section>, n: nat, st: LoopState)
    requires n <= |ss|
  {
    && st.layout.anchor == AnchorOf(ss, n)
    && (st.layout.anchor.Some? <==> HasName(ss, n, ANCHOR_NAME))
    && (st.capability <==> HasName(ss, n, CAPABILITY_NAME))
  }

  predicate HasName(ss: seq<Section>, n: nat, name: seq<byte>)
    requires n <= |ss|
  {
    exists k :: 0 <= k < n && ss[k].name == name
  }

  /** The tests that a section has to pass after the ones before it. */
  predicate Passes(h: Headers, s: Section, fileLen: nat, st: LoopState)
    requires h.fileAlignment > 0 && h.sectionAlignment > 0
  {
    && RawRangeOk(h, s, fileLen)
    && (s.FileBacked() && st.previousRawEnd.Some? ==> st.previousRawEnd.value <= s.raw)
    && AdjacentTo(h, s, st.previousVirtualEnd)
    && (s.name == ANCHOR_NAME ==> st.layout.anchor.None? && RecordSectionOk(h, s, ANCHOR_LEN))
    && (s.name == CAPABILITY_NAME ==> !st.capability && RecordSectionOk(h, s, CAPABILITY_LEN))
  }

  lemma PrefixGrowsIff(h: Headers, ss: seq<Section>, n: nat, fileLen: nat, st: LoopState)
    requires h.fileAlignment > 0 && h.sectionAlignment > 0 && n < |ss|
    requires SectionsOk(h, ss, n, fileLen) && StateAt(h, ss, n, st)
    requires LastRawEndIsReached(ss, n, st)
    ensures SectionsOk(h, ss, n + 1, fileLen) <==> Passes(h, ss[n], fileLen, st)
  {
    if SectionsOk(h, ss, n + 1, fileLen) {
      assert SectionOk(h, ss, n, fileLen);
      forall k | 0 <= k < n ensures InOrder(ss[k], ss[n]) {
      }
      OrderedPasses(ss, n, st);
    }
    if Passes(h, ss[n], fileLen, st) {
      PassingIsOrdered(h, ss, n, fileLen, st);
      forall j | 0 <= j < n + 1 ensures SectionOk(h, ss, j, fileLen) {
      }
    }
  }

  /** The tests against the sections before, from the pairwise rules. */
  lemma OrderedPasses(ss: seq<Section>, n: nat, st: LoopState)
    requires n < |ss| && LastRawEndIsReached(ss, n, st) && forall k :: 0 <= k < n ==> InOrder(ss[k], ss[n])
    requires st.layout.anchor.Some? <==> HasName(ss, n, ANCHOR_NAME)
    requires st.capability <==> HasName(ss, n, CAPABILITY_NAME)
    ensures ss[n].FileBacked() && st.previousRawEnd.Some? ==> st.previousRawEnd.value <= ss[n].raw
    ensures ss[n].name == ANCHOR_NAME ==> st.layout.anchor.None?
    ensures ss[n].name == CAPABILITY_NAME ==> !st.capability
  {
  }

  lemma PassingIsOrdered(h: Headers, ss: seq<Section>, n: nat, fileLen: nat, st: LoopState)
    requires h.fileAlignment > 0 && h.sectionAlignment > 0 && n < |ss| && StateAt(h, ss, n, st) && Passes(h, ss[n], fileLen, st)
    ensures forall k :: 0 <= k < n ==> InOrder(ss[k], ss[n])
  {
  }

  /** `previousRawEnd` is the end of one of the sections before. */
  ghost predicate LastRawEndIsReached(ss: seq<Section>, n: nat, st: LoopState)
    requires n <= |ss|
  {
    st.previousRawEnd.Some? ==> exists k :: 0 <= k < n && ss[k].FileBacked() && ss[k].RawEnd() == st.previousRawEnd.value
  }

  /** The loop variables after section `s`. */
  function Advanced(s: Section, st: LoopState): LoopState {
    var l := st.layout;
    LoopState(
      if s.FileBacked() then Some(s.RawEnd()) else st.previousRawEnd,
      if s.Mapped() then Some(s.VirtualEnd()) else st.previousVirtualEnd,
      Layout(
        if s.FileBacked() && s.RawEnd() > l.maxRawEnd then s.RawEnd() else l.maxRawEnd,
        if s.Mapped() && s.VirtualEnd() > l.maxVirtualEnd then s.VirtualEnd() else l.maxVirtualEnd,
        if !s.FileBacked() || (l.firstSection.Some? && l.firstSection.value <= s.raw) then l.firstSection else Some(s.raw),
        if s.name == ANCHOR_NAME then Some(s) else l.anchor,
        l.certificate),
      st.capability || s.name == CAPABILITY_NAME,
      st.rawRanges + if s.FileBacked() then [(s.raw, s.RawEnd())] else [],
      st.virtualRanges + if s.Mapped() then [(s.vaddr, s.VirtualEnd())] else [])
  }

  lemma AdvancedState(h: Headers, ss: seq<Section>, n: nat, fileLen: nat, st: LoopState)
    requires h.fileAlignment > 0 && h.sectionAlignment > 0 && n < |ss|
    requires StateAt(h, ss, n, st) && LastRawEndIsReached(ss, n, st) && Passes(h, ss[n], fileLen, st)
    ensures StateAt(h, ss, n + 1, Advanced(ss[n], st)) && LastRawEndIsReached(ss, n + 1, Advanced(ss[n], st))
  {
    AdvancedRawState(h, ss, n, st);
    AdvancedVirtualState(h, ss, n, st);
  }

  lemma RangeAppended(ranges: seq<(nat, nat)>, bound: nat, start: nat, end: nat)
    requires RangesOrdered(ranges, bound) && bound <= start <= end
    ensures RangesOrdered(ranges + [(start, end)], end)
  {
  }

  lemma AdvancedRawState(h: Headers, ss: seq<Section>, n: nat, st: LoopState)
    requires n < |ss| && RawStateAt(h, ss, n, st) && LastRawEndIsReached(ss, n, st)
    requires ss[n].FileBacked() && st.previousRawEnd.Some? ==> st.previousRawEnd.value <= ss[n].raw
    ensures RawStateAt(h, ss, n + 1, Advanced(ss[n], st)) && LastRawEndIsReached(ss, n + 1, Advanced(ss[n], st))
  {
    var s, next := ss[n], Advanced(ss[n], st);
    if s.FileBacked() {
      assert next.rawRanges == st.rawRanges + [(s.raw, s.RawEnd())];
      RangeAppended(st.rawRanges, if st.previousRawEnd.Some? then st.previousRawEnd.value else 0, s.raw, s.RawEnd());
    } else {
      assert next.rawRanges == st.rawRanges;
    }
  }

  lemma AdvancedVirtualState(h: Headers, ss: seq<Section>, n: nat, st: LoopState)
    requires n < |ss| && VirtualStateAt(ss, n, st) && h.sectionAlignment > 0 && AdjacentTo(h, ss[n], st.previousVirtualEnd)
    ensures VirtualStateAt(ss, n + 1, Advanced(ss[n], st))
  {
    var s, next := ss[n], Advanced(ss[n], st);
    if s.Mapped() {
      assert next.virtualRanges == st.virtualRanges + [(s.vaddr, s.VirtualEnd())];
      RangeAppended(st.virtualRanges, if st.previousVirtualEnd.Some? then st.previousVirtualEnd.value else 0, s.vaddr, s.VirtualEnd());
    } else {
      assert next.virtualRanges == st.virtualRanges;
    }
  }

  /** The loop variables after the file range of `s`. */
  function AdvancedRaw(s: Section, st: LoopState): LoopState {
    var first := st.layout.firstSection;
    if !s.FileBacked() then st
    else
      st.(previousRawEnd := Some(s.RawEnd()), rawRanges := st.rawRanges + [(s.raw, s.RawEnd())],
          layout := st.layout.(
            firstSection := Some(if first.Some? && first.value <= s.raw then first.value else s.raw),
            maxRawEnd := if s.RawEnd() > st.layout.maxRawEnd then s.RawEnd() else st.layout.maxRawEnd))
  }

  /** The first half of one turn: the tests on the file range. */
  method CheckRawRange(h: Headers, s: Section, fileLen: nat, st: LoopState) returns (ok: bool, next: LoopState)
    requires h.fileAlignment > 0
    ensures ok <==> RawRangeOk(h, s, fileLen) && (s.FileBacked() && st.previousRawEnd.Some? ==> st.previousRawEnd.value <= s.raw)
    ensures ok ==> next == AdvancedRaw(s, st)
  {
    next := st;
    var rawEnd := s.raw + s.rawSize;
    if rawEnd > fileLen { return false, st; }
    if s.rawSize != 0 {
      if s.raw < h.sizeOfHeaders { return false, st; }
      if s.raw % h.fileAlignment != 0 || s.rawSize % h.fileAlignment != 0 { return false, st; }
      if h.LowAlignment() && s.raw != s.vaddr { return false, st; }
      if st.previousRawEnd.Some? && s.raw < st.previousRawEnd.value { return false, st; }
      var first := st.layout.firstSection;
      next := st.(
        previousRawEnd := Some(rawEnd),
        rawRanges := st.rawRanges + [(s.raw, rawEnd)],
        layout := st.layout.(
          firstSection := Some(if first.Some? && first.value <= s.raw then first.value else s.raw),
          maxRawEnd := if rawEnd > st.layout.maxRawEnd then rawEnd else st.layout.maxRawEnd));
    }
    ok := true;
  }

  function AdvancedVirtual(s: Section, st: LoopState): LoopState {
    if !s.Mapped() then st
    else
      st.(previousVirtualEnd := Some(s.VirtualEnd()), virtualRanges := st.virtualRanges + [(s.vaddr, s.VirtualEnd())],
          layout := st.layout.(maxVirtualEnd := if s.VirtualEnd() > st.layout.maxVirtualEnd then s.VirtualEnd() else st.layout.maxVirtualEnd))
  }

  /** The second part: the tests on the addresses. */
  method CheckVirtualRange(h: Headers, s: Section, st: LoopState) returns (ok: bool, next: LoopState)
    requires h.sectionAlignment > 0
    ensures ok <==> AdjacentTo(h, s, st.previousVirtualEnd)
    ensures ok ==> next == AdvancedVirtual(s, st)
  {
    next := st;
    var span := if s.vsize >= s.rawSize then s.vsize else s.rawSize;
    var virtualEnd := s.vaddr + span;
    if span != 0 {
      if s.vaddr % h.sectionAlignment != 0 { return false, st; }
      match st.previousVirtualEnd {
        case Some(previous) => if s.vaddr != AlignUp(previous, h.sectionAlignment) { return false, st; }
        case None => if s.vaddr < AlignUp(h.sizeOfHeaders, h.sectionAlignment) { return false, st; }
      }
      next := next.(
        previousVirtualEnd := Some(virtualEnd),
        virtualRanges := st.virtualRanges + [(s.vaddr, virtualEnd)],
        layout := next.layout.(maxVirtualEnd := if virtualEnd > st.layout.maxVirtualEnd then virtualEnd else st.layout.maxVirtualEnd));
    }
    ok := true;
  }

  /** One turn of the section loop of `pe_layout_from_file`: the tests in their order, and the updates between. */
  method CheckSection(h: Headers, s: Section, fileLen: nat, st: LoopState) returns (ok: bool, next: LoopState)
    requires h.fileAlignment > 0 && h.sectionAlignment > 0
    ensures ok <==> Passes(h, s, fileLen, st)
    ensures ok ==> next == Advanced(s, st)
  {
    var isAnchor, isCapability := s.name == ANCHOR_NAME, s.name == CAPABILITY_NAME;
    if isAnchor && st.layout.anchor.Some? { return false, st; }
    ok, next := CheckRawRange(h, s, fileLen, st);
    if !ok { return; }
    ok, next := CheckVirtualRange(h, s, next);
    if !ok { return; }
    if isAnchor {
      if s.vsize != ANCHOR_LEN || s.rawSize != AlignUp(ANCHOR_LEN, h.fileAlignment) || s.flags != ANCHOR_FLAGS { return false, st; }
      next := next.(layout := next.layout.(anchor := Some(s)));
    }
    if isCapability {
      if st.capability { return false, st; }
      if s.vsize != CAPABILITY_LEN || s.rawSize != AlignUp(CAPABILITY_LEN, h.fileAlignment) || s.flags != ANCHOR_FLAGS { return false, st; }
      next := next.(capability := true);
    }
    assert next.rawRanges == Advanced(s, st).rawRanges && next.virtualRanges == Advanced(s, st).virtualRanges;
  }

  ghost predicate Scanned(h: Headers, ss: seq<Section>, n: nat, fileLen: nat, st: LoopState)
    requires h.fileAlignment > 0 && h.sectionAlignment > 0 && n <= |ss|
  {
    SectionsOk(h, ss, n, fileLen) && StateAt(h, ss, n, st) && LastRawEndIsReached(ss, n, st)
  }

  lemma NothingScanned(h: Headers, ss: seq<Section>, fileLen: nat, st: LoopState)
    requires h.fileAlignment > 0 && h.sectionAlignment > 0
    requires st == LoopState(None, None, Layout(h.sizeOfHeaders, 0, None, None, None), false, [], [])
    ensures Scanned(h, ss, 0, fileLen, st)
  {
  }

  lemma ScanStep(h: Headers, ss: seq<Section>, n: nat, fileLen: nat, st: LoopState)
    requires h.fileAlignment > 0 && h.sectionAlignment > 0 && n < |ss| && Scanned(h, ss, n, fileLen, st)
    ensures Passes(h, ss[n], fileLen, st) ==> Scanned(h, ss, n + 1, fileLen, Advanced(ss[n], st))
    ensures !Passes(h, ss[n], fileLen, st) ==> !SectionsOk(h, ss, |ss|, fileLen)
  {
    PrefixGrowsIff(h, ss, n, fileLen, st);
    if Passes(h, ss[n], fileLen, st) {
      AdvancedState(h, ss, n, fileLen, st);
    }
  }

  /** The ranges are collected in increasing order, and do not overlap. */
  lemma RangesDoNotOverlap(h: Headers, ss: seq<Section>, st: LoopState)
    requires StateAt(h, ss, |ss|, st)
    ensures !Overlapping(st.rawRanges) && !Overlapping(st.virtualRanges)
  {
  }

  /** The section loop, followed by its two overlap tests. */
  method ScanSections(h: Headers, ss: seq<Section>, fileLen: nat) returns (ok: bool, st: LoopState)
    requires h.fileAlignment > 0 && h.sectionAlignment > 0
    ensures ok <==> SectionsOk(h, ss, |ss|, fileLen)
    ensures ok ==> StateAt(h, ss, |ss|, st)
  {
    st := LoopState(None, None, Layout(h.sizeOfHeaders, 0, None, None, None), false, [], []);
    NothingScanned(h, ss, fileLen, st);
    var n := 0;
    while n < |ss|
      invariant n <= |ss| && Scanned(h, ss, n, fileLen, st)
    {
      ScanStep(h, ss, n, fileLen, st);
      var passes, next := CheckSection(h, ss[n], fileLen, st);
      if !passes { return false, st; }
      st, n := next, n + 1;
    }
    RangesDoNotOverlap(h, ss, st);
    ok := !Overlapping(st.rawRanges) && !Overlapping(st.virtualRanges);
  }

  /** `pe_layout_from_file`. The additions are checked for overflow of 64 bits in the source; the fields have 32. */
  method ReadLayout(img: Image) returns (r: Option<Layout>)
    ensures r.Some? <==> Accepted(img)
    ensures r.Some? ==> r.value == LayoutOf(img)
  {
    var h, fileLen := img.h, |img.bytes|;
    if !HeadersOk(h, |img.sections|, fileLen) { return None; }
    var ok, st := ScanSections(h, img.sections, fileLen);
    if !ok { return None; }
    var l := st.layout;
    if AlignUp(l.maxVirtualEnd, h.sectionAlignment) > h.sizeOfImage { return None; }
    if l.anchor.Some? && (l.anchor.value.RawEnd() != l.maxRawEnd || l.anchor.value.VirtualEnd() != l.maxVirtualEnd) { return None; }
    if !CertificateOk(h.security, l.maxRawEnd, fileLen) { return None; }
    r := Some(l.(certificate := if h.security == (0, 0) then None else Some(h.security)));
  }
}
