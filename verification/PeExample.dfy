/** Templates, built byte by byte, that the PE writer stamps, among them one whose headers overlap the pointer to them. */
module PeExample {
  import opened Wrappers
  import opened Bytes
  import opened RuntimeFooter
  import opened PeCertificates
  import opened PeImage
  import opened PeHeader
  import opened PeStamp

  const LEN := 1024

  /** Where headers can start that overlap the pointer: the size of the initialized data is then at the same place. */
  const OVERLAPPING := 28

  datatype Fields = Fields(
    pe: u32, count: u16, size: u16, characteristics: u16, magic: u16, initializedData: u32, sectionAlignment: u32,
    fileAlignment: u32, sizeOfImage: u32, sizeOfHeaders: u32, directories: u32, section: Section)

  predicate Places(f: Fields) {
    && (f.pe == OVERLAPPING || DOS_HEADER_LEN <= f.pe <= 184)
    && f.initializedData == f.pe && |f.section.name| == 8
  }

  function Front(f: Fields): seq<Change> {
    if f.pe == OVERLAPPING then [Change(0, MZ)] else [Change(0, MZ), Change(E_LFANEW, ToLe(f.pe, 4))]
  }

  function Back(f: Fields): seq<Change>
    requires |f.section.name| == 8
  {
    [Change(f.pe, SIGNATURE), Change(f.pe + 6, ToLe(f.count, 2)), Change(f.pe + 20, ToLe(f.size, 2)),
     Change(f.pe + 22, ToLe(f.characteristics, 2)), Change(f.pe + 24, ToLe(f.magic, 2)), Change(f.pe + 32, ToLe(f.initializedData, 4)),
     Change(f.pe + 56, ToLe(f.sectionAlignment, 4)), Change(f.pe + 60, ToLe(f.fileAlignment, 4)),
     Change(f.pe + 80, ToLe(f.sizeOfImage, 4)), Change(f.pe + 84, ToLe(f.sizeOfHeaders, 4)),
     Change(f.pe + 116, ToLe(f.directories, 4)), Change(f.pe + 248, SectionHeaderBytes(f.section))]
  }

  lemma PartsInSequence(f: Fields)
    requires Places(f)
    ensures InSequence(Front(f) + Back(f), LEN)
  {
    BackInSequence(f);
    BothInSequence(Front(f), Back(f), f.pe, LEN);
  }

  lemma BackInSequence(f: Fields)
    requires Places(f)
    ensures InSequence(Back(f), LEN) && forall k :: 0 <= k < |Back(f)| ==> f.pe <= Back(f)[k].at
  {
    forall k | 0 < k < |Back(f)| ensures Follows(Back(f), k) {
    }
    Chained(Back(f), LEN);
  }

  predicate Follows(cs: seq<Change>, k: nat)
    requires 0 < k < |cs|
  {
    cs[k - 1].End() <= cs[k].at
  }

  lemma {:induction false} Chained(cs: seq<Change>, len: nat)
    requires forall k :: 0 < k < |cs| ==> Follows(cs, k)
    requires cs != [] ==> cs[|cs| - 1].End() <= len
    ensures InSequence(cs, len) && forall k :: 0 <= k < |cs| ==> cs[0].at <= cs[k].at
    decreases |cs|
  {
    if |cs| > 1 {
      var rest := cs[..|cs| - 1];
      forall k | 0 < k < |rest| ensures Follows(rest, k) {
        assert Follows(cs, k);
      }
      assert Follows(cs, |cs| - 1);
      Chained(rest, len);
      assert cs[|cs| - 2] == rest[|rest| - 1];
    }
  }

  lemma BothInSequence(a: seq<Change>, b: seq<Change>, middle: nat, len: nat)
    requires InSequence(a, len) && InSequence(b, len)
    requires forall k :: 0 <= k < |a| ==> a[k].End() <= middle
    requires forall k :: 0 <= k < |b| ==> middle <= b[k].at
    ensures InSequence(a + b, len)
  {
    var cs := a + b;
    forall j, k | 0 <= j < k < |cs| ensures cs[j].End() <= cs[k].at {
      if j < |a| <= k {
        assert cs[j] == a[j] && cs[k] == b[k - |a|];
      } else if k < |a| {
        assert cs[j] == a[j] && cs[k] == a[k];
      } else {
        assert cs[j] == b[j - |a|] && cs[k] == b[k - |a|];
      }
    }
  }

  function Template(f: Fields): (b: seq<byte>)
    requires Places(f)
    ensures |b| == LEN
  {
    PartsInSequence(f);
    Apply(Zeros(LEN), Front(f) + Back(f))
  }

  lemma IsThere(f: Fields, k: nat)
    requires Places(f) && k < |Front(f)| + |Back(f)|
    ensures var c := (Front(f) + Back(f))[k]; c.End() <= LEN && Template(f)[c.at..c.End()] == c.data
  {
    PartsInSequence(f);
    ApplySets(Zeros(LEN), Front(f) + Back(f), k);
  }

  lemma BackIsThere(f: Fields, k: nat)
    requires Places(f) && k < |Back(f)|
    ensures var c := Back(f)[k]; c.End() <= LEN && Template(f)[c.at..c.End()] == c.data
  {
    IsThere(f, |Front(f)| + k);
    assert (Front(f) + Back(f))[|Front(f)| + k] == Back(f)[k];
  }

  lemma PointerIsThere(f: Fields)
    requires Places(f)
    ensures Template(f)[..2] == MZ && Long(Template(f), E_LFANEW) == f.pe && Long(Template(f), f.pe + 32) == f.initializedData
  {
    IsThere(f, 0);
    BackIsThere(f, 5);
    LongReads(Template(f), f.pe + 32, f.initializedData);
    if f.pe != OVERLAPPING {
      IsThere(f, 1);
      LongReads(Template(f), E_LFANEW, f.pe);
    }
  }

  lemma WordIsThere(f: Fields, k: nat, n: u16)
    requires Places(f) && k < |Back(f)| && Back(f)[k].data == ToLe(n, 2)
    ensures Back(f)[k].End() <= LEN && Word(Template(f), Back(f)[k].at) == n
  {
    BackIsThere(f, k);
    WordReads(Template(f), Back(f)[k].at, n);
  }

  lemma LongIsThere(f: Fields, k: nat, n: u32)
    requires Places(f) && k < |Back(f)| && Back(f)[k].data == ToLe(n, 4)
    ensures Back(f)[k].End() <= LEN && Long(Template(f), Back(f)[k].at) == n
  {
    BackIsThere(f, k);
    LongReads(Template(f), Back(f)[k].at, n);
  }

  /** Bytes that no part sets are zero. */
  lemma RestIsZero(f: Fields, from: nat, end: nat)
    requires Places(f) && from <= end <= LEN && (f.pe + 120 <= from && (end <= f.pe + 248 || f.pe + 288 <= from))
    ensures forall i :: from <= i < end ==> Template(f)[i] == 0
  {
    PartsInSequence(f);
    var cs := Front(f) + Back(f);
    forall k | 0 <= k < |cs| ensures end <= cs[k].at || cs[k].End() <= from {
      if k >= |Front(f)| {
        assert cs[k] == Back(f)[k - |Front(f)|];
      }
    }
    ApplyKeeps(Zeros(LEN), cs, from, end);
    assert forall i :: from <= i < end ==> Template(f)[i] == Template(f)[from..end][i - from];
  }

  /** A 32-bit executable with 16 data directories, one section and room for another. */
  predicate IsExample(f: Fields) {
    && Places(f) && f.count == 1 && f.size == 224 && f.characteristics == EXECUTABLE && f.magic == MAGIC_32 && f.directories == 16
  }

  function RecordOf(f: Fields): Headers {
    Headers(Pe32, true, f.pe, f.size, f.directories, (0, 0), f.fileAlignment, f.sectionAlignment, f.sizeOfHeaders, f.sizeOfImage,
            f.initializedData)
  }

  lemma WordsAreThere(f: Fields)
    requires Places(f)
    ensures var b := Template(f);
            && Word(b, f.pe + 6) == f.count && Word(b, f.pe + 20) == f.size && Word(b, f.pe + 22) == f.characteristics
            && Word(b, f.pe + 24) == f.magic
  {
    WordIsThere(f, 1, f.count);
    WordIsThere(f, 2, f.size);
    WordIsThere(f, 3, f.characteristics);
    WordIsThere(f, 4, f.magic);
    assert Back(f)[1].at == f.pe + 6 && Back(f)[2].at == f.pe + 20 && Back(f)[3].at == f.pe + 22 && Back(f)[4].at == f.pe + 24;
  }

  lemma LongsAreThere(f: Fields)
    requires Places(f)
    ensures var b := Template(f);
            && Long(b, f.pe + 56) == f.sectionAlignment && Long(b, f.pe + 60) == f.fileAlignment && Long(b, f.pe + 80) == f.sizeOfImage
            && Long(b, f.pe + 84) == f.sizeOfHeaders && Long(b, f.pe + 116) == f.directories
  {
    LongIsThere(f, 6, f.sectionAlignment);
    LongIsThere(f, 7, f.fileAlignment);
    LongIsThere(f, 8, f.sizeOfImage);
    LongIsThere(f, 9, f.sizeOfHeaders);
    LongIsThere(f, 10, f.directories);
  }

  lemma EntryIsEmpty(f: Fields)
    requires Places(f)
    ensures Long(Template(f), f.pe + 152) == 0 && Long(Template(f), f.pe + 156) == 0
  {
    RestIsZero(f, f.pe + 152, f.pe + 160);
    ZeroEntry(Template(f), f.pe + 152);
  }

  lemma HasExampleHeaders(f: Fields)
    requires IsExample(f)
    ensures HeadersHold(Template(f), RecordOf(f))
  {
    PointerIsThere(f);
    SignatureIsThere(f);
    WordsAreThere(f);
    LongsAreThere(f);
    EntryIsEmpty(f);
    ExampleHolds(Template(f), f);
  }

  lemma ExampleHolds(b: seq<byte>, f: Fields)
    requires IsExample(f) && |b| == LEN && b[..2] == MZ && Long(b, E_LFANEW) == f.pe && b[f.pe..f.pe + 4] == SIGNATURE
    requires Word(b, f.pe + 20) == f.size && Word(b, f.pe + 22) == f.characteristics && Word(b, f.pe + 24) == f.magic
    requires Long(b, f.pe + 56) == f.sectionAlignment && Long(b, f.pe + 60) == f.fileAlignment && Long(b, f.pe + 80) == f.sizeOfImage
    requires Long(b, f.pe + 84) == f.sizeOfHeaders && Long(b, f.pe + 116) == f.directories
    requires Long(b, f.pe + 32) == f.initializedData && Long(b, f.pe + 152) == 0 && Long(b, f.pe + 156) == 0
    ensures HeadersHold(b, RecordOf(f))
  {
    assert SecurityIn(b, f.pe, Pe32, f.size, f.directories) == (0, 0);
    assert IsExecutable(f.characteristics);
    FieldsHold(b, RecordOf(f), f.characteristics);
  }

  lemma SignatureIsThere(f: Fields)
    requires Places(f)
    ensures Template(f)[f.pe..f.pe + 4] == SIGNATURE
  {
    BackIsThere(f, 0);
  }

  lemma SectionIsThere(f: Fields)
    requires IsExample(f)
    ensures SectionsHold(Template(f), f.pe, f.pe + 248, [f.section])
  {
    BackIsThere(f, 11);
    SectionHeaderReads(f.section, Template(f), f.pe + 248);
    WordsAreThere(f);
    assert SectionsIn(Template(f), f.pe + 248, 0) == [];
    LastSection(Template(f), f.pe + 248, 0);
  }

  function ExampleImage(f: Fields): Image
    requires Places(f)
  {
    Image(RecordOf(f), [f.section], Template(f))
  }

  lemma TemplateParses(f: Fields)
    requires IsExample(f)
    ensures ParsePe(Template(f)) == Some(ExampleImage(f))
  {
    HasExampleHeaders(f);
    SectionIsThere(f);
    HoldsIff(Template(f), RecordOf(f), [f.section]);
  }

  // ---------------------------------------------------------------------
  // Accepted and planned
  // ---------------------------------------------------------------------

  const TEXT_NAME: seq<byte> := [46, 116, 101, 120, 116, 0, 0, 0]

  /** Sections aligned below the page size, or at it. */
  function FieldsFor(low: bool, pe: u32): Fields {
    var alignment: u32 := if low then 512 else 4096;
    Fields(pe, 1, 224, EXECUTABLE, MAGIC_32, pe, alignment, 512, if low then 1024 else 8192, 512, 16,
           Section(TEXT_NAME, alignment, 16, 512, 512, 0))
  }

  lemma PowersOfTwo()
    ensures IsPowerOfTwo(512) && IsPowerOfTwo(4096)
  {
    assert IsPowerOfTwo(1) && IsPowerOfTwo(2) && IsPowerOfTwo(4) && IsPowerOfTwo(8) && IsPowerOfTwo(16) && IsPowerOfTwo(32);
    assert IsPowerOfTwo(64) && IsPowerOfTwo(128) && IsPowerOfTwo(256) && IsPowerOfTwo(512) && IsPowerOfTwo(1024) && IsPowerOfTwo(2048);
  }

  lemma ExampleHeadersOk(low: bool, pe: u32)
    requires pe <= 184
    ensures HeadersOk(RecordOf(FieldsFor(low, pe)), 1, LEN)
  {
    PowersOfTwo();
  }

  /** A single file-backed section, adjacent to the headers. */
  lemma OneSectionOk(h: Headers, s: Section, fileLen: nat)
    requires h.fileAlignment > 0 && h.sectionAlignment > 0 && RawRangeOk(h, s, fileLen) && AdjacentTo(h, s, None)
    requires s.name != ANCHOR_NAME && s.name != CAPABILITY_NAME
    ensures SectionsOk(h, [s], 1, fileLen)
  {
    assert LastVirtualEnd([s], 0) == None;
    assert SectionOk(h, [s], 0, fileLen);
  }

  lemma MultipleOfItself(a: nat)
    requires a > 0
    ensures a % a == 0
  {
  }

  lemma ExampleSectionsOk(low: bool, pe: u32)
    ensures SectionsOk(RecordOf(FieldsFor(low, pe)), [FieldsFor(low, pe).section], 1, LEN)
  {
    SectionFits(RecordOf(FieldsFor(low, pe)), FieldsFor(low, pe).section, LEN);
  }

  lemma SectionFits(h: Headers, s: Section, fileLen: nat)
    requires 16 < h.fileAlignment <= h.sectionAlignment && (h.LowAlignment() ==> h.sectionAlignment == h.fileAlignment)
    requires h.sizeOfHeaders == h.fileAlignment && 2 * h.fileAlignment <= fileLen
    requires s == Section(TEXT_NAME, h.sectionAlignment, 16, h.fileAlignment, h.fileAlignment, 0)
    ensures SectionsOk(h, [s], 1, fileLen)
  {
    MultipleOfItself(h.fileAlignment);
    MultipleOfItself(h.sectionAlignment);
    AlignUpIs(h.sizeOfHeaders, h.sectionAlignment, h.sectionAlignment);
    assert s.name[1] != ANCHOR_NAME[1] && s.name[1] != CAPABILITY_NAME[1];
    OneSectionOk(h, s, fileLen);
  }

  lemma OneSectionLayout(h: Headers, s: Section, bytes: seq<byte>)
    requires h.security == (0, 0) && s.FileBacked() && s.Mapped() && s.RawEnd() > h.sizeOfHeaders && s.name != ANCHOR_NAME
    ensures LayoutOf(Image(h, [s], bytes)) == Layout(s.RawEnd(), s.VirtualEnd(), Some(s.raw), None, None)
  {
    assert MaxRawEnd(h, [s], 0) == h.sizeOfHeaders && MaxVirtualEnd([s], 0) == 0;
    assert FirstSectionOffset([s], 0) == None && AnchorOf([s], 0) == None;
  }

  function EndOf(low: bool): nat {
    if low then 1024 else 4608
  }

  lemma ExampleLayout(low: bool, pe: u32)
    requires Places(FieldsFor(low, pe))
    ensures LayoutOf(ExampleImage(FieldsFor(low, pe))) == Layout(LEN, EndOf(low), Some(512), None, None)
  {
    var f := FieldsFor(low, pe);
    assert f.section.name[1] != ANCHOR_NAME[1];
    OneSectionLayout(RecordOf(f), f.section, Template(f));
  }

  lemma UnstampedIsAccepted(img: Image, l: Layout)
    requires HeadersOk(img.h, |img.sections|, |img.bytes|) && SectionsOk(img.h, img.sections, |img.sections|, |img.bytes|)
    requires LayoutOf(img) == l && l.anchor.None? && img.h.security == (0, 0)
    requires AlignUp(l.maxVirtualEnd, img.h.sectionAlignment) <= img.h.sizeOfImage
    ensures Accepted(img)
  {
  }

  lemma ExampleIsAccepted(low: bool, pe: u32)
    requires Places(FieldsFor(low, pe))
    ensures Accepted(ExampleImage(FieldsFor(low, pe)))
  {
    ExampleHeadersOk(low, pe);
    ExampleSectionsOk(low, pe);
    ExampleLayout(low, pe);
    AlignUpIs(EndOf(low), if low then 512 else 4096, if low then 1024 else 8192);
    UnstampedIsAccepted(ExampleImage(FieldsFor(low, pe)), Layout(LEN, EndOf(low), Some(512), None, None));
  }

  /** The plan for three bytes of content. */
  function ExamplePlan(low: bool, pe: nat): Plan
    requires pe <= 184
  {
    Plan(Section(ANCHOR_NAME, if low then 1024 else 8192, FOOTER_LEN, LEN, 512, ANCHOR_FLAGS), 1541, 1544, if low then 1536 else 12288,
         pe + 512, pe + 152, pe + 288)
  }

  lemma ExampleContent()
    ensures ContentLayout(1536, 3) == Some((1541, 1544))
  {
    AlignUpIs(1539, CERTIFICATE_ALIGNMENT, 1544);
  }

  lemma ExampleIsPlanned(low: bool, pe: u32)
    requires Places(FieldsFor(low, pe))
    ensures Planned(ExampleImage(FieldsFor(low, pe)), 3, ExamplePlan(low, pe))
  {
    var f := FieldsFor(low, pe);
    ExampleIsAccepted(low, pe);
    ExampleLayout(low, pe);
    RestIsZero(f, pe + 288, pe + 328);
    PlanAt(ExampleImage(f), low, pe);
  }

  lemma PlanAt(img: Image, low: bool, pe: u32)
    requires pe <= 184 && img.h == RecordOf(FieldsFor(low, pe)) && |img.sections| == 1 && |img.bytes| == LEN
    requires forall i :: pe + 288 <= i < pe + 328 ==> img.bytes[i] == 0
    ensures MakePlan(img, Layout(LEN, EndOf(low), Some(512), None, None), 3) == Some(ExamplePlan(low, pe))
  {
    AlignUpIs(FOOTER_LEN, 512, 512);
    ExampleContent();
    if low {
      AlignUpIs(1024, 512, 1024);
      AlignUpIs(1536, 512, 1536);
      PlanIs(img, Layout(LEN, 1024, Some(512), None, None), 3, 1024, LEN, 512, (1541, 1544), 1536, pe + 152, pe + 288);
    } else {
      AlignUpIs(4608, 4096, 8192);
      AlignUpIs(8704, 4096, 12288);
      PlanIs(img, Layout(LEN, 4608, Some(512), None, None), 3, 8192, LEN, 512, (1541, 1544), 12288, pe + 152, pe + 288);
    }
  }

  // ---------------------------------------------------------------------
  // What becomes of them
  // ---------------------------------------------------------------------

  lemma ExampleSparesIff(low: bool, pe: u32)
    requires Places(FieldsFor(low, pe))
    ensures SparesPointer(ExampleImage(FieldsFor(low, pe)).h) <==> pe >= DOS_HEADER_LEN
  {
    PowersOf256();
    var h := ExampleImage(FieldsFor(low, pe)).h;
    assert CarriesInto(h.initializedData, h.fileAlignment, 0);
  }

  /** The writer accepts all these templates; what it writes is read as the stamped image exactly when the headers do not
      overlap the pointer to them. */
  lemma OverlappingHeadersAreLost(c: Codec, low: bool, pe: u32, header: seq<byte>, bundle: seq<byte>)
    requires (pe == OVERLAPPING || DOS_HEADER_LEN <= pe <= 184) && Stampable(c, header, bundle) && |header| + |bundle| == 3
    ensures Places(FieldsFor(low, pe))
    ensures var img, p := ExampleImage(FieldsFor(low, pe)), ExamplePlan(low, pe);
            && ParsePe(img.bytes) == Some(img) && Planned(img, |header| + |bundle|, p) && img.h.LowAlignment() == low
            && var stamped := StampedImage(c, img, p, header, bundle);
               (ParsePe(stamped.bytes) == Some(stamped) <==> pe >= DOS_HEADER_LEN)
  {
    var f := FieldsFor(low, pe);
    TemplateParses(f);
    ExampleIsPlanned(low, pe);
    ExampleSparesIff(low, pe);
    StampedParsesIff(c, ExampleImage(f), ExamplePlan(low, pe), header, bundle);
  }
}
