/** Writing runtime data into a PE image and reading it back, before and after the image is signed
    (`write_pe_runtime_data`, `pe_runtime_content_layout` and `read_pe_runtime_data` in `src/runtime_data.rs`). */
module PeStamp {
  import opened Wrappers
  import opened Bytes
  import opened RuntimeFooter
  import opened PeImage
  import opened PeHeader
  import PeKept
  import opened PeCertificates

  // ---------------------------------------------------------------------
  // Layout of the content behind the anchor
  // ---------------------------------------------------------------------

  /** Start and end of the content: it ends on a multiple of 8 that fits a certificate table offset, and the
      padding stands in front of it. */
  function ContentLayout(anchorEnd: nat, contentLen: nat): Option<(nat, nat)> {
    var unalignedEnd := anchorEnd + contentLen;
    if unalignedEnd >= U64_END then None
    else
      var end := CheckedAlignUp(unalignedEnd, CERTIFICATE_ALIGNMENT);
      if end.None? || end.value >= U32_END then None
      else Some((anchorEnd + (end.value - unalignedEnd), end.value))
  }

  lemma ContentIsAligned(anchorEnd: nat, contentLen: nat)
    requires ContentLayout(anchorEnd, contentLen).Some?
    ensures var (start, end) := ContentLayout(anchorEnd, contentLen).value;
            && anchorEnd <= start < anchorEnd + CERTIFICATE_ALIGNMENT
            && start + contentLen == end && end % CERTIFICATE_ALIGNMENT == 0 && end < U32_END
  {
  }

  // ---------------------------------------------------------------------
  // The writer
  // ---------------------------------------------------------------------

  datatype Plan = Plan(anchor: Section, payloadStart: nat, payloadEnd: nat, sizeOfImage: u32, initializedData: u32, entry: nat, slot: nat)

  /** Everything that the writer computes and checks before it changes the file. */
  function MakePlan(img: Image, l: Layout, contentLen: nat): Option<Plan>
    requires img.h.fileAlignment > 0 && img.h.sectionAlignment > 0
  {
    var h := img.h;
    var slot := h.SectionTable() + |img.sections| * SECTION_HEADER_LEN;
    if l.anchor.Some? || l.certificate.Some? || |img.bytes| != l.maxRawEnd then None
    else if h.SecurityEntry().None? || l.firstSection.None? then None
    else if slot + SECTION_HEADER_LEN > h.sizeOfHeaders || slot + SECTION_HEADER_LEN > l.firstSection.value then None
    else
      var vaddr := AlignUp(l.maxVirtualEnd, h.sectionAlignment);
      var offset := if h.LowAlignment() then vaddr else l.maxRawEnd;
      var rawSize := AlignUp(FOOTER_LEN, h.fileAlignment);
      var content := ContentLayout(offset + rawSize, contentLen);
      var required := AlignUp(vaddr + (if rawSize >= FOOTER_LEN then rawSize else FOOTER_LEN), h.sectionAlignment);
      var sizeOfImage := if required >= h.sizeOfImage then required else h.sizeOfImage;
      if content.None? then None
      else if h.kind.Pe64? && sizeOfImage > MAX_PE64_IMAGE then None
      else if offset >= U32_END || rawSize >= U32_END || vaddr >= U32_END || sizeOfImage >= U32_END then None
      else if h.initializedData + rawSize >= U32_END || |img.sections| + 1 > MAX_SECTIONS then None
      else if !(slot + SECTION_HEADER_LEN <= |img.bytes| && forall i :: slot <= i < slot + SECTION_HEADER_LEN ==> img.bytes[i] == 0) then None
      else
        Some(Plan(Section(ANCHOR_NAME, vaddr, FOOTER_LEN, offset, rawSize, ANCHOR_FLAGS), content.value.0, content.value.1,
                  sizeOfImage, h.initializedData + rawSize, h.SecurityEntry().value, slot))
  }

  /** The plan, from what is computed on the way to it. */
  lemma PlanIs(img: Image, l: Layout, contentLen: nat, vaddr: u32, offset: u32, rawSize: u32, content: (nat, nat), required: u32, entry: nat,
               slot: nat)
    requires img.h.fileAlignment > 0 && img.h.sectionAlignment > 0 && l.anchor.None? && l.certificate.None? && |img.bytes| == l.maxRawEnd
    requires img.h.SecurityEntry() == Some(entry) && slot == img.h.SectionTable() + |img.sections| * SECTION_HEADER_LEN
    requires l.firstSection.Some? && slot + SECTION_HEADER_LEN <= l.firstSection.value && slot + SECTION_HEADER_LEN <= img.h.sizeOfHeaders
    requires AlignUp(l.maxVirtualEnd, img.h.sectionAlignment) == vaddr && offset == if img.h.LowAlignment() then vaddr else l.maxRawEnd
    requires AlignUp(FOOTER_LEN, img.h.fileAlignment) == rawSize && ContentLayout(offset + rawSize, contentLen) == Some(content)
    requires AlignUp(vaddr + rawSize, img.h.sectionAlignment) == required && img.h.sizeOfImage <= required && img.h.kind.Pe32?
    requires img.h.initializedData + rawSize < U32_END && |img.sections| + 1 <= MAX_SECTIONS && slot + SECTION_HEADER_LEN <= |img.bytes|
    requires forall i :: slot <= i < slot + SECTION_HEADER_LEN ==> img.bytes[i] == 0
    ensures MakePlan(img, l, contentLen)
            == Some(Plan(Section(ANCHOR_NAME, vaddr, FOOTER_LEN, offset, rawSize, ANCHOR_FLAGS), content.0, content.1, required,
                         img.h.initializedData + rawSize, entry, slot))
  {
  }

  function StampedHeaders(img: Image, p: Plan): Headers {
    HeadersWith(img.h, p.initializedData, p.sizeOfImage, (0, 0))
  }

  /** The changes of the headers. */
  function EditOf(img: Image, p: Plan): HeaderEdit
    requires |img.sections| < MAX_SECTIONS
  {
    HeaderEdit(img.h.peOffset, |img.sections| + 1, p.initializedData, p.sizeOfImage, p.entry, p.slot, p.anchor)
  }

  /** What a plan that was made for `img` guarantees. */
  ghost predicate Planned(img: Image, contentLen: nat, p: Plan) {
    Accepted(img) && MakePlan(img, LayoutOf(img), contentLen) == Some(p)
  }

  /** The plan's places in the headers are there and in order. */
  predicate FitsHeaders(img: Image, p: Plan) {
    |img.sections| < MAX_SECTIONS && img.h.sizeOfHeaders <= |img.bytes| && EditFits(EditOf(img, p), img.h.sizeOfHeaders)
  }

  /** The header bytes, with the fields changed and the anchor's section header filled in. */
  function StampedHead(img: Image, p: Plan): (r: seq<byte>)
    requires FitsHeaders(img, p)
    ensures |r| == img.h.sizeOfHeaders
  {
    Edited(img.bytes[..img.h.sizeOfHeaders], EditOf(img, p))
  }

  /** The anchor section and what follows it. */
  function AnchorAndContent(c: Codec, p: Plan, header: seq<byte>, bundle: seq<byte>): seq<byte>
    requires Stampable(c, header, bundle) && p.anchor.rawSize >= FOOTER_LEN && p.payloadStart >= p.anchor.RawEnd()
  {
    EncodeFooter(FooterFor(c, header, bundle)) + Zeros(p.payloadStart - p.anchor.raw - FOOTER_LEN) + header + bundle
  }

  /** The plan's places are inside the file and in order. */
  predicate InBounds(img: Image, p: Plan) {
    && FitsHeaders(img, p)
    && p.anchor.rawSize >= FOOTER_LEN && |img.bytes| <= p.anchor.raw && p.anchor.RawEnd() <= p.payloadStart
  }

  function WrittenBytes(c: Codec, img: Image, p: Plan, header: seq<byte>, bundle: seq<byte>): seq<byte>
    requires Stampable(c, header, bundle) && InBounds(img, p)
  {
    StampedHead(img, p) + img.bytes[img.h.sizeOfHeaders..] + Zeros(p.anchor.raw - |img.bytes|)
    + AnchorAndContent(c, p, header, bundle)
  }

  /** There is a certificate entry that a signing tool can fill in. */
  predicate CanBeSigned(img: Image) {
    |img.bytes| < U32_END && img.h.SecurityEntry().Some? && SignFits(img.h.peOffset, img.h.SecurityEntry().value, |img.bytes|)
  }

  ghost function StampedImage(c: Codec, img: Image, p: Plan, header: seq<byte>, bundle: seq<byte>): (stamped: Image)
    requires Stampable(c, header, bundle) && Planned(img, |header| + |bundle|, p)
    ensures |stamped.bytes| == p.payloadEnd < U32_END && p.payloadEnd % CERTIFICATE_ALIGNMENT == 0 && CanBeSigned(stamped)
  {
    PlanFacts(img, |header| + |bundle|, p);
    Image(StampedHeaders(img, p), img.sections + [p.anchor],
          WrittenBytes(c, img, p, header, bundle))
  }

  lemma {:induction false} MaxRawEndBounds(h: Headers, ss: seq<Section>, n: nat)
    requires n <= |ss|
    ensures h.sizeOfHeaders <= MaxRawEnd(h, ss, n)
    ensures forall j :: 0 <= j < n && ss[j].FileBacked() ==> ss[j].RawEnd() <= MaxRawEnd(h, ss, n)
  {
    if n > 0 {
      MaxRawEndBounds(h, ss, n - 1);
    }
  }

  lemma {:induction false} MaxRawEndIsAligned(h: Headers, ss: seq<Section>, n: nat, fileLen: nat)
    requires h.fileAlignment > 0 && h.sectionAlignment > 0 && n <= |ss| && SectionsOk(h, ss, n, fileLen)
    requires h.sizeOfHeaders % h.fileAlignment == 0
    ensures MaxRawEnd(h, ss, n) % h.fileAlignment == 0
  {
    if n > 0 {
      MaxRawEndIsAligned(h, ss, n - 1, fileLen);
      assert SectionOk(h, ss, n - 1, fileLen);
      SumIsAligned(ss[n - 1].raw, ss[n - 1].rawSize, h.fileAlignment);
    }
  }

  /** A file-backed section is mapped, and at low alignment the file does not extend past the addresses. */
  lemma {:induction false} FileBackedIsMapped(h: Headers, ss: seq<Section>, n: nat, fileLen: nat)
    requires h.fileAlignment > 0 && h.sectionAlignment > 0 && n <= |ss| && SectionsOk(h, ss, n, fileLen)
    ensures FirstSectionOffset(ss, n).Some? ==> LastVirtualEnd(ss, n).Some?
    ensures h.LowAlignment() && FirstSectionOffset(ss, n).Some? ==> MaxRawEnd(h, ss, n) <= MaxVirtualEnd(ss, n)
    ensures FirstSectionOffset(ss, n).None? ==> MaxRawEnd(h, ss, n) == h.sizeOfHeaders
  {
    if n > 0 {
      FileBackedIsMapped(h, ss, n - 1, fileLen);
      assert SectionOk(h, ss, n - 1, fileLen);
    }
  }

  lemma SumIsAligned(a: nat, b: nat, alignment: nat)
    requires alignment > 0
    ensures a % alignment == 0 && b % alignment == 0 ==> (a + b) % alignment == 0
  {
    if a % alignment == 0 && b % alignment == 0 {
      assert a == a / alignment * alignment && b == b / alignment * alignment;
      MultipleIsAligned(a / alignment + b / alignment, alignment);
      assert (a / alignment + b / alignment) * alignment == a + b;
    }
  }

  /** The mapped sections are in increasing order, so that the last one ends last. */
  lemma {:induction false} LastVirtualEndIsMax(h: Headers, ss: seq<Section>, n: nat, fileLen: nat)
    requires h.fileAlignment > 0 && h.sectionAlignment > 0 && n <= |ss| && SectionsOk(h, ss, n, fileLen)
    ensures match LastVirtualEnd(ss, n)
            case None => MaxVirtualEnd(ss, n) == 0
            case Some(end) => MaxVirtualEnd(ss, n) == end
  {
    if n > 0 {
      LastVirtualEndIsMax(h, ss, n - 1, fileLen);
      assert SectionOk(h, ss, n - 1, fileLen);
    }
  }

  lemma PlanFacts(img: Image, contentLen: nat, p: Plan)
    requires Planned(img, contentLen, p)
    ensures FitsHeaders(img, p) && img.h.SecurityEntry() == Some(p.entry)
    ensures p.entry + 8 <= img.h.SectionTable() <= p.slot && p.slot + SECTION_HEADER_LEN <= img.h.sizeOfHeaders <= |img.bytes|
    ensures p.slot == img.h.SectionTable() + |img.sections| * SECTION_HEADER_LEN
    ensures p.anchor.rawSize >= FOOTER_LEN && |img.bytes| <= p.anchor.raw
    ensures p.anchor.RawEnd() <= p.payloadStart && p.payloadStart + contentLen == p.payloadEnd < U32_END && p.payloadEnd % 8 == 0
    ensures ContentLayout(p.anchor.RawEnd(), contentLen) == Some((p.payloadStart, p.payloadEnd))
    ensures p.anchor.raw % img.h.fileAlignment == 0
    ensures LastVirtualEnd(img.sections, |img.sections|) == Some(LayoutOf(img).maxVirtualEnd)
    ensures LayoutOf(img).maxRawEnd == |img.bytes| && LayoutOf(img).maxVirtualEnd <= p.anchor.vaddr && p.anchor.name == ANCHOR_NAME
    ensures LayoutOf(img).anchor.None?
  {
    var n := |img.sections|;
    MaxRawEndIsAligned(img.h, img.sections, n, |img.bytes|);
    FileBackedIsMapped(img.h, img.sections, n, |img.bytes|);
    LastVirtualEndIsMax(img.h, img.sections, n, |img.bytes|);
    ContentIsAligned(p.anchor.RawEnd(), contentLen);
  }

  // ---------------------------------------------------------------------
  // The stamped image is accepted again
  // ---------------------------------------------------------------------

  /** Appending a section changes nothing about the sections before it. */
  lemma {:induction false} AppendKeepsPrefix(h: Headers, h': Headers, ss: seq<Section>, a: Section, k: nat)
    requires k <= |ss| && h.sizeOfHeaders == h'.sizeOfHeaders
    ensures MaxRawEnd(h', ss + [a], k) == MaxRawEnd(h, ss, k)
    ensures MaxVirtualEnd(ss + [a], k) == MaxVirtualEnd(ss, k)
    ensures LastVirtualEnd(ss + [a], k) == LastVirtualEnd(ss, k)
    ensures FirstSectionOffset(ss + [a], k) == FirstSectionOffset(ss, k)
  {
    if k > 0 {
      AppendKeepsPrefix(h, h', ss, a, k - 1);
      assert (ss + [a])[k - 1] == ss[k - 1];
    }
  }

  lemma {:induction false} NoAnchorInside(ss: seq<Section>, n: nat)
    requires n <= |ss| && AnchorOf(ss, n).None?
    ensures forall j :: 0 <= j < n ==> ss[j].name != ANCHOR_NAME
  {
    if n > 0 {
      NoAnchorInside(ss, n - 1);
    }
  }

  lemma AnchorFits(img: Image, contentLen: nat, p: Plan)
    requires Planned(img, contentLen, p)
    ensures SectionOk(StampedHeaders(img, p), img.sections + [p.anchor], |img.sections|, p.payloadEnd)
  {
    PlanFacts(img, contentLen, p);
    AppendKeepsPrefix(img.h, img.h, img.sections, p.anchor, |img.sections|);
    assert (img.sections + [p.anchor])[|img.sections|] == p.anchor;
  }

  lemma StampedSectionsOk(img: Image, contentLen: nat, p: Plan)
    requires Planned(img, contentLen, p)
    ensures SectionsOk(StampedHeaders(img, p), img.sections + [p.anchor], |img.sections| + 1, p.payloadEnd)
  {
    var h', ss, ss', n := StampedHeaders(img, p), img.sections, img.sections + [p.anchor], |img.sections|;
    PlanFacts(img, contentLen, p);
    MaxRawEndBounds(img.h, ss, n);
    NoAnchorInside(ss, n);
    forall j | 0 <= j < n + 1 ensures SectionOk(h', ss', j, p.payloadEnd) {
      if j < n {
        AppendKeepsPrefix(img.h, h', ss, p.anchor, j);
        assert SectionOk(img.h, ss, j, |img.bytes|) && ss'[j] == ss[j];
      } else {
        AnchorFits(img, contentLen, p);
      }
    }
    forall i, j | 0 <= i < j < n + 1 ensures InOrder(ss'[i], ss'[j]) {
      if j < n {
        assert InOrder(ss[i], ss[j]);
      }
    }
  }

  lemma LayoutOfAppended(h: Headers, h': Headers, ss: seq<Section>, a: Section, bytes: seq<byte>)
    requires h.sizeOfHeaders == h'.sizeOfHeaders && h'.security == (0, 0) && a.name == ANCHOR_NAME && a.FileBacked() && a.Mapped()
    requires MaxRawEnd(h, ss, |ss|) <= a.raw && MaxVirtualEnd(ss, |ss|) <= a.vaddr
    ensures LayoutOf(Image(h', ss + [a], bytes))
            == Layout(a.RawEnd(), a.VirtualEnd(), FirstSectionOffset(ss + [a], |ss + [a]|), Some(a), None)
  {
    AppendKeepsPrefix(h, h', ss, a, |ss|);
    assert (ss + [a])[|ss|] == a;
  }

  lemma StampedLayout(c: Codec, img: Image, p: Plan, header: seq<byte>, bundle: seq<byte>)
    requires Stampable(c, header, bundle) && Planned(img, |header| + |bundle|, p)
    ensures var stamped := StampedImage(c, img, p, header, bundle);
            && |stamped.bytes| == p.payloadEnd
            && LayoutOf(stamped) == Layout(p.anchor.RawEnd(), p.anchor.VirtualEnd(),
                                           FirstSectionOffset(stamped.sections, |stamped.sections|), Some(p.anchor), None)
  {
    PlanFacts(img, |header| + |bundle|, p);
    LayoutOfAppended(img.h, StampedHeaders(img, p), img.sections, p.anchor, WrittenBytes(c, img, p, header, bundle));
  }

  lemma StampedHeadersOk(img: Image, contentLen: nat, p: Plan)
    requires Planned(img, contentLen, p)
    ensures HeadersOk(StampedHeaders(img, p), |img.sections| + 1, p.payloadEnd)
    ensures AlignUp(p.anchor.VirtualEnd(), img.h.sectionAlignment) <= p.sizeOfImage
  {
    PlanFacts(img, contentLen, p);
  }

  /** The check that accepted the template accepts the stamped image. The anchor is its only one, and its last
      section. */
  lemma StampedImageIsAccepted(c: Codec, img: Image, p: Plan, header: seq<byte>, bundle: seq<byte>)
    requires Stampable(c, header, bundle) && Planned(img, |header| + |bundle|, p)
    ensures var stamped := StampedImage(c, img, p, header, bundle);
            && Accepted(stamped)
            && LayoutOf(stamped).anchor == Some(p.anchor)
            && stamped.sections == img.sections + [p.anchor]
            && forall s :: s in img.sections ==> s.name != ANCHOR_NAME
  {
    StampedHeadersOk(img, |header| + |bundle|, p);
    StampedSectionsOk(img, |header| + |bundle|, p);
    StampedLayout(c, img, p, header, bundle);
    NoAnchorInside(img.sections, |img.sections|);
  }

  // ---------------------------------------------------------------------
  // The reader
  // ---------------------------------------------------------------------

  /** The anchored branch of `read_pe_runtime_data`. */
  function ReadAnchored(c: Codec, file: seq<byte>, anchor: Section, contentEnd: nat): Result<RuntimeData, ReadError>
    requires anchor.rawSize >= FOOTER_LEN && anchor.RawEnd() <= |file|
  {
    match DecodeFooter(file[anchor.raw..anchor.raw + FOOTER_LEN])
    case Err(e) => Err(e)
    case Ok(None) => Err(NotAStamp)
    case Ok(Some(f)) =>
      if !IsZero(file[anchor.raw + FOOTER_LEN..anchor.RawEnd()]) then Err(BadPadding)
      else if f.headerLen + f.bundleLen >= U64_END then Err(OutOfRange)
      else
        match ContentLayout(anchor.RawEnd(), f.headerLen + f.bundleLen)
        case None => Err(OutOfRange)
        case Some((start, end)) =>
          if end != contentEnd then Err(BadLayout)
          else if start > |file| then Err(OutOfRange)
          else if !IsZero(file[anchor.RawEnd()..start]) then Err(BadPadding)
          else ReadPayload(c, file, start, f)
  }

  predicate IsZero(s: seq<byte>)
    ensures IsZero(s) <==> AllZero(s)
  {
    forall i :: 0 <= i < |s| ==> s[i] == 0
  }

  /** What reading an image returns. A record section holds at least a footer, because its size is rounded up. */
  ghost predicate ReadsAs(c: Codec, img: Image, r: Result<Option<RuntimeData>, ReadError>) {
    if !Accepted(img) then r == Err(BadLayout)
    else
      var l := LayoutOf(img);
      if l.certificate.Some? && !WellFormedTable(img.bytes[l.certificate.value.0..]) then r == Err(BadTable)
      else if l.anchor.Some? then
        AnchorIsAccepted(img);
        match ReadAnchored(c, img.bytes, l.anchor.value, if l.certificate.Some? then l.certificate.value.0 else |img.bytes|)
        case Err(e) => r == Err(e)
        case Ok(data) => r == Ok(Some(data))
      else if l.certificate.Some? then
        r == if LegacyMagic(img.bytes, l.certificate.value.0, CERTIFICATE_ALIGNMENT) then Err(NotAStamp) else Ok(None)
      else SearchResult(c, img.bytes, SearchSpec(|img.bytes|, 1, l.maxRawEnd), r)
  }

  lemma {:induction false} AnchorIsIn(ss: seq<Section>, n: nat)
    requires n <= |ss| && AnchorOf(ss, n).Some?
    ensures exists j :: 0 <= j < n && ss[j] == AnchorOf(ss, n).value && ss[j].name == ANCHOR_NAME
  {
    if ss[n - 1].name != ANCHOR_NAME {
      AnchorIsIn(ss, n - 1);
    }
  }

  lemma AnchorIsAccepted(img: Image)
    requires Accepted(img) && LayoutOf(img).anchor.Some?
    ensures var anchor := LayoutOf(img).anchor.value; anchor.rawSize >= FOOTER_LEN && anchor.RawEnd() <= |img.bytes|
  {
    AnchorIsIn(img.sections, |img.sections|);
    var j :| 0 <= j < |img.sections| && img.sections[j] == LayoutOf(img).anchor.value && img.sections[j].name == ANCHOR_NAME;
    assert SectionOk(img.h, img.sections, j, |img.bytes|);
  }

  /** A footer that no signature protects. The window has to hold the 16 magic bytes only. */
  ghost predicate LegacyMagic(file: seq<byte>, dataEnd: nat, alignment: nat)
    requires dataEnd <= |file|
  {
    exists p: nat :: p < alignment && MagicBytesAt(file, dataEnd, p)
  }

  predicate MagicBytesAt(file: seq<byte>, dataEnd: nat, padding: nat)
    requires dataEnd <= |file|
  {
    padding + 16 <= dataEnd && file[dataEnd - padding - 16..dataEnd - padding] == MAGIC
  }

  /** `footer_magic_exists_with_search_spec`. */
  method LegacyMagicExists(file: seq<byte>, dataEnd: nat, alignment: nat) returns (found: bool)
    requires dataEnd <= |file|
    ensures found <==> LegacyMagic(file, dataEnd, alignment)
  {
    var padding: nat := 0;
    while padding < alignment
      invariant padding <= alignment
      invariant forall p: nat :: p < padding ==> !MagicBytesAt(file, dataEnd, p)
    {
      if MagicBytesAt(file, dataEnd, padding) { return true; }
      padding := padding + 1;
    }
    found := false;
  }

  /** `read_pe_runtime_data`. */
  method ReadPe(c: Codec, img: Image) returns (r: Result<Option<RuntimeData>, ReadError>)
    ensures ReadsAs(c, img, r)
  {
    var found := ReadLayout(img);
    if found.None? { return Err(BadLayout); }
    var l := found.value;
    if l.certificate.Some? {
      var valid := ValidateTable(img.bytes[l.certificate.value.0..]);
      if !valid { return Err(BadTable); }
    }
    if l.anchor.None? {
      if l.certificate.Some? {
        var legacy := LegacyMagicExists(img.bytes, l.certificate.value.0, CERTIFICATE_ALIGNMENT);
        return if legacy then Err(NotAStamp) else Ok(None);
      }
      r := ReadWithSearchSpec(c, img.bytes, SearchSpec(|img.bytes|, 1, l.maxRawEnd));
      return;
    }
    AnchorIsAccepted(img);
    match ReadAnchored(c, img.bytes, l.anchor.value, if l.certificate.Some? then l.certificate.value.0 else |img.bytes|) {
      case Err(e) => r := Err(e);
      case Ok(data) => r := Ok(Some(data));
    }
  }

  // ---------------------------------------------------------------------
  // What the reader accepts, and what it refuses
  // ---------------------------------------------------------------------

  /** An anchored payload: its footer is in the anchor, its content ends at `end`, aligned, and nothing but zeros is in
      between. */
  ghost predicate IsAnchored(c: Codec, file: seq<byte>, anchor: Section, end: nat, start: nat, f: Footer, data: RuntimeData) {
    && IsStamp(c, file, anchor.raw, start, f, data)
    && anchor.raw + FOOTER_LEN <= anchor.RawEnd() <= start < anchor.RawEnd() + CERTIFICATE_ALIGNMENT
    && start + f.headerLen + f.bundleLen == end < U32_END && end % CERTIFICATE_ALIGNMENT == 0
    && AllZero(file[anchor.raw + FOOTER_LEN..start])
  }

  /** There is one place where a content of that length can start. */
  lemma ContentStartsAt(anchorEnd: nat, len: nat, start: nat, end: nat)
    ensures ContentLayout(anchorEnd, len) == Some((start, end))
            <==> && anchorEnd <= start < anchorEnd + CERTIFICATE_ALIGNMENT
                 && start + len == end < U32_END && end % CERTIFICATE_ALIGNMENT == 0
  {
    if anchorEnd <= start < anchorEnd + CERTIFICATE_ALIGNMENT && start + len == end < U32_END && end % CERTIFICATE_ALIGNMENT == 0 {
      AlignUpIs(anchorEnd + len, CERTIFICATE_ALIGNMENT, end);
    }
    if ContentLayout(anchorEnd, len).Some? {
      ContentIsAligned(anchorEnd, len);
    }
  }

  lemma ZerosJoin(file: seq<byte>, from: nat, middle: nat, end: nat)
    requires from <= middle <= end <= |file|
    ensures AllZero(file[from..end]) <==> AllZero(file[from..middle]) && AllZero(file[middle..end])
  {
    forall i | from <= i < end ensures file[i] == file[from..end][i - from] {
    }
    forall i | from <= i < middle ensures file[i] == file[from..middle][i - from] {
    }
    forall i | middle <= i < end ensures file[i] == file[middle..end][i - middle] {
    }
  }

  lemma ReadsAnchoredWithIff(c: Codec, file: seq<byte>, anchor: Section, end: nat, f: Footer, data: RuntimeData)
    requires anchor.rawSize >= FOOTER_LEN && anchor.RawEnd() <= |file|
    requires DecodeFooter(file[anchor.raw..anchor.raw + FOOTER_LEN]) == Ok(Some(f))
    ensures ReadAnchored(c, file, anchor, end) == Ok(data) <==> exists start: nat :: IsAnchored(c, file, anchor, end, start, f, data)
  {
    var len := f.headerLen + f.bundleLen;
    FooterIs(file[anchor.raw..anchor.raw + FOOTER_LEN], f);
    forall start: nat | IsAnchored(c, file, anchor, end, start, f, data) ensures ReadAnchored(c, file, anchor, end) == Ok(data) {
      ContentStartsAt(anchor.RawEnd(), len, start, end);
      ZerosJoin(file, anchor.raw + FOOTER_LEN, anchor.RawEnd(), start);
      ReadsPayloadIff(c, file, anchor.raw, start, f, data);
    }
    if ReadAnchored(c, file, anchor, end) == Ok(data) {
      var start := ContentLayout(anchor.RawEnd(), len).value.0;
      ContentStartsAt(anchor.RawEnd(), len, start, end);
      ZerosJoin(file, anchor.raw + FOOTER_LEN, anchor.RawEnd(), start);
      ReadsPayloadIff(c, file, anchor.raw, start, f, data);
      assert IsAnchored(c, file, anchor, end, start, f, data);
    }
  }

  /** The anchored branch returns data exactly when an anchored payload is there. */
  lemma ReadsAnchoredIff(c: Codec, file: seq<byte>, anchor: Section, end: nat, data: RuntimeData)
    requires anchor.rawSize >= FOOTER_LEN && anchor.RawEnd() <= |file|
    ensures ReadAnchored(c, file, anchor, end) == Ok(data)
            <==> exists f: Footer, start: nat :: IsAnchored(c, file, anchor, end, start, f, data)
  {
    var window := file[anchor.raw..anchor.raw + FOOTER_LEN];
    if DecodeFooter(window).Ok? && DecodeFooter(window).value.Some? {
      ReadsAnchoredWithIff(c, file, anchor, end, DecodeFooter(window).value.value, data);
    }
    forall g: Footer, start: nat | IsAnchored(c, file, anchor, end, start, g, data) ensures DecodeFooter(window) == Ok(Some(g)) {
      FooterIs(window, g);
    }
  }

  /** Where the content of an image ends. */
  function ContentEnd(img: Image): nat {
    if LayoutOf(img).certificate.Some? then LayoutOf(img).certificate.value.0 else |img.bytes|
  }

  /** The image is accepted, and a certificate table is well-formed. */
  ghost predicate IsReadable(img: Image) {
    && Accepted(img)
    && (LayoutOf(img).certificate.Some? ==> WellFormedTable(img.bytes[LayoutOf(img).certificate.value.0..]))
  }

  /** An image without an anchor holds data only if it is not signed, in a stamp behind its sections; it holds none if there is
      no magic either. */
  ghost predicate HoldsUnanchored(c: Codec, img: Image, data: RuntimeData) {
    LayoutOf(img).certificate.None? && EndsAt(c, img.bytes, |img.bytes|, LayoutOf(img).maxRawEnd, data)
  }

  ghost predicate HoldsNothing(img: Image) {
    match LayoutOf(img).certificate
    case Some(table) => table.0 <= |img.bytes| && !LegacyMagic(img.bytes, table.0, CERTIFICATE_ALIGNMENT)
    case None => !MagicAt(img.bytes, |img.bytes|, 0)
  }

  ghost predicate HoldsAnchored(c: Codec, img: Image, anchor: Section, data: RuntimeData) {
    exists f: Footer, start: nat :: IsAnchored(c, img.bytes, anchor, ContentEnd(img), start, f, data)
  }

  lemma ReadsUnanchoredIff(c: Codec, img: Image, r: Result<Option<RuntimeData>, ReadError>, data: RuntimeData)
    requires ReadsAs(c, img, r) && IsReadable(img) && LayoutOf(img).anchor.None?
    ensures r == Ok(Some(data)) <==> HoldsUnanchored(c, img, data)
    ensures r == Ok(None) <==> HoldsNothing(img)
  {
    if LayoutOf(img).certificate.None? {
      UnpaddedReadsIff(c, img.bytes, LayoutOf(img).maxRawEnd, r, data);
    }
  }

  lemma ReadsWithAnchorIff(c: Codec, img: Image, r: Result<Option<RuntimeData>, ReadError>, data: RuntimeData)
    requires ReadsAs(c, img, r) && IsReadable(img) && LayoutOf(img).anchor.Some?
    ensures r == Ok(Some(data)) <==> HoldsAnchored(c, img, LayoutOf(img).anchor.value, data)
    ensures r != Ok(None)
  {
    AnchorIsAccepted(img);
    ReadsAnchoredIff(c, img.bytes, LayoutOf(img).anchor.value, ContentEnd(img), data);
  }

  /** Reading an image returns data exactly when it is accepted and holds an anchored payload, or, with neither an anchor nor
      a signature, a stamp behind its sections. */
  lemma ReadsPeIff(c: Codec, img: Image, r: Result<Option<RuntimeData>, ReadError>, data: RuntimeData)
    requires ReadsAs(c, img, r)
    ensures r == Ok(Some(data))
            <==> && IsReadable(img)
                 && match LayoutOf(img).anchor
                    case Some(anchor) => HoldsAnchored(c, img, anchor, data)
                    case None => HoldsUnanchored(c, img, data)
    ensures r == Ok(None) <==> IsReadable(img) && LayoutOf(img).anchor.None? && HoldsNothing(img)
  {
    if IsReadable(img) {
      if LayoutOf(img).anchor.Some? {
        ReadsWithAnchorIff(c, img, r, data);
      } else {
        ReadsUnanchoredIff(c, img, r, data);
      }
    }
  }

  /** An anchored payload whose header has another digest than its footer says is refused. */
  lemma OtherPeHeaderIsRefused(c: Codec, img: Image, anchor: Section, start: nat, f: Footer, r: Result<Option<RuntimeData>, ReadError>)
    requires ReadsAs(c, img, r) && IsReadable(img) && LayoutOf(img).anchor == Some(anchor)
    requires anchor.raw + FOOTER_LEN <= |img.bytes| && img.bytes[anchor.raw..anchor.raw + FOOTER_LEN] == EncodeFooter(f)
    requires ContentLayout(anchor.RawEnd(), f.headerLen + f.bundleLen) == Some((start, ContentEnd(img)))
    requires start + f.headerLen <= |img.bytes| && c.sha(img.bytes[start..start + f.headerLen]) != f.headerSha
    ensures r.Err?
  {
    if r.Ok? {
      var data := if r.value.Some? then r.value.value else RuntimeData([], None);
      ReadsWithAnchorIff(c, img, r, data);
      var g: Footer, at: nat :| IsAnchored(c, img.bytes, anchor, ContentEnd(img), at, g, data);
      AnchoredDigest(c, img.bytes, anchor, ContentEnd(img), at, g, data, start, f);
    }
  }

  /** An anchored payload has the digest that its footer says. */
  lemma AnchoredDigest(c: Codec, file: seq<byte>, anchor: Section, end: nat, at: nat, g: Footer, data: RuntimeData, start: nat, f: Footer)
    requires IsAnchored(c, file, anchor, end, at, g, data)
    requires anchor.raw + FOOTER_LEN <= |file| && file[anchor.raw..anchor.raw + FOOTER_LEN] == EncodeFooter(f)
    requires ContentLayout(anchor.RawEnd(), f.headerLen + f.bundleLen) == Some((start, end)) && start + f.headerLen <= |file|
    ensures c.sha(file[start..start + f.headerLen]) == f.headerSha
  {
    DecodeEncode(f);
    DecodeEncode(g);
    ContentStartsAt(anchor.RawEnd(), g.headerLen + g.bundleLen, at, end);
  }

  // ---------------------------------------------------------------------
  // Round trip
  // ---------------------------------------------------------------------

  /** Where the parts of a stamp are in a file. */
  ghost predicate StampIsAt(c: Codec, file: seq<byte>, anchor: Section, start: nat, header: seq<byte>, bundle: seq<byte>)
    requires Stampable(c, header, bundle)
  {
    && anchor.raw + FOOTER_LEN <= anchor.RawEnd() <= start && start + |header| + |bundle| <= |file|
    && file[anchor.raw..anchor.raw + FOOTER_LEN] == EncodeFooter(FooterFor(c, header, bundle))
    && AllZero(file[anchor.raw + FOOTER_LEN..anchor.RawEnd()])
    && AllZero(file[anchor.RawEnd()..start])
    && file[start..start + |header|] == header
    && file[start + |header|..start + |header| + |bundle|] == bundle
  }

  lemma StampBytesAreAt(c: Codec, front: seq<byte>, p: Plan, header: seq<byte>, bundle: seq<byte>, rest: seq<byte>)
    requires Stampable(c, header, bundle) && p.anchor.rawSize >= FOOTER_LEN && p.payloadStart >= p.anchor.RawEnd()
    requires |front| == p.anchor.raw
    ensures StampIsAt(c, front + AnchorAndContent(c, p, header, bundle) + rest, p.anchor, p.payloadStart, header, bundle)
  {
    ContentBytes(front, EncodeFooter(FooterFor(c, header, bundle)), p.payloadStart - p.anchor.raw - FOOTER_LEN, header, bundle, rest);
  }

  lemma ContentBytes(front: seq<byte>, footer: seq<byte>, gap: nat, header: seq<byte>, bundle: seq<byte>, rest: seq<byte>)
    ensures var file := front + (footer + Zeros(gap) + header + bundle) + rest;
            var start := |front| + |footer| + gap;
            && |file| == start + |header| + |bundle| + |rest|
            && file[|front|..|front| + |footer|] == footer
            && (forall i :: |front| + |footer| <= i < start ==> file[i] == 0)
            && file[start..start + |header|] == header
            && file[start + |header|..start + |header| + |bundle|] == bundle
  {
  }

  /** A reader that finds the parts of a stamp in place returns its header and bundle range. */
  lemma StampAtReadsBack(c: Codec, file: seq<byte>, anchor: Section, start: nat, header: seq<byte>, bundle: seq<byte>, end: nat)
    requires Stampable(c, header, bundle) && StampIsAt(c, file, anchor, start, header, bundle)
    requires ContentLayout(anchor.RawEnd(), |header| + |bundle|) == Some((start, end))
    ensures ReadAnchored(c, file, anchor, end) == Ok(Stamped(c, start, header, bundle))
  {
    DecodeEncode(FooterFor(c, header, bundle));
    PayloadIsRead(c, file, start, header, bundle);
  }

  /** The stamped image holds the parts of the stamp, whatever follows it in the file. */
  lemma StampedBytes(c: Codec, img: Image, p: Plan, header: seq<byte>, bundle: seq<byte>, rest: seq<byte>)
    requires Stampable(c, header, bundle) && Planned(img, |header| + |bundle|, p)
    ensures StampIsAt(c, StampedImage(c, img, p, header, bundle).bytes + rest, p.anchor, p.payloadStart, header, bundle)
    ensures ContentLayout(p.anchor.RawEnd(), |header| + |bundle|) == Some((p.payloadStart, p.payloadEnd))
    ensures |StampedImage(c, img, p, header, bundle).bytes| == p.payloadEnd == p.payloadStart + |header| + |bundle|
  {
    PlanFacts(img, |header| + |bundle|, p);
    WrittenStampIsAt(c, img, p, header, bundle, rest);
  }

  lemma WrittenStampIsAt(c: Codec, img: Image, p: Plan, header: seq<byte>, bundle: seq<byte>, rest: seq<byte>)
    requires Stampable(c, header, bundle) && InBounds(img, p)
    ensures StampIsAt(c, WrittenBytes(c, img, p, header, bundle) + rest, p.anchor, p.payloadStart, header, bundle)
  {
    StampBytesAreAt(c, StampedHead(img, p) + img.bytes[img.h.sizeOfHeaders..] + Zeros(p.anchor.raw - |img.bytes|), p, header, bundle, rest);
  }

  /** Stamping and reading an accepted template gives back what was written, and the bundle range names the bytes
      of the bundle. */
  lemma StampRoundTrip(c: Codec, img: Image, p: Plan, header: seq<byte>, bundle: seq<byte>, r: Result<Option<RuntimeData>, ReadError>)
    requires Stampable(c, header, bundle) && Planned(img, |header| + |bundle|, p)
    requires ReadsAs(c, StampedImage(c, img, p, header, bundle), r)
    ensures r == Ok(Some(Stamped(c, p.payloadStart, header, bundle)))
    ensures var file := StampedImage(c, img, p, header, bundle).bytes;
            p.payloadStart + |header| + |bundle| == |file| && file[p.payloadStart + |header|..] == bundle
  {
    var stamped := StampedImage(c, img, p, header, bundle);
    StampedImageIsAccepted(c, img, p, header, bundle);
    StampedLayout(c, img, p, header, bundle);
    StampedBytes(c, img, p, header, bundle, []);
    assert stamped.bytes + [] == stamped.bytes;
    StampAtReadsBack(c, stamped.bytes, p.anchor, p.payloadStart, header, bundle, p.payloadEnd);
  }

  // ---------------------------------------------------------------------
  // Signing
  // ---------------------------------------------------------------------

  /** An Authenticode signature: a certificate table at the end of the file, named by the certificate entry, and a
      checksum. */
  function Sign(img: Image, checksum: u32, table: seq<byte>): Image
    requires CanBeSigned(img) && |table| < U32_END
  {
    Image(img.h.(security := (|img.bytes|, |table|)), img.sections,
          SignedHead(img.bytes, img.h.peOffset, img.h.SecurityEntry().value, checksum, |img.bytes|, |table|) + table)
  }

  lemma {:induction false} SectionsOkInLongerFile(h: Headers, h': Headers, ss: seq<Section>, n: nat, fileLen: nat, fileLen': nat)
    requires h.fileAlignment > 0 && h.sectionAlignment > 0 && n <= |ss| && fileLen <= fileLen'
    requires h' == h.(security := h'.security)
    requires SectionsOk(h, ss, n, fileLen)
    ensures SectionsOk(h', ss, n, fileLen') && MaxRawEnd(h', ss, n) == MaxRawEnd(h, ss, n)
  {
    forall j | 0 <= j < n ensures SectionOk(h', ss, j, fileLen') {
      assert SectionOk(h, ss, j, fileLen);
    }
    if n > 0 {
      SectionsOkInLongerFile(h, h', ss, n - 1, fileLen, fileLen');
    }
  }

  /** The bytes from the anchor on are not touched by a signature. */
  lemma SigningKeepsStamp(c: Codec, img: Image, anchor: Section, start: nat, header: seq<byte>, bundle: seq<byte>, checksum: u32,
                          table: seq<byte>)
    requires CanBeSigned(img) && |table| < U32_END && img.h.SecurityEntry().value + 8 <= anchor.raw
    requires Stampable(c, header, bundle) && StampIsAt(c, img.bytes, anchor, start, header, bundle)
    requires |img.bytes| == start + |header| + |bundle|
    ensures var signed := Sign(img, checksum, table);
            && |signed.bytes| == |img.bytes| + |table| && signed.bytes[|img.bytes|..] == table
            && StampIsAt(c, signed.bytes, anchor, start, header, bundle)
  {
    SignAgrees(img.bytes, table, img.h.peOffset, img.h.SecurityEntry().value, checksum, |img.bytes|, |table|, anchor.raw, |img.bytes|);
    StampStays(c, img.bytes, Sign(img, checksum, table).bytes, anchor, start, header, bundle, |img.bytes|);
  }

  lemma EntryIsInHeaders(img: Image, header: seq<byte>, bundle: seq<byte>, p: Plan)
    requires Planned(img, |header| + |bundle|, p)
    ensures StampedHeaders(img, p).SecurityEntry() == Some(p.entry) && p.entry + 8 <= p.anchor.raw
  {
    PlanFacts(img, |header| + |bundle|, p);
  }

  lemma SignedBytes(c: Codec, img: Image, p: Plan, header: seq<byte>, bundle: seq<byte>, checksum: u32, table: seq<byte>)
    requires Stampable(c, header, bundle) && Planned(img, |header| + |bundle|, p) && |table| < U32_END
    ensures var signed := Sign(StampedImage(c, img, p, header, bundle), checksum, table);
            && |signed.bytes| == p.payloadEnd + |table| && signed.bytes[p.payloadEnd..] == table
            && StampIsAt(c, signed.bytes, p.anchor, p.payloadStart, header, bundle)
  {
    var stamped := StampedImage(c, img, p, header, bundle);
    EntryIsInHeaders(img, header, bundle, p);
    StampedBytes(c, img, p, header, bundle, []);
    assert stamped.bytes + [] == stamped.bytes;
    SigningKeepsStamp(c, stamped, p.anchor, p.payloadStart, header, bundle, checksum, table);
  }

  lemma StampStays(c: Codec, file: seq<byte>, file': seq<byte>, anchor: Section, start: nat, header: seq<byte>, bundle: seq<byte>, end: nat)
    requires Stampable(c, header, bundle) && StampIsAt(c, file, anchor, start, header, bundle)
    requires Agree(file, file', anchor.raw, end) && end == start + |header| + |bundle|
    ensures StampIsAt(c, file', anchor, start, header, bundle)
  {
    AgreeInside(file, file', anchor.raw, end, anchor.raw, anchor.raw + FOOTER_LEN);
    AgreeInside(file, file', anchor.raw, end, anchor.raw + FOOTER_LEN, anchor.RawEnd());
    AgreeInside(file, file', anchor.raw, end, anchor.RawEnd(), start);
    AgreeInside(file, file', anchor.raw, end, start, start + |header|);
    AgreeInside(file, file', anchor.raw, end, start + |header|, end);
  }

  /** Signing a stamped image with any well-formed table leaves an accepted image that reads the same, whatever the
      bytes of the certificates. */
  lemma SignedStampRoundTrip(c: Codec, img: Image, p: Plan, header: seq<byte>, bundle: seq<byte>, checksum: u32, table: seq<byte>,
                             r: Result<Option<RuntimeData>, ReadError>)
    requires Stampable(c, header, bundle) && Planned(img, |header| + |bundle|, p)
    requires 8 <= |table| < U32_END && WellFormedTable(table)
    requires ReadsAs(c, Sign(StampedImage(c, img, p, header, bundle), checksum, table), r)
    ensures r == Ok(Some(Stamped(c, p.payloadStart, header, bundle)))
  {
    var signed := Sign(StampedImage(c, img, p, header, bundle), checksum, table);
    SignedIsAccepted(c, img, p, header, bundle, checksum, table);
    StampedLayout(c, img, p, header, bundle);
    SignedIsReadAt(c, img, p, header, bundle, checksum, table);
    AnchoredIsRead(c, signed, p.anchor, p.payloadEnd, |table|, Stamped(c, p.payloadStart, header, bundle), r);
  }

  lemma SignedIsReadAt(c: Codec, img: Image, p: Plan, header: seq<byte>, bundle: seq<byte>, checksum: u32, table: seq<byte>)
    requires Stampable(c, header, bundle) && Planned(img, |header| + |bundle|, p) && |table| < U32_END
    ensures var signed := Sign(StampedImage(c, img, p, header, bundle), checksum, table);
            && p.payloadEnd <= |signed.bytes| && signed.bytes[p.payloadEnd..] == table
            && p.anchor.rawSize >= FOOTER_LEN && p.anchor.RawEnd() <= |signed.bytes|
            && ReadAnchored(c, signed.bytes, p.anchor, p.payloadEnd) == Ok(Stamped(c, p.payloadStart, header, bundle))
  {
    PlanFacts(img, |header| + |bundle|, p);
    SignedBytes(c, img, p, header, bundle, checksum, table);
    StampAtReadsBack(c, Sign(StampedImage(c, img, p, header, bundle), checksum, table).bytes, p.anchor, p.payloadStart, header, bundle,
                     p.payloadEnd);
  }

  /** What is read of an accepted signed image with an anchor. */
  lemma AnchoredIsRead(c: Codec, img: Image, anchor: Section, end: u32, size: u32, data: RuntimeData, r: Result<Option<RuntimeData>, ReadError>)
    requires Accepted(img) && LayoutOf(img).anchor == Some(anchor) && LayoutOf(img).certificate == Some((end, size))
    requires end <= |img.bytes| && WellFormedTable(img.bytes[end..]) && anchor.rawSize >= FOOTER_LEN && anchor.RawEnd() <= |img.bytes|
    requires ReadAnchored(c, img.bytes, anchor, end) == Ok(data) && ReadsAs(c, img, r)
    ensures r == Ok(Some(data))
  {
  }

  lemma SignedIsAccepted(c: Codec, img: Image, p: Plan, header: seq<byte>, bundle: seq<byte>, checksum: u32, table: seq<byte>)
    requires Stampable(c, header, bundle) && Planned(img, |header| + |bundle|, p)
    requires 8 <= |table| < U32_END
    ensures var stamped := StampedImage(c, img, p, header, bundle);
            var signed := Sign(stamped, checksum, table);
            && Accepted(signed)
            && LayoutOf(signed) == LayoutOf(stamped).(certificate := Some((p.payloadEnd, |table|)))
  {
    StampedImageIsAccepted(c, img, p, header, bundle);
    StampedLayout(c, img, p, header, bundle);
    PlannedFits(img, header, bundle, p);
    NamingTableKeepsAccepted(StampedImage(c, img, p, header, bundle), Sign(StampedImage(c, img, p, header, bundle), checksum, table),
                             p.payloadEnd, |table|);
  }

  /** An accepted unsigned image whose length is a multiple of 8 stays accepted when a table is appended and named. */
  lemma NamingTableKeepsAccepted(img: Image, signed: Image, len: u32, size: u32)
    requires Accepted(img) && img.h.security == (0, 0) && |img.bytes| == len && len % 8 == 0 && LayoutOf(img).maxRawEnd <= len && 0 < len
    requires signed.h == img.h.(security := (len, size)) && signed.sections == img.sections
    requires |signed.bytes| == len + size && 8 <= size
    ensures Accepted(signed) && LayoutOf(signed) == LayoutOf(img).(certificate := Some((len, size)))
  {
    SectionsOkInLongerFile(img.h, signed.h, img.sections, |img.sections|, |img.bytes|, |signed.bytes|);
  }

  /** A stamped image is not stamped again. */
  lemma StampedImageIsRefused(c: Codec, img: Image, p: Plan, header: seq<byte>, bundle: seq<byte>, contentLen: nat)
    requires Stampable(c, header, bundle) && Planned(img, |header| + |bundle|, p)
    ensures var stamped := StampedImage(c, img, p, header, bundle);
            MakePlan(stamped, LayoutOf(stamped), contentLen) == None
  {
    StampedLayout(c, img, p, header, bundle);
  }

  // ---------------------------------------------------------------------
  // Files
  // ---------------------------------------------------------------------

  /** What reading a file returns, from the file's own bytes. */
  ghost predicate ReadsFile(c: Codec, file: seq<byte>, r: Result<Option<RuntimeData>, ReadError>) {
    match ParsePe(file)
    case None => r == Err(BadLayout)
    case Some(img) => ReadsAs(c, img, r)
  }

  /** Reading a file has one result. */
  lemma FileReadIsDetermined(c: Codec, file: seq<byte>, r: Result<Option<RuntimeData>, ReadError>, s: Result<Option<RuntimeData>, ReadError>)
    requires ReadsFile(c, file, r) && ReadsFile(c, file, s)
    ensures r == s
  {
    if ParsePe(file).Some? {
      ReadIsDetermined(c, ParsePe(file).value, r, s);
    }
  }

  lemma ReadIsDetermined(c: Codec, img: Image, r: Result<Option<RuntimeData>, ReadError>, s: Result<Option<RuntimeData>, ReadError>)
    requires ReadsAs(c, img, r) && ReadsAs(c, img, s)
    ensures r == s
  {
    if Accepted(img) && LayoutOf(img).anchor.None? && LayoutOf(img).certificate.None? {
      SearchIsDetermined(c, img.bytes, SearchSpec(|img.bytes|, 1, LayoutOf(img).maxRawEnd), r, s);
    }
  }

  lemma StampedIsEdited(c: Codec, img: Image, p: Plan, header: seq<byte>, bundle: seq<byte>)
    requires Stampable(c, header, bundle) && InBounds(img, p)
    ensures var written := WrittenBytes(c, img, p, header, bundle);
            |written| >= |img.bytes| && IsEdited(img.bytes, written, EditOf(img, p), img.h.sizeOfHeaders)
  {
    var written := WrittenBytes(c, img, p, header, bundle);
    assert written[..img.h.sizeOfHeaders] == StampedHead(img, p);
  }

  lemma EditOfImage(img: Image, header: seq<byte>, bundle: seq<byte>, p: Plan)
    requires Planned(img, |header| + |bundle|, p)
    ensures InBounds(img, p) && EditsImage(EditOf(img, p), img.h, |img.sections|)
  {
    PlanFacts(img, |header| + |bundle|, p);
  }

  lemma WrittenImageParsesIff(c: Codec, img: Image, p: Plan, header: seq<byte>, bundle: seq<byte>, stamped: Image)
    requires Stampable(c, header, bundle) && InBounds(img, p) && EditsImage(EditOf(img, p), img.h, |img.sections|)
    requires ParsePe(img.bytes) == Some(img) && AddsOneAlignment(img, p)
    requires stamped == Image(StampedHeaders(img, p), img.sections + [p.anchor], WrittenBytes(c, img, p, header, bundle))
    ensures ParsePe(stamped.bytes) == Some(stamped) <==> SparesPointer(img.h)
  {
    var e, len := EditOf(img, p), img.h.sizeOfHeaders;
    StampedIsEdited(c, img, p, header, bundle);
    ParsedLen(img);
    EditedParsesIff(img.bytes, stamped.bytes, img.h, img.sections, e, len);
    AddedSectionSparesIff(img.bytes, stamped.bytes, img.h, img.sections, e, len);
  }

  /** The plan adds as much initialized data as one file alignment. */
  predicate AddsOneAlignment(img: Image, p: Plan) {
    && 1 <= |img.sections| <= MAX_SECTIONS && img.h.sizeOfHeaders >= DOS_HEADER_LEN
    && p.initializedData == img.h.initializedData + img.h.fileAlignment && img.h.fileAlignment <= 0x1_0000
  }

  lemma PlanAdds(img: Image, contentLen: nat, p: Plan)
    requires Planned(img, contentLen, p)
    ensures AddsOneAlignment(img, p)
  {
    PlanFacts(img, contentLen, p);
    AlignUpIs(FOOTER_LEN, img.h.fileAlignment, img.h.fileAlignment);
  }

  lemma ParsedLen(img: Image)
    requires ParsePe(img.bytes) == Some(img)
    ensures |img.bytes| >= DOS_HEADER_LEN && img == Image(img.h, img.sections, img.bytes)
  {
  }

  /** The bytes that the writer leaves parse into the stamped image exactly when the headers of the template spare the
      pointer to them. */
  lemma StampedParsesIff(c: Codec, img: Image, p: Plan, header: seq<byte>, bundle: seq<byte>)
    requires Stampable(c, header, bundle) && Planned(img, |header| + |bundle|, p) && ParsePe(img.bytes) == Some(img)
    ensures var stamped := StampedImage(c, img, p, header, bundle);
            ParsePe(stamped.bytes) == Some(stamped) <==> SparesPointer(img.h)
  {
    PlannedIsWritten(c, img, p, header, bundle);
    WrittenImageParsesIff(c, img, p, header, bundle, StampedImage(c, img, p, header, bundle));
  }

  /** The pointer to the headers is the same in the written bytes exactly when the headers spare it. */
  lemma StampedPointerStaysIff(c: Codec, img: Image, p: Plan, header: seq<byte>, bundle: seq<byte>)
    requires Stampable(c, header, bundle) && Planned(img, |header| + |bundle|, p) && ParsePe(img.bytes) == Some(img)
    ensures PointerStays(img.bytes, StampedImage(c, img, p, header, bundle).bytes) <==> SparesPointer(img.h)
  {
    PlannedIsWritten(c, img, p, header, bundle);
    StampedIsEdited(c, img, p, header, bundle);
    AddedSectionSparesIff(img.bytes, WrittenBytes(c, img, p, header, bundle), img.h, img.sections, EditOf(img, p), img.h.sizeOfHeaders);
  }

  /** The plan adds the anchor, and the headers end in front of the sections. */
  lemma PlanAddsAnchor(img: Image, contentLen: nat, p: Plan)
    requires Planned(img, contentLen, p)
    ensures FitsHeaders(img, p) && PeKept.AddsAnchor(img, EditOf(img, p))
    ensures LayoutOf(img).firstSection.Some? && PeKept.Slot(img) + SECTION_HEADER_LEN <= LayoutOf(img).firstSection.value
  {
    PlanFacts(img, contentLen, p);
    StampedHeadersOk(img, contentLen, p);
  }

  lemma WrittenIsExtended(c: Codec, img: Image, p: Plan, header: seq<byte>, bundle: seq<byte>)
    requires Stampable(c, header, bundle) && InBounds(img, p) && EditsImage(EditOf(img, p), img.h, |img.sections|)
    ensures PeKept.IsExtended(img, WrittenBytes(c, img, p, header, bundle), EditOf(img, p), img.h.sizeOfHeaders)
    ensures var written := WrittenBytes(c, img, p, header, bundle);
            p.anchor.RawEnd() <= |written| && written[|img.bytes|..p.anchor.raw] == Zeros(p.anchor.raw - |img.bytes|)
  {
    StampedIsEdited(c, img, p, header, bundle);
    var written, len := WrittenBytes(c, img, p, header, bundle), img.h.sizeOfHeaders;
    assert written[len..|img.bytes|] == img.bytes[len..];
  }

  lemma WrittenKeepsTemplate(c: Codec, img: Image, p: Plan, header: seq<byte>, bundle: seq<byte>)
    requires Stampable(c, header, bundle) && InBounds(img, p) && EditsImage(EditOf(img, p), img.h, |img.sections|)
    requires PeKept.AddsAnchor(img, EditOf(img, p)) && PeKept.KeepsSections(img, WrittenBytes(c, img, p, header, bundle))
    ensures PeKept.Keeps(img, WrittenBytes(c, img, p, header, bundle))
  {
    WrittenIsExtended(c, img, p, header, bundle);
    PeKept.ExtendingKeepsBytes(img, WrittenBytes(c, img, p, header, bundle), EditOf(img, p), img.h.sizeOfHeaders);
    PeKept.ExtendingNamesAnchor(img, WrittenBytes(c, img, p, header, bundle), EditOf(img, p), img.h.sizeOfHeaders);
  }

  /** The written file is the template with an anchor, and with nothing else changed. */
  lemma StampKeepsTemplate(c: Codec, img: Image, p: Plan, header: seq<byte>, bundle: seq<byte>)
    requires Stampable(c, header, bundle) && Planned(img, |header| + |bundle|, p)
    ensures PeKept.Keeps(img, StampedImage(c, img, p, header, bundle).bytes)
  {
    PlanAddsAnchor(img, |header| + |bundle|, p);
    PlannedIsWritten(c, img, p, header, bundle);
    WrittenIsExtended(c, img, p, header, bundle);
    PeKept.ExtendingKeepsSections(img, WrittenBytes(c, img, p, header, bundle), EditOf(img, p), img.h.sizeOfHeaders);
    WrittenKeepsTemplate(c, img, p, header, bundle);
  }

  /** When the pointer moves on by one, the written file has no headers any more. */
  lemma MovedStampIsLost(c: Codec, img: Image, p: Plan, header: seq<byte>, bundle: seq<byte>)
    requires Stampable(c, header, bundle) && Planned(img, |header| + |bundle|, p) && ParsePe(img.bytes) == Some(img)
    requires MovesByOne(img.h)
    ensures ParsePe(StampedImage(c, img, p, header, bundle).bytes) == None
  {
    PlannedIsWritten(c, img, p, header, bundle);
    StampedIsEdited(c, img, p, header, bundle);
    MovedByOneIsLost(img.bytes, WrittenBytes(c, img, p, header, bundle), img.h, img.sections, EditOf(img, p), img.h.sizeOfHeaders);
  }

  lemma PlannedIsWritten(c: Codec, img: Image, p: Plan, header: seq<byte>, bundle: seq<byte>)
    requires Stampable(c, header, bundle) && Planned(img, |header| + |bundle|, p)
    ensures InBounds(img, p) && EditsImage(EditOf(img, p), img.h, |img.sections|) && AddsOneAlignment(img, p)
    ensures StampedImage(c, img, p, header, bundle)
            == Image(StampedHeaders(img, p), img.sections + [p.anchor], WrittenBytes(c, img, p, header, bundle))
  {
    EditOfImage(img, header, bundle, p);
    PlanAdds(img, |header| + |bundle|, p);
    StampedImageIs(c, img, p, header, bundle);
  }

  lemma StampedImageIs(c: Codec, img: Image, p: Plan, header: seq<byte>, bundle: seq<byte>)
    requires Stampable(c, header, bundle) && Planned(img, |header| + |bundle|, p) && InBounds(img, p)
    ensures StampedImage(c, img, p, header, bundle)
            == Image(StampedHeaders(img, p), img.sections + [p.anchor], WrittenBytes(c, img, p, header, bundle))
  {
  }

  /** A file whose headers spare the pointer, stamped, reads as what was written. */
  lemma FileRoundTrip(c: Codec, img: Image, p: Plan, header: seq<byte>, bundle: seq<byte>, r: Result<Option<RuntimeData>, ReadError>)
    requires Stampable(c, header, bundle) && Planned(img, |header| + |bundle|, p) && ParsePe(img.bytes) == Some(img)
    requires SparesPointer(img.h)
    requires ReadsFile(c, StampedImage(c, img, p, header, bundle).bytes, r)
    ensures r == Ok(Some(Stamped(c, p.payloadStart, header, bundle)))
  {
    StampedParsesIff(c, img, p, header, bundle);
    StampRoundTrip(c, img, p, header, bundle, r);
  }

  /** So does the signed file: its bytes parse into the signed image, which the reader accepts. */
  lemma SignedFileRoundTrip(c: Codec, img: Image, p: Plan, header: seq<byte>, bundle: seq<byte>, checksum: u32, table: seq<byte>,
                            r: Result<Option<RuntimeData>, ReadError>)
    requires Stampable(c, header, bundle) && Planned(img, |header| + |bundle|, p) && ParsePe(img.bytes) == Some(img)
    requires SparesPointer(img.h) && 8 <= |table| < U32_END && WellFormedTable(table)
    requires ReadsFile(c, Sign(StampedImage(c, img, p, header, bundle), checksum, table).bytes, r)
    ensures r == Ok(Some(Stamped(c, p.payloadStart, header, bundle)))
  {
    StampedParsesIff(c, img, p, header, bundle);
    SignedParses(StampedImage(c, img, p, header, bundle), checksum, table);
    SignedStampRoundTrip(c, img, p, header, bundle, checksum, table, r);
  }

  /** Signing keeps an image that parses. */
  lemma SignedParses(img: Image, checksum: u32, table: seq<byte>)
    requires ParsePe(img.bytes) == Some(img) && CanBeSigned(img) && |table| < U32_END
    ensures ParsePe(Sign(img, checksum, table).bytes) == Some(Sign(img, checksum, table))
  {
    SignedFileParses(img.bytes, table, img.h, img.sections, img.h.SecurityEntry().value, checksum, |img.bytes|, |table|);
  }

  /** What the writer finds in a file that it can stamp. */
  datatype Prepared = Prepared(img: Image, plan: Plan)

  ghost predicate IsPrepared(file: seq<byte>, contentLen: nat, q: Prepared) {
    file == q.img.bytes && ParsePe(q.img.bytes) == Some(q.img) && Planned(q.img, contentLen, q.plan)
  }

  ghost predicate CanBeStamped(file: seq<byte>, contentLen: nat) {
    exists q :: IsPrepared(file, contentLen, q)
  }

  /** The second file is the first one, stamped. */
  ghost predicate IsStampedFrom(c: Codec, file: seq<byte>, header: seq<byte>, bundle: seq<byte>, stamped: seq<byte>)
    requires Stampable(c, header, bundle)
  {
    exists q :: IsPrepared(file, |header| + |bundle|, q) && stamped == StampedImage(c, q.img, q.plan, header, bundle).bytes
  }

  /** The second file is the first one, a PE file, with an anchor section: the program is still there. */
  ghost predicate HoldsProgram(file: seq<byte>, stamped: seq<byte>) {
    ParsePe(file).Some? && PeKept.Keeps(ParsePe(file).value, stamped)
  }

  lemma StampedHoldsProgram(c: Codec, file: seq<byte>, header: seq<byte>, bundle: seq<byte>, stamped: seq<byte>)
    requires Stampable(c, header, bundle) && IsStampedFrom(c, file, header, bundle, stamped)
    ensures HoldsProgram(file, stamped)
  {
    var q :| IsPrepared(file, |header| + |bundle|, q) && stamped == StampedImage(c, q.img, q.plan, header, bundle).bytes;
    StampKeepsTemplate(c, q.img, q.plan, header, bundle);
  }

  /** The file that the writer changes. */
  class OutputFile {
    var bytes: seq<byte>

    constructor (template: seq<byte>)
      ensures bytes == template
    {
      bytes := template;
    }

    /** Cut the file off, or extend it with zeros. */
    method SetLen(n: nat)
      modifies this
      ensures bytes == Resized(old(bytes), n)
    {
      bytes := Resized(bytes, n);
    }

    /** Overwrite the bytes at an offset, extending the file when they reach past its end. */
    method WriteAt(at: nat, data: seq<byte>)
      requires at <= |bytes|
      modifies this
      ensures bytes == Overwritten(old(bytes), at, data)
    {
      bytes := Overwritten(bytes, at, data);
    }

    /** `write_pe_runtime_data`: nothing is written before every check has passed. */
    method WriteRuntimeData(c: Codec, header: seq<byte>, bundle: seq<byte>) returns (ok: bool)
      requires Stampable(c, header, bundle)
      modifies this
      ensures ok <==> CanBeStamped(old(bytes), |header| + |bundle|)
      ensures if ok then IsStampedFrom(c, old(bytes), header, bundle, bytes) else bytes == old(bytes)
      ensures ok ==> HoldsProgram(old(bytes), bytes)
    {
      var prepared := Prepare(bytes, header, bundle);
      ok := prepared.Some?;
      if ok {
        PreparedIsReady(c, bytes, prepared.value, header, bundle);
        WritePlanned(c, prepared.value.img, prepared.value.plan, header, bundle);
        StampedHoldsProgram(c, old(bytes), header, bundle, bytes);
      }
    }

    /** Change the headers, and write the content, the footer in the anchor, and the headers. */
    method WritePlanned(c: Codec, img: Image, p: Plan, header: seq<byte>, bundle: seq<byte>)
      requires Stampable(c, header, bundle) && InBounds(img, p) && p.payloadEnd == p.payloadStart + |header| + |bundle|
      requires bytes == img.bytes
      modifies this
      ensures bytes == WrittenBytes(c, img, p, header, bundle)
    {
      WriteParts(p.anchor.raw, p.anchor.RawEnd(), p.payloadStart, StampedHead(img, p), EncodeFooter(FooterFor(c, header, bundle)),
                 header, bundle);
      WritesCompose(img.bytes, p.anchor.raw, p.anchor.RawEnd(), p.payloadStart, StampedHead(img, p),
                    EncodeFooter(FooterFor(c, header, bundle)), header, bundle);
    }

    /** The writes, in their order, with the changed headers last. */
    method WriteParts(anchor: nat, anchorEnd: nat, start: nat, head: seq<byte>, footer: seq<byte>, header: seq<byte>, bundle: seq<byte>)
      requires |head| <= |bytes| <= anchor && anchor + |footer| <= anchorEnd <= start
      modifies this
      ensures bytes == Written(old(bytes), anchor, anchorEnd, start, head, footer, header, bundle)
    {
      SetLen(anchorEnd);
      SetLen(start);
      WriteAt(start, header);
      WriteAt(start + |header|, bundle);
      SetLen(start + |header| + |bundle|);
      WriteAt(anchor, footer);
      WriteAt(0, head);
    }
  }

  lemma PlannedFits(img: Image, header: seq<byte>, bundle: seq<byte>, p: Plan)
    requires Planned(img, |header| + |bundle|, p)
    ensures InBounds(img, p) && p.payloadEnd == p.payloadStart + |header| + |bundle|
  {
    PlanFacts(img, |header| + |bundle|, p);
  }

  lemma PreparedBytes(c: Codec, q: Prepared, header: seq<byte>, bundle: seq<byte>)
    requires Stampable(c, header, bundle) && Planned(q.img, |header| + |bundle|, q.plan) && InBounds(q.img, q.plan)
    ensures StampedImage(c, q.img, q.plan, header, bundle).bytes == WrittenBytes(c, q.img, q.plan, header, bundle)
  {
  }

  lemma PreparedIsReady(c: Codec, file: seq<byte>, q: Prepared, header: seq<byte>, bundle: seq<byte>)
    requires Stampable(c, header, bundle) && IsPrepared(file, |header| + |bundle|, q)
    ensures InBounds(q.img, q.plan) && q.plan.payloadEnd == q.plan.payloadStart + |header| + |bundle| && q.img.bytes == file
    ensures IsStampedFrom(c, file, header, bundle, WrittenBytes(c, q.img, q.plan, header, bundle))
  {
    PlannedFits(q.img, header, bundle, q.plan);
    PreparedBytes(c, q, header, bundle);
  }

  /** Everything that can fail, before anything is written. */
  method Prepare(file: seq<byte>, header: seq<byte>, bundle: seq<byte>) returns (r: Option<Prepared>)
    ensures r.Some? ==> IsPrepared(file, |header| + |bundle|, r.value)
    ensures r.None? ==> !CanBeStamped(file, |header| + |bundle|)
  {
    var parsed := ParsePe(file);
    if parsed.None? { return None; }
    var layout := ReadLayout(parsed.value);
    if layout.None? { return None; }
    var plan := MakePlan(parsed.value, layout.value, |header| + |bundle|);
    r := if plan.Some? then Some(Prepared(parsed.value, plan.value)) else None;
  }

  /** A file after the seven calls that write a stamp. */
  function Written(file: seq<byte>, anchor: nat, anchorEnd: nat, start: nat, head: seq<byte>, footer: seq<byte>, header: seq<byte>,
                   bundle: seq<byte>): seq<byte>
    requires |file| <= anchor && anchor + |footer| <= anchorEnd <= start
  {
    Overwritten(Overwritten(WithContent(file, anchorEnd, start, header, bundle), anchor, footer), 0, head)
  }

  function WithContent(file: seq<byte>, anchorEnd: nat, start: nat, header: seq<byte>, bundle: seq<byte>): (r: seq<byte>)
    requires |file| <= anchorEnd <= start
    ensures |r| == start + |header| + |bundle|
  {
    var filled := Overwritten(Resized(Resized(file, anchorEnd), start), start, header);
    Resized(Overwritten(filled, start + |header|, bundle), start + |header| + |bundle|)
  }

  /** The writes of a stamp, put together. */
  lemma WritesCompose(template: seq<byte>, anchor: nat, anchorEnd: nat, start: nat, head: seq<byte>, footer: seq<byte>,
                      header: seq<byte>, bundle: seq<byte>)
    requires |head| <= |template| <= anchor && anchor + |footer| <= anchorEnd <= start
    ensures Written(template, anchor, anchorEnd, start, head, footer, header, bundle)
            == head + template[|head|..] + Zeros(anchor - |template|) + (footer + Zeros(start - anchor - |footer|) + header + bundle)
  {
    ContentIsAppended(template, anchorEnd, start, header, bundle);
    AnchorWritten(template, anchor, start, footer, header + bundle);
    HeadWritten(template, head, Zeros(anchor - |template|), footer, Zeros(start - anchor - |footer|), header, bundle);
  }

  lemma ContentIsAppended(template: seq<byte>, anchorEnd: nat, start: nat, header: seq<byte>, bundle: seq<byte>)
    requires |template| <= anchorEnd <= start
    ensures WithContent(template, anchorEnd, start, header, bundle) == template + Zeros(start - |template|) + (header + bundle)
  {
    var extended := template + Zeros(start - |template|);
    TwiceResized(template, anchorEnd, start);
    Appended(extended, header);
    Appended(extended + header, bundle);
    assert extended + header + bundle == extended + (header + bundle);
  }

  lemma TwiceResized(s: seq<byte>, n: nat, m: nat)
    requires |s| <= n <= m
    ensures Resized(Resized(s, n), m) == s + Zeros(m - |s|)
  {
  }

  lemma Appended(s: seq<byte>, data: seq<byte>)
    ensures Overwritten(s, |s|, data) == s + data
  {
  }

  lemma AnchorWritten(template: seq<byte>, anchor: nat, start: nat, footer: seq<byte>, content: seq<byte>)
    requires |template| <= anchor && anchor + |footer| <= start
    ensures Overwritten(template + Zeros(start - |template|) + content, anchor, footer)
            == template + Zeros(anchor - |template|) + footer + Zeros(start - anchor - |footer|) + content
  {
  }

  lemma HeadWritten(template: seq<byte>, head: seq<byte>, gap: seq<byte>, footer: seq<byte>, pad: seq<byte>, header: seq<byte>, bundle: seq<byte>)
    requires |head| <= |template|
    ensures Overwritten(template + gap + footer + pad + (header + bundle), 0, head)
            == head + template[|head|..] + gap + (footer + pad + header + bundle)
  {
  }
}
