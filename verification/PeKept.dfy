/** What stamping leaves alone in a PE file, and what it says in the headers: `write_pe_runtime_data` in
    `src/runtime_data.rs` extends the file and rewrites six places of its headers. */
module PeKept {
  import opened Wrappers
  import opened Bytes
  import opened PeImage
  import opened PeHeader

  /** The free place behind the section table. */
  function Slot(img: Image): nat {
    img.h.SectionTable() + |img.sections| * SECTION_HEADER_LEN
  }

  /** The places that are rewritten: the section count, the sizes of the initialized data and of the image, the checksum,
      the certificate entry, and the section header behind the last one. */
  predicate IsRewritten(img: Image, i: nat) {
    var pe := img.h.peOffset;
    || pe + 6 <= i < pe + 8 || pe + 32 <= i < pe + 36 || pe + 80 <= i < pe + 84 || pe + 88 <= i < pe + 92
    || (img.h.SecurityEntry().Some? && img.h.SecurityEntry().value <= i < img.h.SecurityEntry().value + 8)
    || Slot(img) <= i < Slot(img) + SECTION_HEADER_LEN
  }

  /** Every other byte of the template is where it was. */
  ghost predicate KeepsBytes(img: Image, file: seq<byte>) {
    |img.bytes| <= |file| && forall i {:trigger file[i]} :: 0 <= i < |img.bytes| && !IsRewritten(img, i) ==> file[i] == img.bytes[i]
  }

  /** So is everything that the template's sections hold: the code and the data of the program. */
  ghost predicate KeepsSections(img: Image, file: seq<byte>) {
    forall s :: s in img.sections && s.FileBacked() ==>
      s.RawEnd() <= |img.bytes| <= |file| && file[s.raw..s.RawEnd()] == img.bytes[s.raw..s.RawEnd()]
  }

  /** The section count and the two sizes in the headers at `pe`, no checksum, and an empty entry for certificates. The image is
      no smaller than it was, and reaches up to `end`. */
  ghost predicate HeadersSay(file: seq<byte>, pe: nat, entry: nat, count: nat, initializedData: nat, sizeOfImage: nat, end: nat) {
    && pe + 92 <= entry && entry + 8 <= |file|
    && Word(file, pe + 6) == count && Long(file, pe + 32) == initializedData
    && sizeOfImage <= Long(file, pe + 80) && end <= Long(file, pe + 80)
    && Long(file, pe + 88) == 0 && Long(file, entry) == 0 && Long(file, entry + 4) == 0
  }

  /** The section header at `slot` is that of an anchor. */
  ghost predicate AnchorIn(file: seq<byte>, slot: nat) {
    && slot + SECTION_HEADER_LEN <= |file| && file[slot + 24..slot + 36] == Zeros(12)
    && var a := SectionIn(file, slot);
       a.name == ANCHOR_NAME && a.vsize == ANCHOR_LEN && a.flags == ANCHOR_FLAGS && a.RawEnd() <= |file|
  }

  /** What the rewritten places say: one more section, which is the anchor and lies behind the template; its size added; the
      image still large enough; no checksum and no certificate. */
  ghost predicate NamesAnchor(img: Image, file: seq<byte>) {
    && img.h.SecurityEntry().Some? && AnchorIn(file, Slot(img)) && |img.bytes| <= SectionIn(file, Slot(img)).raw
    && var a := SectionIn(file, Slot(img));
       HeadersSay(file, img.h.peOffset, img.h.SecurityEntry().value, |img.sections| + 1, img.h.initializedData + a.rawSize,
                  img.h.sizeOfImage, a.VirtualEnd())
  }

  /** The file is the template with an anchor section, padded up to it: nothing else of the template has changed. */
  ghost predicate Keeps(img: Image, file: seq<byte>) {
    && KeepsBytes(img, file) && KeepsSections(img, file) && NamesAnchor(img, file)
    && var anchor := SectionIn(file, Slot(img)).raw;
       file[|img.bytes|..anchor] == Zeros(anchor - |img.bytes|)
  }

  // ---------------------------------------------------------------------
  // Changed headers keep the rest
  // ---------------------------------------------------------------------

  /** The file starts with the changed headers, and the rest of the template follows. */
  ghost predicate IsExtended(img: Image, file: seq<byte>, e: HeaderEdit, len: nat) {
    && EditsImage(e, img.h, |img.sections|) && IsEdited(img.bytes, file, e, len)
    && |img.bytes| <= |file| && file[len..|img.bytes|] == img.bytes[len..]
  }

  lemma ExtendingKeepsByte(img: Image, file: seq<byte>, e: HeaderEdit, len: nat, i: nat)
    requires IsExtended(img, file, e, len) && i < |img.bytes| && !IsRewritten(img, i)
    ensures file[i] == img.bytes[i]
  {
    if i < len {
      EditAgrees(img.bytes, file, e, len, i, i + 1);
      assert file[i..i + 1][0] == img.bytes[i..i + 1][0];
    } else {
      assert file[i] == file[len..|img.bytes|][i - len] && img.bytes[i] == img.bytes[len..][i - len];
    }
  }

  lemma ExtendingKeepsBytes(img: Image, file: seq<byte>, e: HeaderEdit, len: nat)
    requires IsExtended(img, file, e, len)
    ensures KeepsBytes(img, file)
  {
    forall i | 0 <= i < |img.bytes| && !IsRewritten(img, i) ensures file[i] == img.bytes[i] {
      ExtendingKeepsByte(img, file, e, len, i);
    }
  }

  lemma {:induction false} FirstSectionIsFirst(ss: seq<Section>, n: nat)
    requires n <= |ss|
    ensures forall j :: 0 <= j < n && ss[j].FileBacked() ==>
      FirstSectionOffset(ss, n).Some? && FirstSectionOffset(ss, n).value <= ss[j].raw
  {
    if n > 0 {
      FirstSectionIsFirst(ss, n - 1);
    }
  }

  /** The headers end in front of the sections, so that no section holds a rewritten place. */
  lemma ExtendingKeepsSections(img: Image, file: seq<byte>, e: HeaderEdit, len: nat)
    requires IsExtended(img, file, e, len) && Accepted(img)
    requires LayoutOf(img).firstSection.Some? && Slot(img) + SECTION_HEADER_LEN <= LayoutOf(img).firstSection.value
    ensures KeepsSections(img, file)
  {
    ExtendingKeepsBytes(img, file, e, len);
    FirstSectionIsFirst(img.sections, |img.sections|);
    forall j | 0 <= j < |img.sections| && img.sections[j].FileBacked()
      ensures img.sections[j].RawEnd() <= |img.bytes|
      ensures file[img.sections[j].raw..img.sections[j].RawEnd()] == img.bytes[img.sections[j].raw..img.sections[j].RawEnd()]
    {
      assert SectionOk(img.h, img.sections, j, |img.bytes|);
    }
  }

  /** The edit adds the anchor. */
  predicate AddsAnchor(img: Image, e: HeaderEdit) {
    && e.initializedData == img.h.initializedData + e.section.rawSize
    && img.h.sizeOfImage <= e.sizeOfImage && e.section.VirtualEnd() <= e.sizeOfImage
    && e.section.name == ANCHOR_NAME && e.section.vsize == ANCHOR_LEN && e.section.flags == ANCHOR_FLAGS
    && |img.bytes| <= e.section.raw
  }

  lemma ExtendingWritesSection(img: Image, file: seq<byte>, e: HeaderEdit, len: nat)
    requires IsEdited(img.bytes, file, e, len)
    ensures SectionIn(file, e.slot) == e.section && file[e.slot + 24..e.slot + 36] == Zeros(12)
  {
    ChangeIsThere(img.bytes, file, e, len, 5);
    SectionHeaderReads(e.section, file, e.slot);
    SliceOfSlice(file, e.slot, SectionHeaderBytes(e.section), 24, 36);
  }

  lemma ExtendingClearsChecksum(img: Image, file: seq<byte>, e: HeaderEdit, len: nat)
    requires IsEdited(img.bytes, file, e, len)
    ensures Long(file, e.pe + 88) == 0
  {
    ChangeIsThere(img.bytes, file, e, len, 3);
    LongReads(file, e.pe + 88, 0);
  }

  lemma ExtendingSetsHeaders(img: Image, file: seq<byte>, e: HeaderEdit, len: nat)
    requires IsEdited(img.bytes, file, e, len) && img.h.sizeOfImage <= e.sizeOfImage && e.section.VirtualEnd() <= e.sizeOfImage
    ensures HeadersSay(file, e.pe, e.entry, e.count, e.initializedData, img.h.sizeOfImage, e.section.VirtualEnd())
  {
    SetFields(img.bytes, file, e, len);
    ExtendingClearsChecksum(img, file, e, len);
  }

  lemma ExtendingWritesAnchor(img: Image, file: seq<byte>, e: HeaderEdit, len: nat)
    requires IsEdited(img.bytes, file, e, len) && AddsAnchor(img, e) && e.section.RawEnd() <= |file|
    ensures AnchorIn(file, e.slot) && SectionIn(file, e.slot) == e.section
  {
    ExtendingWritesSection(img, file, e, len);
  }

  lemma ExtendingNamesAnchor(img: Image, file: seq<byte>, e: HeaderEdit, len: nat)
    requires IsExtended(img, file, e, len) && AddsAnchor(img, e) && e.section.RawEnd() <= |file|
    ensures NamesAnchor(img, file) && SectionIn(file, Slot(img)) == e.section
  {
    ExtendingSetsHeaders(img, file, e, len);
    ExtendingWritesAnchor(img, file, e, len);
    assert Slot(img) == e.slot && img.h.peOffset == e.pe && img.h.SecurityEntry() == Some(e.entry) && |img.sections| + 1 == e.count;
  }
}
