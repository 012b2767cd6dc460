/** `append_to_binary` in `src/runtime_data.rs`: stamp a copy of a template, read the result again, and keep it only if
    it says what was asked for. */
module RuntimeAppend {
  import opened Wrappers
  import opened Bytes
  import opened RuntimeFooter
  import MachO
  import MachOStamp
  import MachOKept
  import MachOWriter
  import MachORead
  import PeImage
  import PeHeader
  import PeStamp

  /** The limits on what is written. */
  predicate Fits(header: seq<byte>, bundle: seq<byte>) {
    |header| <= MAX_HEADER_LEN && |header| + |bundle| + FOOTER_LEN < U64_END
  }

  /** What was read names the header, and a bundle whose bytes have the recorded digest. */
  predicate Matches(c: Codec, file: seq<byte>, data: RuntimeData, header: seq<byte>, bundle: seq<byte>) {
    && data.header == header
    && match data.bundle
       case None => bundle == []
       case Some(b) => b.offset + b.len <= |file| && c.sha(file[b.offset..b.offset + b.len]) == b.sha
  }

  predicate ReadsMatching(c: Codec, file: seq<byte>, r: Result<Option<RuntimeData>, ReadError>, header: seq<byte>, bundle: seq<byte>) {
    r.Ok? && r.value.Some? && Matches(c, file, r.value.value, header, bundle)
  }

  /** The file reads as the header and the bundle that stand at `start` in it. */
  ghost predicate IsWritten(c: Codec, file: seq<byte>, start: nat, header: seq<byte>, bundle: seq<byte>, r: Result<Option<RuntimeData>, ReadError>) {
    && |bundle| < U64_END && r == Ok(Some(Stamped(c, start, header, bundle)))
    && start + |header| + |bundle| <= |file| && file[start..start + |header|] == header
    && file[start + |header|..start + |header| + |bundle|] == bundle
  }

  /** The stamp that stands at `start` matches. */
  lemma StampedMatches(c: Codec, file: seq<byte>, start: nat, header: seq<byte>, bundle: seq<byte>)
    requires |bundle| < U64_END && start + |header| + |bundle| <= |file|
    requires file[start + |header|..start + |header| + |bundle|] == bundle
    ensures Matches(c, file, Stamped(c, start, header, bundle), header, bundle)
  {
  }

  // ---------------------------------------------------------------------
  // Mach-O
  // ---------------------------------------------------------------------

  /** The template has a plan, and its growth fits. */
  ghost predicate AppendsAs(file: seq<byte>, payloadLen: nat, m: nat, p: MachOStamp.Plan) {
    && MachO.ParseImage(file).Some?
    && MachOStamp.PlannedFor(MachO.ParseImage(file).value, m, p, payloadLen)
    && MachOStamp.GrowthFits(MachO.ParseImage(file).value, m, p)
  }

  ghost predicate CanAppend(file: seq<byte>, payloadLen: nat) {
    exists m, p {:trigger AppendsAs(file, payloadLen, m, p)} :: AppendsAs(file, payloadLen, m, p)
  }

  lemma OnePlan(img: MachO.Image, payloadLen: nat, m: nat, p: MachOStamp.Plan, n: nat, q: MachOStamp.Plan)
    requires MachOStamp.PlannedFor(img, m, p, payloadLen) && MachOStamp.PlannedFor(img, n, q, payloadLen)
    ensures m == n && p == q
  {
    MachO.LinkeditIsFound(img, m);
    MachO.LinkeditIsFound(img, n);
  }

  lemma MachOStampMatches(c: Codec, img: MachO.Image, m: nat, p: MachOStamp.Plan, header: seq<byte>, bundle: seq<byte>, file: seq<byte>)
    requires Stampable(c, header, bundle) && MachOStamp.PlannedFor(img, m, p, |Stamp(c, header, bundle)|) && MachOStamp.CanStamp(img, m, p)
    requires file == MachOStamp.StampedImage(img, m, p, Stamp(c, header, bundle)).Bytes()
    ensures Matches(c, file, Stamped(c, p.payloadOffset, header, bundle), header, bundle)
  {
    MachORead.StampedBytes(c, img, m, p, header, bundle);
    MachORead.FrontLen(c, img, m, p, header, bundle);
    PaddedMatches(c, MachORead.Front(img, m, p), header, bundle, file, p.payloadOffset);
  }

  lemma PaddedMatches(c: Codec, front: seq<byte>, header: seq<byte>, bundle: seq<byte>, file: seq<byte>, start: nat)
    requires Stampable(c, header, bundle) && file == PaddedStamp(c, front, header, bundle, 0, []) && start == |front|
    ensures Matches(c, file, Stamped(c, start, header, bundle), header, bundle)
  {
    StampLayout(c, front, header, bundle, 0, []);
    StampedMatches(c, file, start, header, bundle);
  }

  lemma PaddedIsWritten(c: Codec, front: seq<byte>, header: seq<byte>, bundle: seq<byte>, file: seq<byte>, start: nat,
                        r: Result<Option<RuntimeData>, ReadError>)
    requires Stampable(c, header, bundle) && file == PaddedStamp(c, front, header, bundle, 0, []) && start == |front|
    requires r == Ok(Some(Stamped(c, start, header, bundle)))
    ensures IsWritten(c, file, start, header, bundle, r)
  {
    StampLayout(c, front, header, bundle, 0, []);
  }

  lemma PlannedIsWritten(c: Codec, img: MachO.Image, m: nat, p: MachOStamp.Plan, header: seq<byte>, bundle: seq<byte>, file: seq<byte>,
                         r: Result<Option<RuntimeData>, ReadError>)
    requires Stampable(c, header, bundle) && MachOWriter.IsStampOf(img, m, p, Stamp(c, header, bundle), file) && MachORead.ReadsAs(c, file, r)
    requires MachOStamp.GrowthFits(img, m, p)
    ensures IsWritten(c, file, p.payloadOffset, header, bundle, r)
  {
    MachORead.StampReadsBackIff(c, img, m, p, header, bundle, r);
    MachORead.StampedBytes(c, img, m, p, header, bundle);
    MachORead.FrontLen(c, img, m, p, header, bundle);
    PaddedIsWritten(c, MachORead.Front(img, m, p), header, bundle, file, p.payloadOffset, r);
  }

  /** A stamped file whose growth fits reads as what was written into it. */
  lemma StampedIsWritten(c: Codec, template: seq<byte>, header: seq<byte>, bundle: seq<byte>, file: seq<byte>, r: Result<Option<RuntimeData>, ReadError>)
    requires Stampable(c, header, bundle) && MachOWriter.IsStampedFrom(template, Stamp(c, header, bundle), file) && MachORead.ReadsAs(c, file, r)
    requires CanAppend(template, |Stamp(c, header, bundle)|)
    ensures exists start: nat :: IsWritten(c, file, start, header, bundle, r)
  {
    var m, p :| MachOWriter.IsStampOf(MachO.ParseImage(template).value, m, p, Stamp(c, header, bundle), file);
    OnlyPlanDecides(template, |Stamp(c, header, bundle)|, m, p);
    PlannedIsWritten(c, MachO.ParseImage(template).value, m, p, header, bundle, file, r);
  }

  lemma PlannedOutcome(c: Codec, img: MachO.Image, m: nat, p: MachOStamp.Plan, header: seq<byte>, bundle: seq<byte>, file: seq<byte>,
                       r: Result<Option<RuntimeData>, ReadError>)
    requires Stampable(c, header, bundle) && MachOWriter.IsStampOf(img, m, p, Stamp(c, header, bundle), file) && MachORead.ReadsAs(c, file, r)
    ensures ReadsMatching(c, file, r, header, bundle) <==> MachOStamp.GrowthFits(img, m, p)
  {
    MachORead.StampReadsBackIff(c, img, m, p, header, bundle, r);
    MachOStampMatches(c, img, m, p, header, bundle, file);
  }

  /** Reading a stamped file again gives what was asked for exactly when the growth of the template fits. */
  lemma MachOOutcome(c: Codec, template: seq<byte>, header: seq<byte>, bundle: seq<byte>, file: seq<byte>, r: Result<Option<RuntimeData>, ReadError>)
    requires Stampable(c, header, bundle) && MachOWriter.IsStampedFrom(template, Stamp(c, header, bundle), file) && MachORead.ReadsAs(c, file, r)
    ensures ReadsMatching(c, file, r, header, bundle) <==> CanAppend(template, |Stamp(c, header, bundle)|)
  {
    var m, p :| MachOWriter.IsStampOf(MachO.ParseImage(template).value, m, p, Stamp(c, header, bundle), file);
    PlannedOutcome(c, MachO.ParseImage(template).value, m, p, header, bundle, file, r);
    OnlyPlanDecides(template, |Stamp(c, header, bundle)|, m, p);
  }

  lemma OnlyPlanDecides(file: seq<byte>, payloadLen: nat, m: nat, p: MachOStamp.Plan)
    requires MachO.ParseImage(file).Some? && MachOStamp.PlannedFor(MachO.ParseImage(file).value, m, p, payloadLen)
    ensures MachOStamp.GrowthFits(MachO.ParseImage(file).value, m, p) <==> CanAppend(file, payloadLen)
  {
    if MachOStamp.GrowthFits(MachO.ParseImage(file).value, m, p) {
      assert AppendsAs(file, payloadLen, m, p);
    }
    if n, q :| AppendsAs(file, payloadLen, n, q) {
      OnePlan(MachO.ParseImage(file).value, payloadLen, m, p, n, q);
    }
  }

  /** What cannot be stamped cannot be appended to. */
  lemma AppendingNeedsAPlan(file: seq<byte>, payloadLen: nat)
    ensures CanAppend(file, payloadLen) ==> MachOWriter.CanBeStamped(file, payloadLen)
  {
    if m, p :| AppendsAs(file, payloadLen, m, p) {
      assert MachOStamp.PlannedFor(MachO.ParseImage(file).value, m, p, payloadLen);
    }
  }

  /** The second file is the template, stamped, and it reads as what was asked for. */
  ghost predicate IsAppended(c: Codec, template: seq<byte>, header: seq<byte>, bundle: seq<byte>, file: seq<byte>)
    requires Stampable(c, header, bundle)
  {
    && MachOWriter.IsStampedFrom(template, Stamp(c, header, bundle), file)
    && exists r :: MachORead.ReadsAs(c, file, r) && ReadsMatching(c, file, r, header, bundle)
  }

  /** Appending to a Mach-O template succeeds exactly when it has a plan whose growth fits. The output is then the stamped
      template, and reads as what was written. */
  method AppendToMachO(c: Codec, template: seq<byte>, header: seq<byte>, bundle: seq<byte>) returns (output: Option<seq<byte>>)
    requires c.parses(header)
    ensures output.Some? <==> Fits(header, bundle) && CanAppend(template, |Stamp(c, header, bundle)|)
    ensures output.Some? ==> IsAppended(c, template, header, bundle, output.value)
    ensures output.Some? ==> MachOKept.Keeps(MachO.ParseImage(template).value, output.value)
    ensures output.Some? ==>
      exists r, start: nat :: MachORead.ReadsAs(c, output.value, r) && IsWritten(c, output.value, start, header, bundle, r)
  {
    if !Fits(header, bundle) { return None; }
    var file := new MachOWriter.OutputFile(template);
    var ok := file.WriteRuntimeData(c, header, bundle);
    if !ok {
      AppendingNeedsAPlan(template, |Stamp(c, header, bundle)|);
      return None;
    }
    MachOKept.StampKeepsTemplate(template, Stamp(c, header, bundle), file.bytes);
    var written := MachORead.ReadMachO(c, file.bytes);
    MachOOutcome(c, template, header, bundle, file.bytes, written);
    if !ReadsMatching(c, file.bytes, written, header, bundle) { return None; }
    StampedIsWritten(c, template, header, bundle, file.bytes, written);
    output := Some(file.bytes);
  }

  // ---------------------------------------------------------------------
  // PE
  // ---------------------------------------------------------------------

  /** The PE branch of `read_from_file`. */
  method ReadPeFile(c: Codec, file: seq<byte>) returns (r: Result<Option<RuntimeData>, ReadError>)
    ensures PeStamp.ReadsFile(c, file, r)
  {
    var img := PeHeader.ParsePe(file);
    if img.None? { return Err(BadLayout); }
    r := PeStamp.ReadPe(c, img.value);
  }

  ghost predicate ReadsAsAsked(c: Codec, file: seq<byte>, header: seq<byte>, bundle: seq<byte>) {
    exists r :: PeStamp.ReadsFile(c, file, r) && ReadsMatching(c, file, r, header, bundle)
  }

  /** The headers of the template spare the pointer to them; or it moves to other headers, which only headers that start at
      27 to 30 can bring about, and `file` reads as asked for through those. */
  ghost predicate Decides(c: Codec, h: PeImage.Headers, file: seq<byte>, header: seq<byte>, bundle: seq<byte>) {
    PeHeader.SparesPointer(h) || (27 <= h.peOffset <= 30 && ReadsAsAsked(c, file, header, bundle))
  }

  ghost predicate AppendsToPe(c: Codec, file: seq<byte>, header: seq<byte>, bundle: seq<byte>, q: PeStamp.Prepared)
    requires Stampable(c, header, bundle)
  {
    && PeStamp.IsPrepared(file, |header| + |bundle|, q)
    && Decides(c, q.img.h, PeStamp.StampedImage(c, q.img, q.plan, header, bundle).bytes, header, bundle)
  }

  /** The template has a plan, and what the plan writes is found again. */
  ghost predicate CanAppendToPe(c: Codec, file: seq<byte>, header: seq<byte>, bundle: seq<byte>)
    requires Stampable(c, header, bundle)
  {
    exists q :: AppendsToPe(c, file, header, bundle, q)
  }

  lemma StampAtMatches(c: Codec, file: seq<byte>, anchor: PeImage.Section, start: nat, header: seq<byte>, bundle: seq<byte>)
    requires Stampable(c, header, bundle) && PeStamp.StampIsAt(c, file, anchor, start, header, bundle)
    ensures Matches(c, file, Stamped(c, start, header, bundle), header, bundle)
  {
    StampedMatches(c, file, start, header, bundle);
  }

  lemma PeStampMatches(c: Codec, q: PeStamp.Prepared, header: seq<byte>, bundle: seq<byte>, file: seq<byte>)
    requires Stampable(c, header, bundle) && PeStamp.Planned(q.img, |header| + |bundle|, q.plan)
    requires file == PeStamp.StampedImage(c, q.img, q.plan, header, bundle).bytes
    ensures Matches(c, file, Stamped(c, q.plan.payloadStart, header, bundle), header, bundle)
  {
    PeStamp.StampedBytes(c, q.img, q.plan, header, bundle, []);
    assert file + [] == file;
    StampAtMatches(c, file, q.plan.anchor, q.plan.payloadStart, header, bundle);
  }

  lemma ReadsAsAskedIff(c: Codec, file: seq<byte>, header: seq<byte>, bundle: seq<byte>, r: Result<Option<RuntimeData>, ReadError>)
    requires PeStamp.ReadsFile(c, file, r)
    ensures ReadsAsAsked(c, file, header, bundle) <==> ReadsMatching(c, file, r, header, bundle)
  {
    if s :| PeStamp.ReadsFile(c, file, s) && ReadsMatching(c, file, s, header, bundle) {
      PeStamp.FileReadIsDetermined(c, file, r, s);
    }
  }

  lemma SparedIsAsked(c: Codec, q: PeStamp.Prepared, header: seq<byte>, bundle: seq<byte>, file: seq<byte>,
                      r: Result<Option<RuntimeData>, ReadError>)
    requires Stampable(c, header, bundle) && PeStamp.Planned(q.img, |header| + |bundle|, q.plan)
    requires PeHeader.ParsePe(q.img.bytes) == Some(q.img) && PeHeader.SparesPointer(q.img.h)
    requires file == PeStamp.StampedImage(c, q.img, q.plan, header, bundle).bytes && PeStamp.ReadsFile(c, file, r)
    ensures ReadsAsAsked(c, file, header, bundle)
  {
    PeStamp.FileRoundTrip(c, q.img, q.plan, header, bundle, r);
    PeStampMatches(c, q, header, bundle, file);
    assert ReadsMatching(c, file, r, header, bundle);
  }

  lemma PeStampIsWritten(c: Codec, q: PeStamp.Prepared, header: seq<byte>, bundle: seq<byte>, file: seq<byte>,
                         r: Result<Option<RuntimeData>, ReadError>)
    requires Stampable(c, header, bundle) && PeStamp.Planned(q.img, |header| + |bundle|, q.plan)
    requires file == PeStamp.StampedImage(c, q.img, q.plan, header, bundle).bytes && r == Ok(Some(Stamped(c, q.plan.payloadStart, header, bundle)))
    ensures IsWritten(c, file, q.plan.payloadStart, header, bundle, r)
  {
    PeStamp.StampedBytes(c, q.img, q.plan, header, bundle, []);
    assert file + [] == file;
  }

  /** A stamped file whose headers spare the pointer reads as what was written into it. */
  lemma SparedIsWritten(c: Codec, template: seq<byte>, header: seq<byte>, bundle: seq<byte>, file: seq<byte>, r: Result<Option<RuntimeData>, ReadError>)
    requires Stampable(c, header, bundle) && PeStamp.IsStampedFrom(c, template, header, bundle, file) && PeStamp.ReadsFile(c, file, r)
    requires PeHeader.ParsePe(template).Some? && PeHeader.SparesPointer(PeHeader.ParsePe(template).value.h)
    ensures exists start: nat :: IsWritten(c, file, start, header, bundle, r)
  {
    var q :| PeStamp.IsPrepared(template, |header| + |bundle|, q)
      && file == PeStamp.StampedImage(c, q.img, q.plan, header, bundle).bytes;
    PeStamp.FileRoundTrip(c, q.img, q.plan, header, bundle, r);
    PeStampIsWritten(c, q, header, bundle, file, r);
  }

  lemma MovedIsNotAsked(c: Codec, q: PeStamp.Prepared, header: seq<byte>, bundle: seq<byte>, file: seq<byte>)
    requires Stampable(c, header, bundle) && PeStamp.Planned(q.img, |header| + |bundle|, q.plan)
    requires PeHeader.ParsePe(q.img.bytes) == Some(q.img) && PeHeader.MovesByOne(q.img.h)
    requires file == PeStamp.StampedImage(c, q.img, q.plan, header, bundle).bytes
    ensures !ReadsAsAsked(c, file, header, bundle)
  {
    PeStamp.MovedStampIsLost(c, q.img, q.plan, header, bundle);
  }

  /** An accepted template's alignment is at least 512, so that headers at 31 spare the pointer. */
  lemma HeadersAt31(img: PeImage.Image, header: seq<byte>, bundle: seq<byte>, p: PeStamp.Plan)
    requires PeStamp.Planned(img, |header| + |bundle|, p)
    ensures PeHeader.SparesPointer(img.h) || PeHeader.MovesByOne(img.h) || 27 <= img.h.peOffset <= 30
  {
    PeImage.AlignmentIsWhole(img.h);
    PowersOf256();
    assert !PeHeader.HasBelow(img.h.fileAlignment, 1);
  }

  /** What reading a stamped PE file again decides. */
  lemma PeOutcome(c: Codec, q: PeStamp.Prepared, header: seq<byte>, bundle: seq<byte>, file: seq<byte>,
                  r: Result<Option<RuntimeData>, ReadError>)
    requires Stampable(c, header, bundle) && PeStamp.Planned(q.img, |header| + |bundle|, q.plan)
    requires PeHeader.ParsePe(q.img.bytes) == Some(q.img)
    requires file == PeStamp.StampedImage(c, q.img, q.plan, header, bundle).bytes && PeStamp.ReadsFile(c, file, r)
    ensures ReadsAsAsked(c, file, header, bundle) <==> Decides(c, q.img.h, file, header, bundle)
  {
    HeadersAt31(q.img, header, bundle, q.plan);
    if PeHeader.SparesPointer(q.img.h) {
      SparedIsAsked(c, q, header, bundle, file, r);
    } else if PeHeader.MovesByOne(q.img.h) {
      MovedIsNotAsked(c, q, header, bundle, file);
    }
  }

  /** A template has one stamped form. */
  lemma AppendsAsPrepared(c: Codec, template: seq<byte>, header: seq<byte>, bundle: seq<byte>, q: PeStamp.Prepared)
    requires Stampable(c, header, bundle) && PeStamp.IsPrepared(template, |header| + |bundle|, q)
    ensures CanAppendToPe(c, template, header, bundle)
            <==> Decides(c, q.img.h, PeStamp.StampedImage(c, q.img, q.plan, header, bundle).bytes, header, bundle)
  {
    if Decides(c, q.img.h, PeStamp.StampedImage(c, q.img, q.plan, header, bundle).bytes, header, bundle) {
      assert AppendsToPe(c, template, header, bundle, q);
    }
    forall s | AppendsToPe(c, template, header, bundle, s) ensures s == q {
    }
  }

  lemma PeOutcomes(c: Codec, template: seq<byte>, header: seq<byte>, bundle: seq<byte>, file: seq<byte>, r: Result<Option<RuntimeData>, ReadError>)
    requires Stampable(c, header, bundle) && PeStamp.IsStampedFrom(c, template, header, bundle, file) && PeStamp.ReadsFile(c, file, r)
    ensures ReadsAsAsked(c, file, header, bundle) <==> CanAppendToPe(c, template, header, bundle)
  {
    var q :| PeStamp.IsPrepared(template, |header| + |bundle|, q)
      && file == PeStamp.StampedImage(c, q.img, q.plan, header, bundle).bytes;
    PeOutcome(c, q, header, bundle, file, r);
    AppendsAsPrepared(c, template, header, bundle, q);
  }

  lemma AppendingToPeNeedsAPlan(c: Codec, file: seq<byte>, header: seq<byte>, bundle: seq<byte>)
    requires Stampable(c, header, bundle)
    ensures CanAppendToPe(c, file, header, bundle) ==> PeStamp.CanBeStamped(file, |header| + |bundle|)
  {
    if q :| AppendsToPe(c, file, header, bundle, q) {
      assert PeStamp.IsPrepared(file, |header| + |bundle|, q);
    }
  }

  /** Appending to a PE template succeeds exactly in these cases, and never leaves a file that does not read as what was
      asked for. */
  method AppendToPe(c: Codec, template: seq<byte>, header: seq<byte>, bundle: seq<byte>) returns (output: Option<seq<byte>>)
    requires c.parses(header)
    ensures output.Some? <==> Fits(header, bundle) && CanAppendToPe(c, template, header, bundle)
    ensures output.Some? ==> PeStamp.IsStampedFrom(c, template, header, bundle, output.value) && ReadsAsAsked(c, output.value, header, bundle)
    ensures output.Some? ==> PeStamp.HoldsProgram(template, output.value)
    ensures output.Some? ==> exists data :: PeStamp.ReadsFile(c, output.value, Ok(Some(data))) && data.header == header
    ensures output.Some? && PeHeader.SparesPointer(PeHeader.ParsePe(template).value.h) ==>
      exists r, start: nat :: PeStamp.ReadsFile(c, output.value, r) && IsWritten(c, output.value, start, header, bundle, r)
  {
    if !Fits(header, bundle) { return None; }
    var file := new PeStamp.OutputFile(template);
    var ok := file.WriteRuntimeData(c, header, bundle);
    if !ok {
      AppendingToPeNeedsAPlan(c, template, header, bundle);
      return None;
    }
    var written := ReadPeFile(c, file.bytes);
    PeOutcomes(c, template, header, bundle, file.bytes, written);
    ReadsAsAskedIff(c, file.bytes, header, bundle, written);
    if !ReadsMatching(c, file.bytes, written, header, bundle) { return None; }
    if PeHeader.SparesPointer(PeHeader.ParsePe(template).value.h) {
      SparedIsWritten(c, template, header, bundle, file.bytes, written);
    }
    assert PeStamp.ReadsFile(c, file.bytes, Ok(Some(written.value.value)));
    output := Some(file.bytes);
  }
}
