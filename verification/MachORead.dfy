/** Reading a stamp back from a Mach-O executable, before and after the executable is signed (`macho_footer_search_spec`
    and `read_from_file` in `src/runtime_data.rs`). */
module MachORead {
  import opened Wrappers
  import opened Bytes
  import opened RuntimeFooter
  import opened MachO
  import opened MachOEdit
  import opened MachOCheck
  import opened MachOStamp
  import opened MachOWriter

  // ---------------------------------------------------------------------
  // The reader
  // ---------------------------------------------------------------------

  /** Where the search for the footer ends: at the signature, with padding before it, or at the end of the file. */
  function SpecOf(img: Image, m: nat): SearchSpec
    requires m < |img.commands| && IsSegment(img.commands[m])
  {
    match SignatureOf(img)
    case None => SearchSpec(|img.Bytes()|, 1, FileOff(img.commands[m]))
    case Some(k) => SearchSpec(PayloadBase(img), SIGNATURE_ALIGNMENT, FileOff(img.commands[m]))
  }

  /** What reading a file returns, from the file's own bytes. */
  ghost predicate ReadsAs(c: Codec, file: seq<byte>, r: Result<Option<RuntimeData>, ReadError>) {
    match ParseImage(file)
    case None => r == Err(BadLayout)
    case Some(img) => if Accepted(img) then ReadsAccepted(c, img, r) else r == Err(BadLayout)
  }

  ghost predicate ReadsAccepted(c: Codec, img: Image, r: Result<Option<RuntimeData>, ReadError>) {
    exists m :: AcceptedAt(img, m) && SearchesAt(c, img, m, r)
  }

  ghost predicate SearchesAt(c: Codec, img: Image, m: nat, r: Result<Option<RuntimeData>, ReadError>)
    requires m < |img.commands| && IsSegment(img.commands[m])
  {
    SpecOf(img, m).dataEnd <= |img.Bytes()| && SearchResult(c, img.Bytes(), SpecOf(img, m), r)
  }

  /** The Mach-O branch of `read_from_file`. */
  method ReadMachO(c: Codec, file: seq<byte>) returns (r: Result<Option<RuntimeData>, ReadError>)
    ensures ReadsAs(c, file, r)
  {
    var parsed := ParseImage(file);
    if parsed.None? { return Err(BadLayout); }
    var found := CheckImage(file, parsed.value);
    if found.None? { return Err(BadLayout); }
    ParseIsExact(file);
    r := ReadAccepted(c, parsed.value, found.value);
  }

  method ReadAccepted(c: Codec, img: Image, m: nat) returns (r: Result<Option<RuntimeData>, ReadError>)
    requires AcceptedAt(img, m)
    ensures ReadsAccepted(c, img, r)
  {
    AcceptedFacts(img, m);
    BaseBounds(img, m);
    r := ReadWithSearchSpec(c, img.Bytes(), SpecOf(img, m));
    assert SearchesAt(c, img, m, r);
  }

  lemma ReadIsSearch(c: Codec, img: Image, m: nat, r: Result<Option<RuntimeData>, ReadError>)
    requires AcceptedAt(img, m) && ReadsAccepted(c, img, r)
    ensures SearchesAt(c, img, m, r)
  {
    var n :| AcceptedAt(img, n) && SearchesAt(c, img, n, r);
    LinkeditIsFound(img, n);
    LinkeditIsFound(img, m);
  }

  // ---------------------------------------------------------------------
  // What the reader accepts, and what it refuses
  // ---------------------------------------------------------------------

  /** Where a stamp is to be: inside `__LINKEDIT`, at the end of the file, or up to 15 bytes before its signature. */
  ghost predicate IsSearched(img: Image, m: nat, spec: SearchSpec)
    requires m < |img.commands| && IsSegment(img.commands[m])
  {
    && spec.dataEnd <= |img.Bytes()| && spec.minimumPayloadOffset == FileOff(img.commands[m])
    && (forall k {:trigger img.commands[k]} :: 0 <= k < |img.commands| && IsSignature(img.commands[k]) ==>
          spec.dataEnd == DataOff(img.commands[k]) && spec.alignment == 16)
    && ((forall k {:trigger img.commands[k]} :: 0 <= k < |img.commands| ==> !IsSignature(img.commands[k])) ==>
          spec.dataEnd == |img.Bytes()| && spec.alignment == 1)
  }

  lemma SpecIsSearched(img: Image, m: nat)
    requires AcceptedAt(img, m)
    ensures IsSearched(img, m, SpecOf(img, m))
    ensures forall spec :: IsSearched(img, m, spec) ==> spec == SpecOf(img, m)
  {
    BaseBounds(img, m);
    OneSignature(img);
  }

  ghost predicate HoldsStamp(c: Codec, img: Image, m: nat, spec: SearchSpec, padding: nat, data: RuntimeData) {
    AcceptedAt(img, m) && IsSearched(img, m, spec) && StandsAt(c, img.Bytes(), spec, padding, data)
  }

  ghost predicate HoldsNoMagic(img: Image, m: nat, spec: SearchSpec) {
    AcceptedAt(img, m) && IsSearched(img, m, spec) && HasNoMagic(img.Bytes(), spec)
  }

  /** Reading a file returns data exactly when it is an accepted executable that holds a whole stamp in that place, and nothing
      exactly when it is one without a magic there. */
  lemma ReadsMachOIff(c: Codec, file: seq<byte>, r: Result<Option<RuntimeData>, ReadError>, data: RuntimeData)
    requires ReadsAs(c, file, r)
    ensures r == Ok(Some(data))
            <==> ParseImage(file).Some? && exists m, spec, padding: nat :: HoldsStamp(c, ParseImage(file).value, m, spec, padding, data)
    ensures r == Ok(None) <==> ParseImage(file).Some? && exists m, spec :: HoldsNoMagic(ParseImage(file).value, m, spec)
  {
    if ParseImage(file).Some? && Accepted(ParseImage(file).value) {
      ReadsAcceptedIff(c, ParseImage(file).value, r, data);
    }
  }

  lemma ReadsAcceptedIff(c: Codec, img: Image, r: Result<Option<RuntimeData>, ReadError>, data: RuntimeData)
    requires ReadsAccepted(c, img, r)
    ensures r == Ok(Some(data)) <==> exists m, spec, padding: nat :: HoldsStamp(c, img, m, spec, padding, data)
    ensures r == Ok(None) <==> exists m, spec :: HoldsNoMagic(img, m, spec)
  {
    var m :| AcceptedAt(img, m) && SearchesAt(c, img, m, r);
    SpecIsSearched(img, m);
    SearchReadsIff(c, img.Bytes(), SpecOf(img, m), r, data);
    if padding: nat :| StandsAt(c, img.Bytes(), SpecOf(img, m), padding, data) {
      assert HoldsStamp(c, img, m, SpecOf(img, m), padding, data);
    }
    if HasNoMagic(img.Bytes(), SpecOf(img, m)) {
      assert HoldsNoMagic(img, m, SpecOf(img, m));
    }
    forall n | AcceptedAt(img, n) ensures n == m {
      LinkeditIsFound(img, n);
      LinkeditIsFound(img, m);
    }
  }

  /** A stamp whose header has another digest than its footer says is refused. */
  lemma OtherMachOHeaderIsRefused(c: Codec, img: Image, m: nat, file: seq<byte>, spec: SearchSpec, k: nat, start: nat, headerLen: nat,
                                  bundleLen: nat, header: seq<byte>, f: Footer, r: Result<Option<RuntimeData>, ReadError>)
    requires AcceptedAt(img, m) && ReadsAccepted(c, img, r) && file == img.Bytes() && IsSearched(img, m, spec)
    requires start + headerLen + bundleLen + FOOTER_LEN + k == spec.dataEnd && InRange(k, spec)
    requires f.headerLen == headerLen && f.bundleLen == bundleLen && file[start..start + headerLen] == header && c.sha(header) != f.headerSha
    requires var at := start + headerLen + bundleLen; file[at..at + FOOTER_LEN] == EncodeFooter(f) && AllZero(file[at + FOOTER_LEN..at + FOOTER_LEN + k])
    ensures r.Err?
  {
    ReadIsSearch(c, img, m, r);
    SpecIsSearched(img, m);
    OtherDigestIsRefused(c, file, spec, k, start, headerLen, bundleLen, header, f, r);
  }

  // ---------------------------------------------------------------------
  // The stamped file
  // ---------------------------------------------------------------------

  /** The stamped file is read as the stamped image, accepted or not. */
  lemma StampedParses(img: Image, m: nat, p: Plan, payload: seq<byte>)
    requires PlannedFor(img, m, p, |payload|) && CanStamp(img, m, p)
    ensures ParseImage(StampedImage(img, m, p, payload).Bytes()) == Some(StampedImage(img, m, p, payload))
  {
    var s := StampedImage(img, m, p, payload);
    StampedLen(img, m, p, payload);
    StampedCountsMatch(img, m, p, payload);
    forall i | 0 <= i < |s.commands| ensures WellFormed(s.commands[i]) {
      StampedIsWellFormed(img, m, p, payload, i);
    }
    CoreLen(img);
    ParseInvertsBytes(s);
  }

  lemma StampedIsWellFormed(img: Image, m: nat, p: Plan, payload: seq<byte>, i: nat)
    requires PlannedFor(img, m, p, |payload|) && CanStamp(img, m, p) && i < |StampedCommands(img, m, p)|
    ensures WellFormed(StampedCommands(img, m, p)[i])
  {
    CoreIsStructured(img, m);
    assert CommandOk(Core(img)[i]);
    if i == CoreIndex(img, m) {
      GrownKeepsTheRest(img.commands[m], p.vmSize, p.fileSize);
    }
  }

  /** The stamped table has no signature, and 16 zero bytes behind it for one. */
  lemma StampedHasSlot(img: Image, m: nat, p: Plan, payload: seq<byte>)
    requires PlannedFor(img, m, p, |payload|) && CanStamp(img, m, p)
    ensures SignatureOf(StampedImage(img, m, p, payload)) == None
    ensures SIGNATURE_COMMAND_LEN <= |KeptBody(img)| && AllZero(StampedImage(img, m, p, payload).body[..SIGNATURE_COMMAND_LEN])
  {
    var s := StampedImage(img, m, p, payload);
    forall i | 0 <= i < |s.commands| ensures RoleOf(s.commands[i]) != Signature {
      StampedIsPlacedIff(img, m, p, payload, i);
      SignatureRole(s.commands[i]);
    }
    if SignatureOf(img).None? {
      UnsignedHasSlot(img, m, p, |payload|);
    }
    SlotIsZero(img, m, p, payload);
  }

  lemma SlotIsZero(img: Image, m: nat, p: Plan, payload: seq<byte>)
    requires CanStamp(img, m, p)
    requires SignatureOf(img).None? ==> PayloadBase(img) == TableEnd(img.commands) + |img.body|
    requires SignatureOf(img).None? ==> SIGNATURE_COMMAND_LEN <= |img.body| && AllZero(img.body[..SIGNATURE_COMMAND_LEN])
    ensures SIGNATURE_COMMAND_LEN <= |KeptBody(img)| && AllZero(StampedImage(img, m, p, payload).body[..SIGNATURE_COMMAND_LEN])
  {
    var kept := img.body[..PayloadBase(img) - TableEnd(img.commands)];
    assert SignatureOf(img).None? ==> kept == img.body;
    SlotBytes(Slot(img), kept, Zeros(p.payloadOffset - PayloadBase(img)), payload);
  }

  lemma UnsignedHasSlot(img: Image, m: nat, p: Plan, payloadLen: nat)
    requires PlannedFor(img, m, p, payloadLen) && SignatureOf(img).None?
    ensures PayloadBase(img) == TableEnd(img.commands) + |img.body| && HasFreeSlot(img)
    ensures SIGNATURE_COMMAND_LEN <= |img.body| && AllZero(img.body[..SIGNATURE_COMMAND_LEN])
  {
    AcceptedFacts(img, m);
  }

  lemma SlotBytes(slot: seq<byte>, kept: seq<byte>, pad: seq<byte>, payload: seq<byte>)
    requires AllZero(slot) && (|slot| == SIGNATURE_COMMAND_LEN || (slot == [] && SIGNATURE_COMMAND_LEN <= |kept|))
    requires slot == [] ==> AllZero(kept[..SIGNATURE_COMMAND_LEN])
    ensures SIGNATURE_COMMAND_LEN <= |slot + kept| && AllZero((slot + kept + pad + payload)[..SIGNATURE_COMMAND_LEN])
  {
    var body := slot + kept + pad + payload;
    forall i | 0 <= i < SIGNATURE_COMMAND_LEN ensures body[i] == 0 {
      if slot == [] {
        assert body[i] == kept[..SIGNATURE_COMMAND_LEN][i];
      }
    }
  }

  /** The bytes in front of the payload. */
  function Front(img: Image, m: nat, p: Plan): seq<byte>
    requires CanStamp(img, m, p)
  {
    WithCounts(img.header, |Core(img)|, |Concat(Core(img))|) + Concat(StampedCommands(img, m, p))
    + KeptBody(img) + Zeros(p.payloadOffset - PayloadBase(img))
  }

  lemma StampedBytes(c: Codec, img: Image, m: nat, p: Plan, header: seq<byte>, bundle: seq<byte>)
    requires CanStamp(img, m, p) && Stampable(c, header, bundle)
    ensures StampedImage(img, m, p, Stamp(c, header, bundle)).Bytes() == PaddedStamp(c, Front(img, m, p), header, bundle, 0, [])
  {
  }

  /** The stamped file reads as what was written exactly when the growth fits, and is refused otherwise. */
  lemma StampReadsBackIff(c: Codec, img: Image, m: nat, p: Plan, header: seq<byte>, bundle: seq<byte>,
                          r: Result<Option<RuntimeData>, ReadError>)
    requires Stampable(c, header, bundle) && PlannedFor(img, m, p, |Stamp(c, header, bundle)|) && CanStamp(img, m, p)
    requires ReadsAs(c, StampedImage(img, m, p, Stamp(c, header, bundle)).Bytes(), r)
    ensures r == if GrowthFits(img, m, p) then Ok(Some(Stamped(c, p.payloadOffset, header, bundle))) else Err(BadLayout)
  {
    var payload := Stamp(c, header, bundle);
    var s := StampedImage(img, m, p, payload);
    StampedParses(img, m, p, payload);
    StampedIsAcceptedIff(img, m, p, payload);
    if GrowthFits(img, m, p) {
      ReadIsSearch(c, s, CoreIndex(img, m), r);
      StampedSpec(img, m, p, payload);
      StampedIsFound(c, img, m, p, header, bundle, r);
    }
  }

  lemma StampedSpec(img: Image, m: nat, p: Plan, payload: seq<byte>)
    requires PlannedFor(img, m, p, |payload|) && CanStamp(img, m, p)
    ensures var s, n := StampedImage(img, m, p, payload), CoreIndex(img, m);
            && n < |s.commands| && IsSegment(s.commands[n])
            && SpecOf(s, n) == SearchSpec(p.payloadEnd, 1, FileOff(img.commands[m]))
  {
    StampedHasSlot(img, m, p, payload);
    StampedFinalOk(img, m, p, payload);
    StampedLen(img, m, p, payload);
  }

  lemma StampedIsFound(c: Codec, img: Image, m: nat, p: Plan, header: seq<byte>, bundle: seq<byte>,
                       r: Result<Option<RuntimeData>, ReadError>)
    requires Stampable(c, header, bundle) && PlannedFor(img, m, p, |Stamp(c, header, bundle)|) && CanStamp(img, m, p)
    requires var file := StampedImage(img, m, p, Stamp(c, header, bundle)).Bytes();
             p.payloadEnd <= |file| && SearchResult(c, file, SearchSpec(p.payloadEnd, 1, FileOff(img.commands[m])), r)
    ensures r == Ok(Some(Stamped(c, p.payloadOffset, header, bundle)))
  {
    PlanBounds(img, m, p, |Stamp(c, header, bundle)|);
    BaseBounds(img, m);
    StampedLen(img, m, p, Stamp(c, header, bundle));
    StampedBytes(c, img, m, p, header, bundle);
    FrontLen(c, img, m, p, header, bundle);
    StampIsFound(c, Front(img, m, p), header, bundle, 0, [], SearchSpec(p.payloadEnd, 1, FileOff(img.commands[m])), r);
  }

  lemma FrontLen(c: Codec, img: Image, m: nat, p: Plan, header: seq<byte>, bundle: seq<byte>)
    requires Stampable(c, header, bundle) && PlannedFor(img, m, p, |Stamp(c, header, bundle)|) && CanStamp(img, m, p)
    ensures |Front(img, m, p)| == p.payloadOffset
  {
    StampedLen(img, m, p, Stamp(c, header, bundle));
    StampedBytes(c, img, m, p, header, bundle);
    PlanBounds(img, m, p, |Stamp(c, header, bundle)|);
  }
}
