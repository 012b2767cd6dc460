/** Stamp a Mach-O executable, sign the result, and read it: what comes back, and when. */
module MachORoundTrip {
  import opened Wrappers
  import opened Bytes
  import opened RuntimeFooter
  import opened MachO
  import opened MachOEdit
  import opened MachOStamp
  import opened MachORead
  import opened MachOSign

  /** The stamped image, signed. */
  function SignedStamp(img: Image, m: nat, p: Plan, payload: seq<byte>, vmSize: u64, signature: seq<byte>): Image
    requires CanStamp(img, m, p) && CanSign(StampedImage(img, m, p, payload), CoreIndex(img, m), vmSize, signature)
  {
    SignMachO(StampedImage(img, m, p, payload), CoreIndex(img, m), vmSize, signature)
  }

  // ---------------------------------------------------------------------
  // The bytes of a signed stamp
  // ---------------------------------------------------------------------

  /** What stands in front of the payload of a signed stamp. */
  function SignedFront(img: Image, m: nat, p: Plan, payload: seq<byte>, vmSize: u64, signature: seq<byte>): seq<byte>
    requires CanStamp(img, m, p) && CanSign(StampedImage(img, m, p, payload), CoreIndex(img, m), vmSize, signature)
    requires SIGNATURE_COMMAND_LEN <= |KeptBody(img)|
  {
    var t := SignedStamp(img, m, p, payload, vmSize, signature);
    t.header + Concat(t.commands) + (KeptBody(img) + Zeros(p.payloadOffset - PayloadBase(img)))[SIGNATURE_COMMAND_LEN..]
  }

  lemma SignedBody(kept: seq<byte>, gap: seq<byte>, payload: seq<byte>, pad: seq<byte>, signature: seq<byte>, front: seq<byte>)
    requires SIGNATURE_COMMAND_LEN <= |kept|
    ensures front + ((kept + gap + payload)[SIGNATURE_COMMAND_LEN..] + pad + signature)
            == (front + (kept + gap)[SIGNATURE_COMMAND_LEN..]) + payload + pad + signature
  {
    assert (kept + gap + payload)[SIGNATURE_COMMAND_LEN..] == (kept + gap)[SIGNATURE_COMMAND_LEN..] + payload;
  }

  lemma SignedBytes(c: Codec, img: Image, m: nat, p: Plan, header: seq<byte>, bundle: seq<byte>, vmSize: u64, signature: seq<byte>)
    requires Stampable(c, header, bundle) && CanStamp(img, m, p) && SIGNATURE_COMMAND_LEN <= |KeptBody(img)|
    requires CanSign(StampedImage(img, m, p, Stamp(c, header, bundle)), CoreIndex(img, m), vmSize, signature)
    ensures var payload := Stamp(c, header, bundle);
            var s := StampedImage(img, m, p, payload);
            SignedStamp(img, m, p, payload, vmSize, signature).Bytes()
            == PaddedStamp(c, SignedFront(img, m, p, payload, vmSize, signature), header, bundle,
                           SignatureOffset(s) - |s.Bytes()|, signature)
  {
    var payload := Stamp(c, header, bundle);
    var s, t := StampedImage(img, m, p, payload), SignedStamp(img, m, p, payload, vmSize, signature);
    SignedBody(KeptBody(img), Zeros(p.payloadOffset - PayloadBase(img)), payload, Zeros(SignatureOffset(s) - |s.Bytes()|),
               signature, t.header + Concat(t.commands));
  }

  lemma SignedFrontLen(img: Image, m: nat, p: Plan, payload: seq<byte>, vmSize: u64, signature: seq<byte>)
    requires CanStamp(img, m, p) && CanSign(StampedImage(img, m, p, payload), CoreIndex(img, m), vmSize, signature)
    requires SIGNATURE_COMMAND_LEN <= |KeptBody(img)|
    requires |StampedImage(img, m, p, payload).Bytes()| == p.payloadOffset + |payload|
    ensures |SignedFront(img, m, p, payload, vmSize, signature)| == p.payloadOffset
  {
    var s, n := StampedImage(img, m, p, payload), CoreIndex(img, m);
    WithSignatureLen(s.commands, n, SigningFor(s, n, vmSize, signature));
  }

  // ---------------------------------------------------------------------
  // Parsing and searching
  // ---------------------------------------------------------------------

  lemma LongTableIsRefused(img: Image)
    requires CountsMatch(img) && |Concat(img.commands)| > MAX_TABLE_LEN
    ensures ParseImage(img.Bytes()) == None
  {
    var file := img.Bytes();
    assert file[20..24] == img.header[20..24];
  }

  lemma SignedIsWellFormed(cs: seq<Command>, n: nat, z: Signing, i: nat)
    requires AllOk(cs) && n < |cs| && IsLinkedit(cs[n]) && |cs[n]| == SEGMENT_COMMAND_LEN && i <= |cs|
    ensures WellFormed(WithSignature(cs, n, z)[i])
  {
    WithSignatureAt(cs, n, z, i);
    assert CommandOk(cs[n]);
    SignatureFields(z.offset, z.size);
    GrownKeepsTheRest(cs[n], z.vmSize, z.fileSize);
    assert i < |cs| ==> CommandOk(cs[i]);
  }

  /** The signed file parses into the signed image, unless its table is longer than the reader allows. */
  lemma SignedParses(s: Image, n: nat, vmSize: u64, signature: seq<byte>)
    requires AcceptedAt(s, n) && CanSign(s, n, vmSize, signature)
    ensures var t := SignMachO(s, n, vmSize, signature);
            ParseImage(t.Bytes()) == if |Concat(s.commands)| + SIGNATURE_COMMAND_LEN <= MAX_TABLE_LEN then Some(t) else None
  {
    var t, z := SignMachO(s, n, vmSize, signature), SigningFor(s, n, vmSize, signature);
    AcceptedHeader(s, n);
    SignedCounts(s, n, vmSize, signature);
    if |Concat(s.commands)| + SIGNATURE_COMMAND_LEN <= MAX_TABLE_LEN {
      forall i | 0 <= i < |t.commands| ensures WellFormed(t.commands[i]) {
        SignedIsWellFormed(s.commands, n, z, i);
      }
      ParseInvertsBytes(t);
    } else {
      LongTableIsRefused(t);
    }
  }

  lemma SignedCounts(s: Image, n: nat, vmSize: u64, signature: seq<byte>)
    requires CanSign(s, n, vmSize, signature) && 8 * |s.commands| <= |Concat(s.commands)| <= MAX_TABLE_LEN
    ensures var t := SignMachO(s, n, vmSize, signature);
            CountsMatch(t) && |Concat(t.commands)| == |Concat(s.commands)| + SIGNATURE_COMMAND_LEN
  {
    WithSignatureLen(s.commands, n, SigningFor(s, n, vmSize, signature));
    WithCountsFacts(s.header, |s.commands| + 1, |Concat(s.commands)| + SIGNATURE_COMMAND_LEN);
  }

  /** The search ends at the signature, with up to 15 bytes of padding before it. */
  lemma SignedSpec(s: Image, n: nat, vmSize: u64, signature: seq<byte>)
    requires CanSign(s, n, vmSize, signature) && AllOk(s.commands)
    ensures var t := SignMachO(s, n, vmSize, signature);
            && IsLinkedit(t.commands[n])
            && SpecOf(t, n) == SearchSpec(SignatureOffset(s), SIGNATURE_ALIGNMENT, FileOff(s.commands[n]))
  {
    var z := SigningFor(s, n, vmSize, signature);
    WithSignatureAt(s.commands, n, z, |s.commands|);
    WithSignatureAt(s.commands, n, z, n);
    SignatureFields(z.offset, z.size);
    assert CommandOk(s.commands[n]);
    GrownKeepsTheRest(s.commands[n], vmSize, z.fileSize);
  }

  // ---------------------------------------------------------------------
  // The round trip
  // ---------------------------------------------------------------------

  /** A stamp that is then signed reads as what was written exactly when the signing fits, and is refused otherwise. */
  lemma SignedStampReadsBackIff(c: Codec, img: Image, m: nat, p: Plan, header: seq<byte>, bundle: seq<byte>, vmSize: u64,
                                signature: seq<byte>, r: Result<Option<RuntimeData>, ReadError>)
    requires Stampable(c, header, bundle) && PlannedFor(img, m, p, |Stamp(c, header, bundle)|) && CanStamp(img, m, p)
    requires GrowthFits(img, m, p)
    requires CanSign(StampedImage(img, m, p, Stamp(c, header, bundle)), CoreIndex(img, m), vmSize, signature)
    requires ReadsAs(c, SignedStamp(img, m, p, Stamp(c, header, bundle), vmSize, signature).Bytes(), r)
    ensures r == if SigningFits(StampedCommands(img, m, p), CoreIndex(img, m), vmSize)
                 then Ok(Some(Stamped(c, p.payloadOffset, header, bundle))) else Err(BadLayout)
  {
    var payload := Stamp(c, header, bundle);
    var s, n := StampedImage(img, m, p, payload), CoreIndex(img, m);
    StampedIsAcceptedIff(img, m, p, payload);
    StampedHasSlot(img, m, p, payload);
    SignedParses(s, n, vmSize, signature);
    SignedIsAcceptedIff(s, n, vmSize, signature);
    if SigningFits(s.commands, n, vmSize) {
      ReadIsSearch(c, SignedStamp(img, m, p, payload, vmSize, signature), n, r);
      SignedSpec(s, n, vmSize, signature);
      StampedSpec(img, m, p, payload);
      StampedLen(img, m, p, payload);
      SignedStampIsFound(c, img, m, p, header, bundle, vmSize, signature, r);
    }
  }

  lemma SignedStampIsFound(c: Codec, img: Image, m: nat, p: Plan, header: seq<byte>, bundle: seq<byte>, vmSize: u64,
                           signature: seq<byte>, r: Result<Option<RuntimeData>, ReadError>)
    requires Stampable(c, header, bundle) && PlannedFor(img, m, p, |Stamp(c, header, bundle)|) && CanStamp(img, m, p)
    requires SIGNATURE_COMMAND_LEN <= |KeptBody(img)|
    requires CanSign(StampedImage(img, m, p, Stamp(c, header, bundle)), CoreIndex(img, m), vmSize, signature)
    requires var s := StampedImage(img, m, p, Stamp(c, header, bundle));
             var file := SignedStamp(img, m, p, Stamp(c, header, bundle), vmSize, signature).Bytes();
             var spec := SearchSpec(SignatureOffset(s), SIGNATURE_ALIGNMENT, FileOff(img.commands[m]));
             spec.dataEnd <= |file| && SearchResult(c, file, spec, r)
    ensures r == Ok(Some(Stamped(c, p.payloadOffset, header, bundle)))
  {
    var payload := Stamp(c, header, bundle);
    var s := StampedImage(img, m, p, payload);
    PlanBounds(img, m, p, |payload|);
    BaseBounds(img, m);
    StampedLen(img, m, p, payload);
    SignedFrontLen(img, m, p, payload, vmSize, signature);
    SignedBytes(c, img, m, p, header, bundle, vmSize, signature);
    StampIsFound(c, SignedFront(img, m, p, payload, vmSize, signature), header, bundle, SignatureOffset(s) - |s.Bytes()|, signature,
                 SearchSpec(SignatureOffset(s), SIGNATURE_ALIGNMENT, FileOff(img.commands[m])), r);
  }

  // ---------------------------------------------------------------------
  // Signing again
  // ---------------------------------------------------------------------

  lemma PlacedStartsAfter(c: Command, end: nat, fileLen: nat)
    requires CommandOk(c) && Placed(c, end, fileLen)
    ensures StartsAfter(c, end)
  {
  }

  lemma StampedStartsAfter(img: Image, m: nat, p: Plan, i: nat)
    requires AcceptedAt(img, m) && CanStamp(img, m, p) && i < |StampedCommands(img, m, p)|
    ensures StartsAfter(StampedCommands(img, m, p)[i], TableEnd(img.commands))
  {
    CoreIsStructured(img, m);
    CoreAt(img, i);
    var c := img.commands[SourceIndex(img, i)];
    assert CommandOk(c) && Placed(c, TableEnd(img.commands), |img.Bytes()|);
    PlacedStartsAfter(c, TableEnd(img.commands), |img.Bytes()|);
    if i == CoreIndex(img, m) {
      GrownStartsAfter(img.commands[m], p.vmSize, p.fileSize, TableEnd(img.commands));
    }
  }

  lemma GrownStartsAfter(c: Command, vmSize: u64, fileSize: u64, end: nat)
    requires CommandOk(c) && IsLinkedit(c)
    ensures |c| == SEGMENT_COMMAND_LEN && StartsAfter(Grown(c, vmSize, fileSize), end)
  {
    GrownKeepsTheRest(c, vmSize, fileSize);
  }

  lemma StampedAddressesFitIff(img: Image, m: nat, p: Plan, vmSize: nat)
    requires AcceptedAt(img, m) && CanStamp(img, m, p) && AddressesFit(img.commands, m, p.vmSize)
    ensures var cs, n := StampedCommands(img, m, p), CoreIndex(img, m);
            IsLinkedit(cs[n]) && (AddressesFit(cs, n, vmSize) <==> VmAddr(img.commands[m]) + vmSize < U64_END)
  {
    var cs, n := StampedCommands(img, m, p), CoreIndex(img, m);
    CoreIsStructured(img, m);
    CoreAddressesFitIff(img, m, p.vmSize);
    assert CommandOk(img.commands[m]);
    GrownKeepsTheRest(img.commands[m], p.vmSize, p.fileSize);
    forall i | 0 <= i < |cs| && i != n ensures EndsBelow(cs[i], cs[n]) {
      assert EndsBelow(Core(img)[i], Core(img)[n]);
    }
  }

  /** A template that was signed has room for its new signature: it then fits as soon as its addresses do not overflow. */
  lemma SigningAgainFitsIff(img: Image, m: nat, p: Plan, payload: seq<byte>, vmSize: nat)
    requires PlannedFor(img, m, p, |payload|) && CanStamp(img, m, p) && GrowthFits(img, m, p) && SignatureOf(img).Some?
    ensures var cs, n := StampedCommands(img, m, p), CoreIndex(img, m);
            IsLinkedit(cs[n]) && (SigningFits(cs, n, vmSize) <==> VmAddr(img.commands[m]) + vmSize < U64_END)
  {
    var cs, n := StampedCommands(img, m, p), CoreIndex(img, m);
    CoreLen(img);
    StampedLen(img, m, p, payload);
    StampedFinalOk(img, m, p, payload);
    BaseBounds(img, m);
    forall i | 0 <= i < |cs| ensures StartsAfter(cs[i], TableEnd(img.commands)) {
      StampedStartsAfter(img, m, p, i);
    }
    StampedAddressesFitIff(img, m, p, vmSize);
  }
}
