/** Signing a Mach-O executable that has been stamped: when the signed file is accepted, and what it reads as. */
module MachOSign {
  import opened Wrappers
  import opened Bytes
  import opened RuntimeFooter
  import opened MachO
  import opened MachOEdit
  import opened MachOStamp
  import opened MachORead

  /** A signature of `size` bytes at `offset`, and the `__LINKEDIT` segment that ends with it. */
  datatype Signing = Signing(start: nat, offset: u32, size: u32, end: nat, vmSize: u64, fileSize: u64)

  /** The signing fits the `__LINKEDIT` command of a file of `fileLen` bytes. */
  ghost predicate SigningOf(z: Signing, c: Command, fileLen: nat) {
    && IsLinkedit(c) && |c| == SEGMENT_COMMAND_LEN
    && z.start == FileOff(c) && z.end == z.offset + z.size == z.start + z.fileSize && z.fileSize <= z.vmSize
    && 0 < z.size && z.start < z.offset && fileLen <= z.offset && z.offset % SIGNATURE_ALIGNMENT == 0
  }

  /** Where a signing tool puts the signature. */
  function SignatureOffset(s: Image): nat {
    AlignUp(|s.Bytes()|, SIGNATURE_ALIGNMENT)
  }

  /** What a tool can sign: there is room for its command, and the 32 bits of the fields suffice. */
  predicate CanSign(s: Image, n: nat, vmSize: u64, signature: seq<byte>) {
    && |s.header| == HEADER_LEN && SIGNATURE_COMMAND_LEN <= |s.body| && n < |s.commands| && IsLinkedit(s.commands[n])
    && |s.commands[n]| == SEGMENT_COMMAND_LEN
    && 0 < |signature| && SignatureOffset(s) + |signature| < U32_END && FileOff(s.commands[n]) < SignatureOffset(s)
    && SignatureOffset(s) + |signature| - FileOff(s.commands[n]) <= vmSize
  }

  function SigningFor(s: Image, n: nat, vmSize: u64, signature: seq<byte>): (z: Signing)
    requires CanSign(s, n, vmSize, signature)
    ensures SigningOf(z, s.commands[n], |s.Bytes()|)
  {
    var start, offset, end := FileOff(s.commands[n]), SignatureOffset(s), SignatureOffset(s) + |signature|;
    Signing(start, offset, |signature|, end, vmSize, end - start)
  }

  /** The table with a grown `__LINKEDIT` and a signature command. */
  function WithSignature(cs: seq<Command>, n: nat, z: Signing): seq<Command>
    requires n < |cs| && |cs[n]| == SEGMENT_COMMAND_LEN
  {
    GrownAt(cs, n, z.vmSize, z.fileSize) + [SignatureCommand(z.offset, z.size)]
  }

  /** Signing writes a command into the slot behind the table, pads the file and appends the signature, and grows
      `__LINKEDIT` over it, in memory to a size of the tool's choice. */
  function SignMachO(s: Image, n: nat, vmSize: u64, signature: seq<byte>): Image
    requires CanSign(s, n, vmSize, signature)
  {
    Image(WithCounts(s.header, |s.commands| + 1, |Concat(s.commands)| + SIGNATURE_COMMAND_LEN),
          WithSignature(s.commands, n, SigningFor(s, n, vmSize, signature)),
          s.body[SIGNATURE_COMMAND_LEN..] + Zeros(SignatureOffset(s) - |s.Bytes()|) + signature)
  }

  /** Nothing starts before `end` that the load commands could run into. */
  predicate StartsAfter(c: Command, end: nat) {
    HasSections(c) ==>
      && (IsText(c) ==> end <= FileEnd(c))
      && forall j :: 0 <= j < SectionCount(c) && SectionAt(c, j).InFile() ==>
           SectionAt(c, j).offset != 0 ==> end <= SectionAt(c, j).offset
  }

  predicate AllStartAfter(cs: seq<Command>, end: nat) {
    forall i {:trigger StartsAfter(cs[i], end)} :: 0 <= i < |cs| ==> StartsAfter(cs[i], end)
  }

  /** What an accepted table does not promise of its signed form: room for the command, and addresses for the signature. */
  ghost predicate SigningFits(cs: seq<Command>, n: nat, vmSize: nat)
    requires n < |cs| && IsSegment(cs[n])
  {
    && |Concat(cs)| + SIGNATURE_COMMAND_LEN <= MAX_TABLE_LEN
    && TableEnd(cs) + SIGNATURE_COMMAND_LEN <= FileOff(cs[n])
    && AllStartAfter(cs, TableEnd(cs) + SIGNATURE_COMMAND_LEN)
    && AddressesFit(cs, n, vmSize)
  }

  predicate Unsigned(cs: seq<Command>) {
    forall i {:trigger RoleOf(cs[i])} :: 0 <= i < |cs| ==> RoleOf(cs[i]) != Signature
  }

  // ---------------------------------------------------------------------
  // One command of the signed table
  // ---------------------------------------------------------------------

  lemma WithSignatureAt(cs: seq<Command>, n: nat, z: Signing, i: nat)
    requires n < |cs| && |cs[n]| == SEGMENT_COMMAND_LEN && i <= |cs|
    ensures WithSignature(cs, n, z)[i]
            == if i == |cs| then SignatureCommand(z.offset, z.size) else if i == n then Grown(cs[n], z.vmSize, z.fileSize) else cs[i]
  {
  }

  lemma StartsAfterIff(c: Command, end: nat, fileLen: nat, end': nat, fileLen': nat)
    requires CommandOk(c) && Placed(c, end, fileLen) && fileLen <= fileLen'
    ensures Placed(c, end', fileLen') <==> StartsAfter(c, end')
  {
  }

  lemma LinkeditStartsAfter(c: Command, end: nat)
    requires CommandOk(c) && IsLinkedit(c)
    ensures StartsAfter(c, end)
  {
    NotBoth(c);
  }

  lemma SignedIsPlacedIff(cs: seq<Command>, n: nat, z: Signing, fileLen: nat, tableEnd: nat, i: nat)
    requires AllOk(cs) && AllPlaced(cs, fileLen) && n < |cs| && SigningOf(z, cs[n], fileLen) && i < |cs|
    ensures Placed(WithSignature(cs, n, z)[i], tableEnd, z.end) <==> StartsAfter(cs[i], tableEnd)
  {
    WithSignatureAt(cs, n, z, i);
    assert CommandOk(cs[n]) && CommandOk(cs[i]) && Placed(cs[i], TableEnd(cs), fileLen);
    if i == n {
      GrownIsPlaced(cs[n], z.vmSize, z.fileSize, tableEnd, z.end);
      LinkeditStartsAfter(cs[n], tableEnd);
    } else {
      StartsAfterIff(cs[i], TableEnd(cs), fileLen, tableEnd, z.end);
    }
  }

  lemma CoveredWider(c: Command, start: nat, end: nat, start': nat, end': nat)
    requires Covered(c, start, end) && start' <= start && end <= end'
    ensures Covered(c, start', end')
  {
  }

  lemma SignedIsCovered(cs: seq<Command>, n: nat, z: Signing, fileLen: nat, start: nat, end: nat, i: nat)
    requires AllOk(cs) && n < |cs| && SigningOf(z, cs[n], fileLen) && AllCovered(cs, z.start, fileLen)
    requires i <= |cs| && start <= z.start && fileLen <= end
    ensures Covered(WithSignature(cs, n, z)[i], start, end)
  {
    WithSignatureAt(cs, n, z, i);
    assert CommandOk(cs[n]);
    if i == |cs| {
      SignatureFields(z.offset, z.size);
      SignatureRefersToNothing(SignatureCommand(z.offset, z.size), start, end);
    } else if i == n {
      GrownIsCovered(cs[n], z.vmSize, z.fileSize, start, end);
    } else {
      CoveredWider(cs[i], z.start, fileLen, start, end);
    }
  }

  lemma SignedIsBelow(cs: seq<Command>, n: nat, z: Signing, fileLen: nat, i: nat)
    requires AllOk(cs) && n < |cs| && SigningOf(z, cs[n], fileLen) && AllBelow(cs, cs[n]) && i <= |cs|
    ensures IsBelow(WithSignature(cs, n, z)[i], cs[n])
  {
    WithSignatureAt(cs, n, z, i);
    assert CommandOk(cs[n]);
    SignatureFields(z.offset, z.size);
    GrownKeepsTheRest(cs[n], z.vmSize, z.fileSize);
    assert i < |cs| ==> IsBelow(cs[i], cs[n]);
  }

  /** The signature command is the last one and the only one. */
  lemma OnlySignature(cs: seq<Command>, n: nat, z: Signing, fileLen: nat, i: nat)
    requires AllOk(cs) && Unsigned(cs) && n < |cs| && SigningOf(z, cs[n], fileLen) && i <= |cs|
    ensures RoleOf(WithSignature(cs, n, z)[i]) == Signature <==> i == |cs|
    ensures IsSignature(WithSignature(cs, n, z)[i]) <==> i == |cs|
  {
    WithSignatureAt(cs, n, z, i);
    assert CommandOk(cs[n]);
    GrownRole(cs[n], z.vmSize, z.fileSize);
    SignatureFields(z.offset, z.size);
    SignatureRole(WithSignature(cs, n, z)[i]);
    assert i < |cs| ==> RoleOf(cs[i]) != Signature;
  }

  // ---------------------------------------------------------------------
  // The checks on the signed table
  // ---------------------------------------------------------------------

  /** What an unsigned accepted table promises. */
  ghost predicate Signable(cs: seq<Command>, n: nat, z: Signing, fileLen: nat) {
    && Structured(cs) && Unsigned(cs) && AllPlaced(cs, fileLen) && n < |cs| && SigningOf(z, cs[n], fileLen)
    && AllCovered(cs, z.start, fileLen) && AllBelow(cs, cs[n]) && CanGrow(cs, n, z.vmSize, z.fileSize)
  }

  lemma WithSignatureLen(cs: seq<Command>, n: nat, z: Signing)
    requires n < |cs| && |cs[n]| == SEGMENT_COMMAND_LEN
    ensures TableEnd(WithSignature(cs, n, z)) == TableEnd(cs) + SIGNATURE_COMMAND_LEN
  {
    GrownTableLen(cs, n, z.vmSize, z.fileSize);
    ConcatAppends(GrownAt(cs, n, z.vmSize, z.fileSize), [SignatureCommand(z.offset, z.size)]);
    ConcatOne(SignatureCommand(z.offset, z.size));
  }

  lemma SignedPlacedIff(cs: seq<Command>, n: nat, z: Signing, fileLen: nat, tableEnd: nat)
    requires Signable(cs, n, z, fileLen) && tableEnd == TableEnd(WithSignature(cs, n, z))
    ensures AllPlaced(WithSignature(cs, n, z), z.end) <==> AllStartAfter(cs, tableEnd)
  {
    var signed := WithSignature(cs, n, z);
    forall i | 0 <= i < |cs| ensures Placed(signed[i], tableEnd, z.end) <==> StartsAfter(cs[i], tableEnd) {
      SignedIsPlacedIff(cs, n, z, fileLen, tableEnd, i);
    }
    SignatureFields(z.offset, z.size);
  }

  lemma SignedCovered(cs: seq<Command>, n: nat, z: Signing, fileLen: nat, start: nat, end: nat)
    requires Signable(cs, n, z, fileLen) && start <= z.start && fileLen <= end
    ensures AllCovered(WithSignature(cs, n, z), start, end)
  {
    forall i | 0 <= i < |WithSignature(cs, n, z)| ensures Covered(WithSignature(cs, n, z)[i], start, end) {
      SignedIsCovered(cs, n, z, fileLen, start, end, i);
    }
  }

  lemma SignedLinkedit(cs: seq<Command>, n: nat, z: Signing, fileLen: nat)
    requires Signable(cs, n, z, fileLen)
    ensures var c := WithSignature(cs, n, z)[n];
            IsLinkedit(c) && FileOff(c) == z.start && VmAddr(c) == VmAddr(cs[n]) && FileEnd(c) == z.end
  {
    assert CommandOk(cs[n]);
    GrownKeepsTheRest(cs[n], z.vmSize, z.fileSize);
  }

  lemma SignedBelow(cs: seq<Command>, n: nat, z: Signing, fileLen: nat)
    requires Signable(cs, n, z, fileLen) && IsLinkedit(WithSignature(cs, n, z)[n])
    ensures AllBelow(WithSignature(cs, n, z), WithSignature(cs, n, z)[n])
  {
    var signed := WithSignature(cs, n, z);
    SignedLinkedit(cs, n, z, fileLen);
    forall i | 0 <= i < |signed| ensures IsBelow(signed[i], signed[n]) {
      SignedIsBelow(cs, n, z, fileLen, i);
    }
  }

  lemma SignedSignature(cs: seq<Command>, n: nat, z: Signing, fileLen: nat, tableEnd: nat)
    requires Signable(cs, n, z, fileLen) && tableEnd == TableEnd(WithSignature(cs, n, z)) <= z.start
    ensures var signed := WithSignature(cs, n, z);
            IsLinkedit(signed[n]) && forall k :: 0 <= k < |signed| && IsSignature(signed[k]) ==> SignatureOk(signed, z.end, n, k)
  {
    var signed := WithSignature(cs, n, z);
    SignedLinkedit(cs, n, z, fileLen);
    SignedCovered(cs, n, z, fileLen, 0, z.offset);
    SignatureFields(z.offset, z.size);
    forall k | 0 <= k < |signed| && IsSignature(signed[k]) ensures SignatureOk(signed, z.end, n, k) {
      OnlySignature(cs, n, z, fileLen, k);
    }
  }

  lemma SignedFinalIff(cs: seq<Command>, n: nat, z: Signing, fileLen: nat, tableEnd: nat)
    requires Signable(cs, n, z, fileLen) && tableEnd == TableEnd(WithSignature(cs, n, z))
    ensures IsLinkedit(WithSignature(cs, n, z)[n])
    ensures FinalOk(WithSignature(cs, n, z), z.end, n) <==> tableEnd <= z.start
  {
    SignedLinkedit(cs, n, z, fileLen);
    SignedBelow(cs, n, z, fileLen);
    if tableEnd <= z.start {
      SignedSignature(cs, n, z, fileLen, tableEnd);
    }
  }

  lemma SignedStructuredIff(cs: seq<Command>, n: nat, z: Signing, fileLen: nat)
    requires Signable(cs, n, z, fileLen)
    ensures Structured(WithSignature(cs, n, z)) <==> AddressesFit(cs, n, z.vmSize)
  {
    var grown, c := GrownAt(cs, n, z.vmSize, z.fileSize), SignatureCommand(z.offset, z.size);
    SignatureFields(z.offset, z.size);
    forall i | 0 <= i < |cs| ensures RoleOf(grown[i]) != Signature {
      OnlySignature(cs, n, z, fileLen, i);
      assert grown[i] == WithSignature(cs, n, z)[i];
    }
    if AddressesFit(cs, n, z.vmSize) {
      GrowKeepsStructureIff(cs, n, z.vmSize, z.fileSize);
      AppendKeepsStructure(grown, c);
    } else if Structured(WithSignature(cs, n, z)) {
      PrefixIsStructured(grown, c);
      StructuredGrowthFits(cs, n, z.vmSize, z.fileSize);
    }
  }

  /** The checks on the signed table that can fail. */
  ghost predicate TableOk(cs: seq<Command>, fileLen: nat, n: nat)
    requires n < |cs| && IsSegment(cs[n])
  {
    |Concat(cs)| <= MAX_TABLE_LEN && Structured(cs) && AllPlaced(cs, fileLen) && FinalOk(cs, fileLen, n)
  }

  lemma TableOkIff(cs: seq<Command>, n: nat, z: Signing, fileLen: nat)
    requires Signable(cs, n, z, fileLen)
    ensures IsLinkedit(WithSignature(cs, n, z)[n])
    ensures TableOk(WithSignature(cs, n, z), z.end, n) <==> SigningFits(cs, n, z.vmSize)
  {
    var tableEnd: nat := TableEnd(WithSignature(cs, n, z));
    WithSignatureLen(cs, n, z);
    SignedStructuredIff(cs, n, z, fileLen);
    SignedPlacedIff(cs, n, z, fileLen, tableEnd);
    SignedFinalIff(cs, n, z, fileLen, tableEnd);
  }

  // ---------------------------------------------------------------------
  // When the signed image is accepted
  // ---------------------------------------------------------------------

  lemma AcceptedIsSignable(s: Image, n: nat, z: Signing)
    requires AcceptedAt(s, n) && SignatureOf(s).None? && SigningOf(z, s.commands[n], |s.Bytes()|)
    ensures Signable(s.commands, n, z, |s.Bytes()|)
  {
    forall i | 0 <= i < |s.commands| && i != n ensures EndsBefore(s.commands[i], s.commands[n]) {
      OthersEndBefore(s, n, i);
    }
    assert CommandOk(s.commands[n]);
  }

  lemma AcceptedHeader(s: Image, n: nat)
    requires AcceptedAt(s, n)
    ensures HeaderOk(s.header) && TableEnd(s.commands) <= |s.Bytes()| && 8 * |s.commands| <= |Concat(s.commands)| <= MAX_TABLE_LEN
  {
    OkCountFits(s.commands);
  }

  lemma SignedHeader(s: Image, n: nat, vmSize: u64, signature: seq<byte>)
    requires CanSign(s, n, vmSize, signature) && HeaderOk(s.header) && 8 * |s.commands| <= |Concat(s.commands)| <= MAX_TABLE_LEN
    requires TableEnd(s.commands) + SIGNATURE_COMMAND_LEN <= |s.Bytes()|
    ensures var t := SignMachO(s, n, vmSize, signature);
            HeaderOk(t.header) && CountsMatch(t) && TableEnd(t.commands) <= |t.Bytes()| == SignatureOffset(s) + |signature|
  {
    WithSignatureLen(s.commands, n, SigningFor(s, n, vmSize, signature));
    WithCountsFacts(s.header, |s.commands| + 1, |Concat(s.commands)| + SIGNATURE_COMMAND_LEN);
  }

  lemma SameLinkedit(cs: seq<Command>, n: nat, k: nat)
    requires AllCompatible(cs) && n < |cs| && k < |cs| && IsLinkedit(cs[n]) && IsLinkedit(cs[k])
    ensures n == k
  {
    RoleOfLinkedit(cs[n]);
    RoleOfLinkedit(cs[k]);
    RoleIsUnique(cs, n, k);
  }

  lemma AcceptedLinkedit(t: Image, k: nat)
    requires AcceptedAt(t, k)
    ensures AllCompatible(t.commands) && k < |t.commands| && IsLinkedit(t.commands[k])
  {
  }

  lemma OneLinkedit(t: Image, n: nat)
    requires Accepted(t) && n < |t.commands| && IsLinkedit(t.commands[n])
    ensures AcceptedAt(t, n)
  {
    var k :| AcceptedAt(t, k);
    AcceptedLinkedit(t, k);
    SameLinkedit(t.commands, n, k);
  }

  lemma AcceptedParts(t: Image, n: nat, fileLen: nat)
    requires HeaderOk(t.header) && CountsMatch(t) && n < |t.commands| && IsLinkedit(t.commands[n])
    requires TableEnd(t.commands) <= |t.Bytes()| == fileLen && AllCovered(t.commands, FileOff(t.commands[n]), fileLen)
    ensures Accepted(t) <==> TableOk(t.commands, fileLen, n)
    ensures Accepted(t) ==> AcceptedAt(t, n)
  {
    if Accepted(t) {
      OneLinkedit(t, n);
    }
    if TableOk(t.commands, fileLen, n) {
      assert AcceptedAt(t, n);
    }
  }

  /** The signed image is accepted exactly when there is room for its command and addresses for its signature. */
  lemma SignedIsAcceptedIff(s: Image, n: nat, vmSize: u64, signature: seq<byte>)
    requires AcceptedAt(s, n) && SignatureOf(s).None? && CanSign(s, n, vmSize, signature)
    ensures Accepted(SignMachO(s, n, vmSize, signature)) <==> SigningFits(s.commands, n, vmSize)
    ensures Accepted(SignMachO(s, n, vmSize, signature)) ==> AcceptedAt(SignMachO(s, n, vmSize, signature), n)
  {
    AcceptedHeader(s, n);
    AcceptedIsSignable(s, n, SigningFor(s, n, vmSize, signature));
    SignableIsAcceptedIff(s, n, vmSize, signature);
  }

  lemma SignableIsAcceptedIff(s: Image, n: nat, vmSize: u64, signature: seq<byte>)
    requires CanSign(s, n, vmSize, signature) && HeaderOk(s.header) && 8 * |s.commands| <= |Concat(s.commands)| <= MAX_TABLE_LEN
    requires Signable(s.commands, n, SigningFor(s, n, vmSize, signature), |s.Bytes()|)
    ensures Accepted(SignMachO(s, n, vmSize, signature)) <==> SigningFits(s.commands, n, vmSize)
    ensures Accepted(SignMachO(s, n, vmSize, signature)) ==> AcceptedAt(SignMachO(s, n, vmSize, signature), n)
  {
    var z := SigningFor(s, n, vmSize, signature);
    SignedHeader(s, n, vmSize, signature);
    TableOkIff(s.commands, n, z, |s.Bytes()|);
    SignedLinkedit(s.commands, n, z, |s.Bytes()|);
    SignedCovered(s.commands, n, z, |s.Bytes()|, z.start, z.end);
    AcceptedParts(SignMachO(s, n, vmSize, signature), n, z.end);
  }
}
