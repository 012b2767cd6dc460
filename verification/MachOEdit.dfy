/** Three changes of a load command table: dropping its signature command, appending one, and growing `__LINKEDIT`.
    Which of the checks on the table survive them. */
module MachOEdit {
  import opened Wrappers
  import opened Bytes
  import opened MachO

  function Without(cs: seq<Command>, k: nat): seq<Command>
    requires k < |cs|
  {
    cs[..k] + cs[k + 1..]
  }

  /** Where command `m` is after command `k` has been removed. */
  function NewIndex(m: nat, k: nat): nat
    requires m != k
  {
    if m > k then m - 1 else m
  }

  function OldIndex(i: nat, k: nat): nat {
    if i >= k then i + 1 else i
  }

  /** The segment command with new sizes. */
  function Grown(c: Command, vmSize: u64, fileSize: u64): Command
    requires |c| == SEGMENT_COMMAND_LEN
  {
    c[..32] + ToLe(vmSize, 8) + c[40..48] + ToLe(fileSize, 8) + c[56..]
  }

  /** A signature command, as a signing tool writes it. */
  function SignatureCommand(offset: u32, size: u32): (c: Command)
    ensures |c| == SIGNATURE_COMMAND_LEN
  {
    ToLe(LC_CODE_SIGNATURE, 4) + ToLe(SIGNATURE_COMMAND_LEN, 4) + ToLe(offset, 4) + ToLe(size, 4)
  }

  lemma GrownSlices(c: Command, vmSize: u64, fileSize: u64)
    requires |c| == SEGMENT_COMMAND_LEN
    ensures var g := Grown(c, vmSize, fileSize);
            && |g| == SEGMENT_COMMAND_LEN && g[0..4] == c[0..4] && g[4..8] == c[4..8] && g[8..24] == c[8..24] && g[24..32] == c[24..32]
            && g[32..40] == ToLe(vmSize, 8) && g[40..48] == c[40..48] && g[48..56] == ToLe(fileSize, 8)
            && g[56..60] == c[56..60] && g[60..64] == c[60..64] && g[64..68] == c[64..68]
  {
  }

  lemma SameName(c: Command, g: Command, name: seq<byte>)
    requires |c| >= 24 && |g| >= 24 && g[8..24] == c[8..24] && |name| < 16
    ensures IsNamed(g, name) == IsNamed(c, name)
  {
    assert forall i :: 0 <= i < 16 ==> c[8..24][i] == c[8 + i] && g[8..24][i] == g[8 + i];
    assert forall i :: 8 <= i < 24 ==> c[i] == c[8..24][i - 8] && g[i] == g[8..24][i - 8];
    assert forall i :: 8 <= i < 24 ==> c[i] == g[i];
    assert c[8..8 + |name|] == g[8..8 + |name|];
  }

  /** Growing a `__LINKEDIT` command changes its two sizes and nothing else. */
  lemma GrownKeepsTheRest(c: Command, vmSize: u64, fileSize: u64)
    requires CommandOk(c) && IsLinkedit(c)
    ensures |c| == SEGMENT_COMMAND_LEN
    ensures var g := Grown(c, vmSize, fileSize);
            && WellFormed(g) && IsLinkedit(g) && !IsText(g) && Kind(g) == LC_SEGMENT_64
            && VmAddr(g) == VmAddr(c) && FileOff(g) == FileOff(c) && VmSize(g) == vmSize && FileSize(g) == fileSize
            && MaxProt(g) == MaxProt(c) && InitProt(g) == InitProt(c) && SectionCount(g) == 0
  {
    GrownSlices(c, vmSize, fileSize);
    var g := Grown(c, vmSize, fileSize);
    Powers();
    FromToLe(vmSize, 8);
    FromToLe(fileSize, 8);
    SameName(c, g, LINKEDIT);
    SameName(c, g, TEXT);
    NotBoth(c);
  }

  lemma GrownRole(c: Command, vmSize: u64, fileSize: u64)
    requires CommandOk(c) && IsLinkedit(c)
    ensures |c| == SEGMENT_COMMAND_LEN && RoleOf(c) == Linkedit && RoleOf(Grown(c, vmSize, fileSize)) == Linkedit
  {
    GrownKeepsTheRest(c, vmSize, fileSize);
    NotBoth(c);
  }

  /** The grown command passes its own checks exactly when its addresses do not overflow. */
  lemma GrownIsOkIff(c: Command, vmSize: u64, fileSize: u64)
    requires CommandOk(c) && IsLinkedit(c) && fileSize <= vmSize && FileOff(c) + fileSize < U64_END
    ensures |c| == SEGMENT_COMMAND_LEN
    ensures CommandOk(Grown(c, vmSize, fileSize)) <==> VmAddr(c) + vmSize < U64_END
  {
    GrownKeepsTheRest(c, vmSize, fileSize);
  }

  /** It refers to nothing and has no sections. */
  lemma GrownIsCovered(c: Command, vmSize: u64, fileSize: u64, start: nat, end: nat)
    requires CommandOk(c) && IsLinkedit(c)
    ensures |c| == SEGMENT_COMMAND_LEN && Covered(Grown(c, vmSize, fileSize), start, end)
  {
    GrownKeepsTheRest(c, vmSize, fileSize);
  }

  lemma GrownIsPlaced(c: Command, vmSize: u64, fileSize: u64, tableEnd: nat, fileLen: nat)
    requires CommandOk(c) && IsLinkedit(c) && FileOff(c) + fileSize <= fileLen
    ensures |c| == SEGMENT_COMMAND_LEN && Placed(Grown(c, vmSize, fileSize), tableEnd, fileLen)
  {
    GrownKeepsTheRest(c, vmSize, fileSize);
  }

  /** The fields of a signature command. */
  lemma SignatureSlices(offset: u32, size: u32)
    ensures var c := SignatureCommand(offset, size);
            && c[0..4] == ToLe(LC_CODE_SIGNATURE, 4) && c[4..8] == ToLe(SIGNATURE_COMMAND_LEN, 4)
            && c[8..12] == ToLe(offset, 4) && c[12..16] == ToLe(size, 4)
  {
  }

  lemma SignatureFields(offset: u32, size: u32)
    ensures var c := SignatureCommand(offset, size);
            && CommandOk(c) && IsSignature(c) && !IsSegment(c) && RoleOf(c) == Signature && DataOff(c) == offset && DataSize(c) == size
  {
    Powers();
    FromToLe(LC_CODE_SIGNATURE, 4);
    FromToLe(SIGNATURE_COMMAND_LEN, 4);
    FromToLe(offset, 4);
    FromToLe(size, 4);
    SignatureSlices(offset, size);
  }

  lemma SignatureRefersToNothing(c: Command, start: nat, end: nat)
    requires IsSignature(c)
    ensures Covered(c, start, end)
  {
  }

  // ---------------------------------------------------------------------
  // Dropping and appending a signature
  // ---------------------------------------------------------------------

  lemma WithoutAt(cs: seq<Command>, k: nat, i: nat)
    requires k < |cs| && i < |Without(cs, k)|
    ensures OldIndex(i, k) < |cs| && OldIndex(i, k) != k && Without(cs, k)[i] == cs[OldIndex(i, k)]
  {
  }

  lemma StaysAt(cs: seq<Command>, k: nat, m: nat)
    requires k < |cs| && m < |cs| && m != k
    ensures NewIndex(m, k) < |Without(cs, k)| && Without(cs, k)[NewIndex(m, k)] == cs[m] && OldIndex(NewIndex(m, k), k) == m
  {
  }

  lemma DropKeepsOk(cs: seq<Command>, k: nat)
    requires AllOk(cs) && k < |cs|
    ensures AllOk(Without(cs, k))
  {
    forall i | 0 <= i < |Without(cs, k)| ensures CommandOk(Without(cs, k)[i]) {
      WithoutAt(cs, k, i);
    }
  }

  lemma DropKeepsCompatible(cs: seq<Command>, k: nat)
    requires AllCompatible(cs) && k < |cs|
    ensures AllCompatible(Without(cs, k))
  {
    var rest := Without(cs, k);
    forall i, j | 0 <= i < j < |rest| ensures Compatible(rest[i], rest[j]) {
      WithoutAt(cs, k, i);
      WithoutAt(cs, k, j);
      assert Compatible(cs[OldIndex(i, k)], cs[OldIndex(j, k)]);
    }
  }

  lemma DropKeepsRole(cs: seq<Command>, k: nat, role: Role)
    requires HasRole(cs, role) && k < |cs| && RoleOf(cs[k]) != role
    ensures HasRole(Without(cs, k), role)
  {
    var i :| 0 <= i < |cs| && RoleOf(cs[i]) == role;
    StaysAt(cs, k, i);
  }

  lemma DropKeepsEntry(cs: seq<Command>, k: nat)
    requires HasEntry(cs) && k < |cs| && IsSignature(cs[k]) && RoleOf(cs[k]) == Signature
    ensures HasEntry(Without(cs, k))
  {
    var i :| 0 <= i < |cs| && EntersSome(cs[i], cs);
    var e :| 0 <= e < |cs| && EntersCommand(cs[i], cs[e]);
    StaysAt(cs, k, i);
    StaysAt(cs, k, e);
    assert EntersSome(cs[i], Without(cs, k));
  }

  lemma DropKeepsComplete(cs: seq<Command>, k: nat)
    requires Complete(cs) && k < |cs| && IsSignature(cs[k]) && RoleOf(cs[k]) == Signature
    ensures Complete(Without(cs, k))
  {
    forall role | role in REQUIRED ensures HasRole(Without(cs, k), role) {
      DropKeepsRole(cs, k, role);
    }
    DropKeepsEntry(cs, k);
  }

  lemma DropKeepsStructure(cs: seq<Command>, k: nat)
    requires Structured(cs) && k < |cs| && IsSignature(cs[k]) && RoleOf(cs[k]) == Signature
    ensures Structured(Without(cs, k))
  {
    DropKeepsOk(cs, k);
    DropKeepsCompatible(cs, k);
    DropKeepsComplete(cs, k);
  }

  lemma AppendKeepsCompatible(cs: seq<Command>, c: Command)
    requires AllCompatible(cs) && RoleOf(c) == Signature && !IsSegment(c)
    requires forall i :: 0 <= i < |cs| ==> RoleOf(cs[i]) != Signature
    ensures AllCompatible(cs + [c])
  {
    var more := cs + [c];
    forall i, j | 0 <= i < j < |more| ensures Compatible(more[i], more[j]) {
      if j < |cs| {
        assert Compatible(cs[i], cs[j]);
      } else {
        assert RoleOf(cs[i]) != Signature;
      }
    }
  }

  lemma AppendKeepsRole(cs: seq<Command>, c: Command, role: Role)
    requires HasRole(cs, role)
    ensures HasRole(cs + [c], role)
  {
    var i :| 0 <= i < |cs| && RoleOf(cs[i]) == role;
    assert (cs + [c])[i] == cs[i];
  }

  lemma AppendKeepsEntry(cs: seq<Command>, c: Command)
    requires HasEntry(cs)
    ensures HasEntry(cs + [c])
  {
    var i :| 0 <= i < |cs| && EntersSome(cs[i], cs);
    var e :| 0 <= e < |cs| && EntersCommand(cs[i], cs[e]);
    assert (cs + [c])[i] == cs[i] && (cs + [c])[e] == cs[e];
    assert EntersSome(cs[i], cs + [c]);
  }

  lemma AppendKeepsComplete(cs: seq<Command>, c: Command)
    requires Complete(cs)
    ensures Complete(cs + [c])
  {
    forall role | role in REQUIRED ensures HasRole(cs + [c], role) {
      AppendKeepsRole(cs, c, role);
    }
    AppendKeepsEntry(cs, c);
  }

  lemma AppendKeepsStructure(cs: seq<Command>, c: Command)
    requires Structured(cs) && CommandOk(c) && RoleOf(c) == Signature && !IsSegment(c)
    requires forall i :: 0 <= i < |cs| ==> RoleOf(cs[i]) != Signature
    ensures Structured(cs + [c])
  {
    AppendKeepsCompatible(cs, c);
    AppendKeepsComplete(cs, c);
  }

  lemma PrefixIsStructured(cs: seq<Command>, c: Command)
    requires AllOk(cs + [c]) && AllCompatible(cs + [c])
    ensures AllOk(cs) && AllCompatible(cs)
  {
    var more := cs + [c];
    assert forall i :: 0 <= i < |cs| ==> cs[i] == more[i];
    forall i, j | 0 <= i < j < |cs| ensures Compatible(cs[i], cs[j]) {
      assert Compatible(more[i], more[j]);
    }
  }

  // ---------------------------------------------------------------------
  // Growing __LINKEDIT
  // ---------------------------------------------------------------------

  /** What nothing about an accepted table promises of its `__LINKEDIT` with other sizes: that its addresses do not
      overflow, and that it lies above all other segments. */
  ghost predicate AddressesFit(cs: seq<Command>, m: nat, vmSize: nat)
    requires m < |cs| && IsSegment(cs[m])
  {
    && VmAddr(cs[m]) + vmSize < U64_END
    && forall i {:trigger EndsBelow(cs[i], cs[m])} :: 0 <= i < |cs| && i != m ==> EndsBelow(cs[i], cs[m])
  }

  predicate EndsBelow(c: Command, linkedit: Command)
    requires IsSegment(linkedit)
  {
    IsSegment(c) && VmSize(c) != 0 ==> VmEnd(c) <= VmAddr(linkedit)
  }

  /** Whether a segment ends in the file where `__LINKEDIT` begins or before. */
  predicate EndsBefore(c: Command, linkedit: Command)
    requires IsSegment(linkedit)
  {
    IsSegment(c) ==> FileEnd(c) <= FileOff(linkedit) && VmAddr(c) <= VmAddr(linkedit)
  }

  lemma GrownIsApartIff(c: Command, vmSize: u64, fileSize: u64, other: Command)
    requires CommandOk(c) && IsLinkedit(c) && 0 < fileSize <= vmSize && EndsBefore(other, c)
    ensures |c| == SEGMENT_COMMAND_LEN
    ensures Apart(Grown(c, vmSize, fileSize), other) <==> EndsBelow(other, c)
    ensures Apart(other, Grown(c, vmSize, fileSize)) <==> EndsBelow(other, c)
  {
    GrownKeepsTheRest(c, vmSize, fileSize);
  }

  lemma GrownIsCompatibleIff(c: Command, vmSize: u64, fileSize: u64, other: Command)
    requires CommandOk(c) && IsLinkedit(c) && 0 < fileSize <= vmSize && EndsBefore(other, c) && RoleOf(other) != Linkedit
    ensures |c| == SEGMENT_COMMAND_LEN
    ensures Compatible(Grown(c, vmSize, fileSize), other) <==> EndsBelow(other, c)
    ensures Compatible(other, Grown(c, vmSize, fileSize)) <==> EndsBelow(other, c)
  {
    GrownIsApartIff(c, vmSize, fileSize, other);
    GrownRole(c, vmSize, fileSize);
  }

  function GrownAt(cs: seq<Command>, m: nat, vmSize: u64, fileSize: u64): seq<Command>
    requires m < |cs| && |cs[m]| == SEGMENT_COMMAND_LEN
  {
    cs[m := Grown(cs[m], vmSize, fileSize)]
  }

  /** The command that grows, in a table where it is last. */
  ghost predicate CanGrow(cs: seq<Command>, m: nat, vmSize: nat, fileSize: nat) {
    && m < |cs| && CommandOk(cs[m]) && IsLinkedit(cs[m]) && 0 < fileSize <= vmSize && FileOff(cs[m]) + fileSize < U64_END
    && forall i {:trigger EndsBefore(cs[i], cs[m])} :: 0 <= i < |cs| && i != m ==> EndsBefore(cs[i], cs[m])
  }

  lemma GrowKeepsRoles(cs: seq<Command>, m: nat, vmSize: u64, fileSize: u64)
    requires CanGrow(cs, m, vmSize, fileSize)
    requires Complete(cs)
    ensures |cs[m]| == SEGMENT_COMMAND_LEN && Complete(GrownAt(cs, m, vmSize, fileSize))
  {
    GrownRole(cs[m], vmSize, fileSize);
    var grown := GrownAt(cs, m, vmSize, fileSize);
    forall role | role in REQUIRED ensures HasRole(grown, role) {
      assert HasRole(cs, role);
      var i :| 0 <= i < |cs| && RoleOf(cs[i]) == role;
      assert RoleOf(grown[i]) == role;
    }
    var i :| 0 <= i < |cs| && EntersSome(cs[i], cs);
    var e :| 0 <= e < |cs| && EntersCommand(cs[i], cs[e]);
    assert grown[i] == cs[i] && grown[e] == cs[e];
    assert EntersSome(cs[i], grown);
  }

  /** A structured table stays structured exactly when the addresses fit. */
  lemma GrowKeepsStructureIff(cs: seq<Command>, m: nat, vmSize: u64, fileSize: u64)
    requires Structured(cs) && CanGrow(cs, m, vmSize, fileSize)
    ensures |cs[m]| == SEGMENT_COMMAND_LEN
    ensures Structured(GrownAt(cs, m, vmSize, fileSize)) <==> AddressesFit(cs, m, vmSize)
  {
    GrownIsOkIff(cs[m], vmSize, fileSize);
    GrowKeepsRoles(cs, m, vmSize, fileSize);
    if AddressesFit(cs, m, vmSize) {
      FittingGrowth(cs, m, vmSize, fileSize);
    } else if Structured(GrownAt(cs, m, vmSize, fileSize)) {
      StructuredGrowthFits(cs, m, vmSize, fileSize);
    }
  }

  lemma OnlyLinkedit(cs: seq<Command>, m: nat, i: nat)
    requires AllCompatible(cs) && m < |cs| && IsLinkedit(cs[m]) && i < |cs| && i != m
    ensures RoleOf(cs[i]) != Linkedit
  {
    RoleOfLinkedit(cs[m]);
    if RoleOf(cs[i]) == Linkedit {
      RoleIsUnique(cs, i, m);
    }
  }

  lemma FittingPairs(cs: seq<Command>, m: nat, vmSize: u64, fileSize: u64)
    requires AllCompatible(cs) && CanGrow(cs, m, vmSize, fileSize) && AddressesFit(cs, m, vmSize)
    ensures |cs[m]| == SEGMENT_COMMAND_LEN && AllCompatible(GrownAt(cs, m, vmSize, fileSize))
  {
    GrownRole(cs[m], vmSize, fileSize);
    var grown := GrownAt(cs, m, vmSize, fileSize);
    forall i, j | 0 <= i < j < |grown| ensures Compatible(grown[i], grown[j]) {
      FittingPair(cs, m, vmSize, fileSize, i, j);
    }
  }

  lemma FittingPair(cs: seq<Command>, m: nat, vmSize: u64, fileSize: u64, i: nat, j: nat)
    requires AllCompatible(cs) && CanGrow(cs, m, vmSize, fileSize) && AddressesFit(cs, m, vmSize) && i < j < |cs|
    ensures |cs[m]| == SEGMENT_COMMAND_LEN
    ensures var grown := GrownAt(cs, m, vmSize, fileSize); Compatible(grown[i], grown[j])
  {
    GrownRole(cs[m], vmSize, fileSize);
    if i == m || j == m {
      var other := if i == m then j else i;
      OnlyLinkedit(cs, m, other);
      assert EndsBefore(cs[other], cs[m]) && EndsBelow(cs[other], cs[m]);
      GrownIsCompatibleIff(cs[m], vmSize, fileSize, cs[other]);
    } else {
      assert Compatible(cs[i], cs[j]);
    }
  }

  lemma FittingGrowth(cs: seq<Command>, m: nat, vmSize: u64, fileSize: u64)
    requires Structured(cs) && CanGrow(cs, m, vmSize, fileSize) && AddressesFit(cs, m, vmSize)
    ensures |cs[m]| == SEGMENT_COMMAND_LEN && Structured(GrownAt(cs, m, vmSize, fileSize))
  {
    GrownIsOkIff(cs[m], vmSize, fileSize);
    GrowKeepsRoles(cs, m, vmSize, fileSize);
    FittingPairs(cs, m, vmSize, fileSize);
  }

  lemma StructuredGrowthFits(cs: seq<Command>, m: nat, vmSize: u64, fileSize: u64)
    requires AllCompatible(cs) && CanGrow(cs, m, vmSize, fileSize) && |cs[m]| == SEGMENT_COMMAND_LEN
    requires AllOk(GrownAt(cs, m, vmSize, fileSize)) && AllCompatible(GrownAt(cs, m, vmSize, fileSize))
    ensures AddressesFit(cs, m, vmSize)
  {
    var grown := GrownAt(cs, m, vmSize, fileSize);
    assert CommandOk(grown[m]);
    GrownIsOkIff(cs[m], vmSize, fileSize);
    forall i | 0 <= i < |cs| && i != m ensures EndsBelow(cs[i], cs[m]) {
      OnlyLinkedit(cs, m, i);
      GrownIsCompatibleIff(cs[m], vmSize, fileSize, cs[i]);
      assert if i < m then Compatible(grown[i], grown[m]) else Compatible(grown[m], grown[i]);
    }
  }
}
