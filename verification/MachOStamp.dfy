/** Writing runtime data into a Mach-O executable (`write_macho_runtime_data` in `src/runtime_data.rs`): an existing
    signature command is squeezed out of the load command table, `__LINKEDIT` grows over the payload, and room for a
    signature command stays behind the table. */
module MachOStamp {
  import opened Wrappers
  import opened Bytes
  import opened RuntimeFooter
  import opened MachO
  import opened MachOEdit

  // ---------------------------------------------------------------------
  // The plan of a stamp
  // ---------------------------------------------------------------------

  function SignatureOf(img: Image): Option<nat> {
    FindRole(img.commands, Signature)
  }

  /** Where the old content ends that is kept: before the signature, or at the end of the file. */
  function PayloadBase(img: Image): nat {
    match SignatureOf(img)
    case None => |img.Bytes()|
    case Some(k) => if IsSignature(img.commands[k]) then DataOff(img.commands[k]) else 0
  }

  predicate StartsAt(c: Command, j: nat, low: nat) {
    HasSections(c) && j < SectionCount(c) && SectionAt(c, j).InFile() && SectionAt(c, j).offset != 0 ==> low <= SectionAt(c, j).offset
  }

  predicate StartsInFile(c: Command, j: nat) {
    HasSections(c) && j < SectionCount(c) && SectionAt(c, j).InFile() && SectionAt(c, j).offset != 0
  }

  predicate SectionsStartAt(c: Command, low: nat) {
    HasSections(c) ==> forall j :: 0 <= j < SectionCount(c) ==> StartsAt(c, j, low)
  }

  predicate HasSectionStart(c: Command) {
    HasSections(c) && exists j :: 0 <= j < SectionCount(c) && StartsInFile(c, j)
  }

  /** Room for a signature command behind the table: below the first section, and zero. */
  predicate HasFreeSlot(img: Image) {
    && (exists i :: 0 <= i < |img.commands| && HasSectionStart(img.commands[i]))
    && (forall i :: 0 <= i < |img.commands| ==> SectionsStartAt(img.commands[i], TableEnd(img.commands) + SIGNATURE_COMMAND_LEN))
    && SIGNATURE_COMMAND_LEN <= |img.body| && forall i :: 0 <= i < SIGNATURE_COMMAND_LEN ==> img.body[i] == 0
  }

  datatype Plan = Plan(payloadOffset: nat, payloadEnd: nat, fileSize: u64, vmSize: u64)

  /** Everything that the writer computes and checks before it changes the file. */
  function MakePlan(img: Image, m: nat, payloadLen: nat): Option<Plan>
    requires |img.header| == HEADER_LEN && m < |img.commands| && IsSegment(img.commands[m])
  {
    var start := AlignUp(PayloadBase(img), SIGNATURE_ALIGNMENT);
    var end := start + payloadLen;
    var fileOff := FileOff(img.commands[m]);
    if SignatureOf(img).None? && !HasFreeSlot(img) then None
    else if end >= U64_END || AlignUp(end, SIGNATURE_ALIGNMENT) >= U32_END || end < fileOff then None
    else if AlignUp(end - fileOff, PageLen(img.header)) >= U64_END then None
    else Some(Plan(start, end, end - fileOff, AlignUp(end - fileOff, PageLen(img.header))))
  }

  ghost predicate PlannedFor(img: Image, m: nat, p: Plan, payloadLen: nat) {
    AcceptedAt(img, m) && payloadLen > 0 && MakePlan(img, m, payloadLen) == Some(p)
  }

  // ---------------------------------------------------------------------
  // The table without its signature
  // ---------------------------------------------------------------------

  function Core(img: Image): seq<Command> {
    match SignatureOf(img)
    case None => img.commands
    case Some(k) => Without(img.commands, k)
  }

  function CoreIndex(img: Image, m: nat): nat {
    if SignatureOf(img).Some? && SignatureOf(img).value != m then NewIndex(m, SignatureOf(img).value) else m
  }

  /** The command that number `i` of the table without signature comes from. */
  function SourceIndex(img: Image, i: nat): nat {
    if SignatureOf(img).Some? then OldIndex(i, SignatureOf(img).value) else i
  }

  lemma CoreAt(img: Image, i: nat)
    requires i < |Core(img)|
    ensures SourceIndex(img, i) < |img.commands| && Core(img)[i] == img.commands[SourceIndex(img, i)]
  {
    if SignatureOf(img).Some? {
      WithoutAt(img.commands, SignatureOf(img).value, i);
    }
  }

  lemma SignatureIsSignature(img: Image)
    requires AllOk(img.commands) && SignatureOf(img).Some?
    ensures IsSignature(img.commands[SignatureOf(img).value])
  {
  }

  lemma SignatureRole(c: Command)
    ensures RoleOf(c) == Signature <==> IsSignature(c)
  {
  }

  lemma SignatureIsFound(img: Image, i: nat)
    requires AllCompatible(img.commands) && i < |img.commands|
    ensures RoleOf(img.commands[i]) == Signature <==> SignatureOf(img) == Some(i)
  {
    if RoleOf(img.commands[i]) == Signature {
      RoleIsUnique(img.commands, SignatureOf(img).value, i);
    }
  }

  /** The signature that is found is the only one. */
  lemma OneSignature(img: Image)
    requires AllCompatible(img.commands)
    ensures forall i :: 0 <= i < |img.commands| ==> (IsSignature(img.commands[i]) <==> SignatureOf(img) == Some(i))
  {
    forall i | 0 <= i < |img.commands| ensures IsSignature(img.commands[i]) <==> SignatureOf(img) == Some(i) {
      SignatureRole(img.commands[i]);
      SignatureIsFound(img, i);
    }
  }

  /** The table without its signature is still structured, and `__LINKEDIT` is in it. */
  lemma CoreIsStructured(img: Image, m: nat)
    requires Structured(img.commands) && m < |img.commands| && IsLinkedit(img.commands[m])
    ensures Structured(Core(img))
    ensures CoreIndex(img, m) < |Core(img)| && Core(img)[CoreIndex(img, m)] == img.commands[m]
    ensures SourceIndex(img, CoreIndex(img, m)) == m
  {
    RoleOfLinkedit(img.commands[m]);
    if SignatureOf(img).Some? {
      var k := SignatureOf(img).value;
      SignatureIsSignature(img);
      DropKeepsStructure(img.commands, k);
      StaysAt(img.commands, k, m);
    }
  }

  lemma CoreHasNoSignature(img: Image, i: nat)
    requires AllCompatible(img.commands) && i < |Core(img)|
    ensures RoleOf(Core(img)[i]) != Signature && !IsSignature(Core(img)[i])
  {
    CoreAt(img, i);
    SignatureRole(Core(img)[i]);
    if SignatureOf(img).Some? {
      WithoutAt(img.commands, SignatureOf(img).value, i);
      if RoleOf(Core(img)[i]) == Signature {
        RoleIsUnique(img.commands, SourceIndex(img, i), SignatureOf(img).value);
      }
    }
  }

  lemma CoreLen(img: Image)
    requires AllOk(img.commands)
    ensures |Concat(Core(img))| == |Concat(img.commands)| - if SignatureOf(img).Some? then SIGNATURE_COMMAND_LEN else 0
    ensures |Core(img)| == |img.commands| - if SignatureOf(img).Some? then 1 else 0
  {
    if SignatureOf(img).Some? {
      var k := SignatureOf(img).value;
      SignatureIsSignature(img);
      ConcatSplits(img.commands, k);
      ConcatAppends(img.commands[..k], img.commands[k + 1..]);
    }
  }

  /** Every other segment ends in the file before `__LINKEDIT` starts. */
  lemma OthersEndBefore(img: Image, m: nat, i: nat)
    requires AcceptedAt(img, m) && i < |img.commands| && i != m
    ensures EndsBefore(img.commands[i], img.commands[m])
  {
    var c, linkedit := img.commands[i], img.commands[m];
    assert CommandOk(c) && CommandOk(linkedit) && IsBelow(c, linkedit);
    assert Placed(c, TableEnd(img.commands), |img.Bytes()|);
    assert if i < m then Compatible(c, linkedit) else Compatible(linkedit, c);
  }

  /** An accepted `__LINKEDIT` that is not empty already lies above every other segment. */
  lemma NonEmptyLinkeditIsLast(img: Image, m: nat, i: nat)
    requires AcceptedAt(img, m) && VmSize(img.commands[m]) != 0 && i < |img.commands| && i != m
    ensures EndsBelow(img.commands[i], img.commands[m])
  {
    var c, linkedit := img.commands[i], img.commands[m];
    assert IsBelow(c, linkedit);
    assert if i < m then Compatible(c, linkedit) else Compatible(linkedit, c);
  }

  lemma CoreCanGrow(img: Image, m: nat, vmSize: nat, fileSize: nat)
    requires AcceptedAt(img, m) && 0 < fileSize <= vmSize && FileOff(img.commands[m]) + fileSize < U64_END
    ensures CanGrow(Core(img), CoreIndex(img, m), vmSize, fileSize)
  {
    CoreIsStructured(img, m);
    var core, n := Core(img), CoreIndex(img, m);
    forall i | 0 <= i < |core| && i != n ensures EndsBefore(core[i], core[n]) {
      CoreAt(img, i);
      SourcesDiffer(img, m, i);
      OthersEndBefore(img, m, SourceIndex(img, i));
    }
  }

  lemma SourcesDiffer(img: Image, m: nat, i: nat)
    requires m < |img.commands| && i < |Core(img)| && i != CoreIndex(img, m) && SignatureOf(img) != Some(m)
    ensures SourceIndex(img, i) != m
  {
  }

  // ---------------------------------------------------------------------
  // The stamped image
  // ---------------------------------------------------------------------

  /** The header, counting `count` commands in a table of `size` bytes. */
  function WithCounts(header: seq<byte>, count: nat, size: nat): (h: seq<byte>)
    requires |header| == HEADER_LEN
    ensures |h| == HEADER_LEN
  {
    header[..16] + ToLe(count, 4) + ToLe(size, 4) + header[24..]
  }

  lemma WithCountsSlices(header: seq<byte>, count: nat, size: nat)
    requires |header| == HEADER_LEN
    ensures var h := WithCounts(header, count, size);
            && h[16..20] == ToLe(count, 4) && h[20..24] == ToLe(size, 4) && h[..4] == header[..4] && h[4..8] == header[4..8]
            && h[8..12] == header[8..12] && h[12..16] == header[12..16] && h[24..28] == header[24..28]
  {
  }

  lemma WithCountsFacts(header: seq<byte>, count: u32, size: u32)
    requires |header| == HEADER_LEN
    ensures var h := WithCounts(header, count, size);
            && Field(h, 16, 4) == count && Field(h, 20, 4) == size
            && (HeaderOk(h) <==> HeaderOk(header)) && PageLen(h) == PageLen(header)
  {
    Powers();
    FromToLe(count, 4);
    FromToLe(size, 4);
    WithCountsSlices(header, count, size);
  }

  function StampedCommands(img: Image, m: nat, p: Plan): seq<Command>
    requires CoreIndex(img, m) < |Core(img)| && |Core(img)[CoreIndex(img, m)]| == SEGMENT_COMMAND_LEN
  {
    GrownAt(Core(img), CoreIndex(img, m), p.vmSize, p.fileSize)
  }

  /** The zero bytes that a dropped signature command leaves behind the table. */
  function Slot(img: Image): seq<byte> {
    if SignatureOf(img).Some? then Zeros(SIGNATURE_COMMAND_LEN) else []
  }

  /** What of the old content follows the table. */
  function KeptBody(img: Image): seq<byte>
    requires TableEnd(img.commands) <= PayloadBase(img) <= TableEnd(img.commands) + |img.body|
  {
    Slot(img) + img.body[..PayloadBase(img) - TableEnd(img.commands)]
  }

  predicate CanStamp(img: Image, m: nat, p: Plan) {
    && |img.header| == HEADER_LEN
    && TableEnd(img.commands) <= PayloadBase(img) <= TableEnd(img.commands) + |img.body| && PayloadBase(img) <= p.payloadOffset
    && CoreIndex(img, m) < |Core(img)| && |Core(img)[CoreIndex(img, m)]| == SEGMENT_COMMAND_LEN
  }

  /** The stamped file: the header with its new counts, the new table, the old content, and the payload at its
      aligned offset. */
  function StampedImage(img: Image, m: nat, p: Plan, payload: seq<byte>): Image
    requires CanStamp(img, m, p)
  {
    Image(WithCounts(img.header, |Core(img)|, |Concat(Core(img))|), StampedCommands(img, m, p),
          KeptBody(img) + Zeros(p.payloadOffset - PayloadBase(img)) + payload)
  }

  lemma BaseBounds(img: Image, m: nat)
    requires AcceptedAt(img, m)
    ensures TableEnd(img.commands) <= FileOff(img.commands[m]) <= PayloadBase(img) <= |img.Bytes()| == TableEnd(img.commands) + |img.body|
    ensures SignatureOf(img).Some? ==> PayloadBase(img) % SIGNATURE_ALIGNMENT == 0
    ensures |img.commands[m]| == SEGMENT_COMMAND_LEN
  {
    assert CommandOk(img.commands[m]);
    if SignatureOf(img).Some? {
      SignatureIsSignature(img);
      assert SignatureOk(img.commands, |img.Bytes()|, m, SignatureOf(img).value);
    }
  }

  lemma PlanBounds(img: Image, m: nat, p: Plan, payloadLen: nat)
    requires PlannedFor(img, m, p, payloadLen)
    ensures var fileOff := FileOff(img.commands[m]);
            && PayloadBase(img) <= p.payloadOffset && p.payloadOffset % SIGNATURE_ALIGNMENT == 0
            && p.payloadOffset + payloadLen == p.payloadEnd == fileOff + p.fileSize < U32_END
            && 0 < p.fileSize <= p.vmSize && fileOff + p.fileSize < U64_END
            && (SignatureOf(img).Some? ==> p.payloadOffset == PayloadBase(img))
    ensures CanStamp(img, m, p)
  {
    BaseBounds(img, m);
    CoreIsStructured(img, m);
    if SignatureOf(img).Some? {
      AlignUpIsLeast(PayloadBase(img), SIGNATURE_ALIGNMENT, PayloadBase(img));
    }
  }

  // ---------------------------------------------------------------------
  // When the stamped image is accepted
  // ---------------------------------------------------------------------

  predicate SectionsEndBy(c: Command, end: nat) {
    HasSections(c) ==> forall j :: 0 <= j < SectionCount(c) && SectionAt(c, j).InFile() ==> SectionAt(c, j).End() <= end
  }

  predicate AllEndBy(cs: seq<Command>, end: nat) {
    forall i {:trigger SectionsEndBy(cs[i], end)} :: 0 <= i < |cs| ==> SectionsEndBy(cs[i], end)
  }

  /** What the template does not promise about the grown segment: that its addresses do not overflow or run into
      another segment, which the check cannot see while the segment is empty; and that no section, which may be
      empty, lies behind the new end of the file. */
  ghost predicate GrowthFits(img: Image, m: nat, p: Plan)
    requires m < |img.commands| && IsSegment(img.commands[m])
  {
    AddressesFit(img.commands, m, p.vmSize) && AllEndBy(img.commands, p.payloadEnd)
  }

  lemma CoreAddressesFitIff(img: Image, m: nat, vmSize: nat)
    requires AcceptedAt(img, m) && CoreIndex(img, m) < |Core(img)| && Core(img)[CoreIndex(img, m)] == img.commands[m]
    ensures AddressesFit(Core(img), CoreIndex(img, m), vmSize) <==> AddressesFit(img.commands, m, vmSize)
  {
    if AddressesFit(img.commands, m, vmSize) {
      forall i | 0 <= i < |Core(img)| && i != CoreIndex(img, m) ensures EndsBelow(Core(img)[i], img.commands[m]) {
        SourceEndsBelow(img, m, vmSize, i);
      }
    }
    if AddressesFit(Core(img), CoreIndex(img, m), vmSize) {
      forall i | 0 <= i < |img.commands| && i != m ensures EndsBelow(img.commands[i], img.commands[m]) {
        CoreEndsBelow(img, m, i);
      }
    }
  }

  lemma SourceEndsBelow(img: Image, m: nat, vmSize: nat, i: nat)
    requires AcceptedAt(img, m) && i < |Core(img)| && i != CoreIndex(img, m) && AddressesFit(img.commands, m, vmSize)
    ensures EndsBelow(Core(img)[i], img.commands[m])
  {
    CoreAt(img, i);
    NotTheSignature(img, m);
    SourcesDiffer(img, m, i);
  }

  lemma NotTheSignature(img: Image, m: nat)
    requires m < |img.commands| && IsLinkedit(img.commands[m])
    ensures SignatureOf(img) != Some(m)
  {
    RoleOfLinkedit(img.commands[m]);
  }

  lemma CoreEndsBelow(img: Image, m: nat, i: nat)
    requires AcceptedAt(img, m) && i < |img.commands| && i != m
    requires CoreIndex(img, m) < |Core(img)| && Core(img)[CoreIndex(img, m)] == img.commands[m]
    requires forall j :: 0 <= j < |Core(img)| && j != CoreIndex(img, m) ==> EndsBelow(Core(img)[j], img.commands[m])
    ensures EndsBelow(img.commands[i], img.commands[m])
  {
    if SignatureOf(img) == Some(i) {
      SignatureIsSignature(img);
    } else if SignatureOf(img).Some? {
      var k := SignatureOf(img).value;
      StaysAt(img.commands, k, i);
      CoreIsStructured(img, m);
      assert EndsBelow(Core(img)[NewIndex(i, k)], img.commands[m]);
    } else {
      assert EndsBelow(Core(img)[i], img.commands[m]);
    }
  }

  lemma StaysPlacedIff(c: Command, tableEnd: nat, fileLen: nat, tableEnd': nat, fileLen': nat)
    requires CommandOk(c) && Placed(c, tableEnd, fileLen) && tableEnd' <= tableEnd
    requires IsSegment(c) ==> FileEnd(c) <= fileLen'
    ensures Placed(c, tableEnd', fileLen') <==> SectionsEndBy(c, fileLen')
  {
  }

  /** Everything that the check says about a command of the table without signature, but for sections behind the end. */
  lemma CoreIsPlaced(img: Image, m: nat, i: nat, fileLen: nat)
    requires AcceptedAt(img, m) && i < |Core(img)| && i != CoreIndex(img, m) && FileOff(img.commands[m]) <= fileLen
    ensures Placed(Core(img)[i], TableEnd(Core(img)), fileLen) <==> SectionsEndBy(Core(img)[i], fileLen)
  {
    CoreLen(img);
    CoreAt(img, i);
    NotTheSignature(img, m);
    SourcesDiffer(img, m, i);
    OthersEndBefore(img, m, SourceIndex(img, i));
    var c := img.commands[SourceIndex(img, i)];
    assert CommandOk(c) && Placed(c, TableEnd(img.commands), |img.Bytes()|);
    StaysPlacedIff(c, TableEnd(img.commands), |img.Bytes()|, TableEnd(Core(img)), fileLen);
  }

  lemma CoreIsBelow(img: Image, m: nat, i: nat)
    requires AcceptedAt(img, m) && i < |Core(img)|
    ensures IsBelow(Core(img)[i], img.commands[m])
  {
    CoreAt(img, i);
    assert IsBelow(img.commands[SourceIndex(img, i)], img.commands[m]);
  }

  lemma CoreIsCovered(img: Image, m: nat, i: nat)
    requires AcceptedAt(img, m) && i < |Core(img)|
    ensures Covered(Core(img)[i], FileOff(img.commands[m]), PayloadBase(img))
  {
    CoreAt(img, i);
    var c := img.commands[SourceIndex(img, i)];
    assert Covered(c, FileOff(img.commands[m]), FileEnd(img.commands[m]));
    if SignatureOf(img).Some? {
      SignatureIsSignature(img);
      assert SignatureOk(img.commands, |img.Bytes()|, m, SignatureOf(img).value);
      assert Covered(c, 0, PayloadBase(img));
      CoveredByBoth(c, FileOff(img.commands[m]), FileEnd(img.commands[m]), PayloadBase(img));
    }
  }

  lemma CoveredByBoth(c: Command, start: nat, end: nat, end': nat)
    requires Covered(c, start, end) && Covered(c, 0, end')
    ensures Covered(c, start, end')
  {
  }

  lemma CoveredFurther(c: Command, start: nat, end: nat, end': nat)
    requires Covered(c, start, end) && end <= end'
    ensures Covered(c, start, end')
  {
  }

  lemma StampedLen(img: Image, m: nat, p: Plan, payload: seq<byte>)
    requires PlannedFor(img, m, p, |payload|) && CanStamp(img, m, p)
    ensures |StampedImage(img, m, p, payload).Bytes()| == p.payloadEnd
    ensures TableEnd(StampedCommands(img, m, p)) == TableEnd(Core(img)) <= TableEnd(img.commands)
  {
    PlanBounds(img, m, p, |payload|);
    CoreLen(img);
    StampedPartsLen(img, m, p, payload);
  }

  lemma StampedPartsLen(img: Image, m: nat, p: Plan, payload: seq<byte>)
    requires CanStamp(img, m, p) && |Concat(Core(img))| + |Slot(img)| == |Concat(img.commands)|
    ensures |StampedImage(img, m, p, payload).Bytes()| == p.payloadOffset + |payload|
    ensures |Concat(StampedCommands(img, m, p))| == |Concat(Core(img))|
  {
    GrownTableLen(Core(img), CoreIndex(img, m), p.vmSize, p.fileSize);
  }

  lemma GrownTableLen(cs: seq<Command>, m: nat, vmSize: u64, fileSize: u64)
    requires m < |cs| && |cs[m]| == SEGMENT_COMMAND_LEN
    ensures |Concat(GrownAt(cs, m, vmSize, fileSize))| == |Concat(cs)|
  {
    var grown := GrownAt(cs, m, vmSize, fileSize);
    ConcatSplits(cs, m);
    ConcatSplits(grown, m);
    assert grown[..m] == cs[..m] && grown[m + 1..] == cs[m + 1..];
  }

  lemma StampedCountsMatch(img: Image, m: nat, p: Plan, payload: seq<byte>)
    requires PlannedFor(img, m, p, |payload|) && CanStamp(img, m, p)
    ensures var s := StampedImage(img, m, p, payload);
            HeaderOk(s.header) && CountsMatch(s) && PageLen(s.header) == PageLen(img.header)
  {
    CoreLen(img);
    OkCountFits(img.commands);
    CountsOf(img, m, p, payload);
  }

  lemma CountsOf(img: Image, m: nat, p: Plan, payload: seq<byte>)
    requires CanStamp(img, m, p) && |Core(img)| < U32_END && |Concat(Core(img))| < U32_END
    ensures var s := StampedImage(img, m, p, payload);
            CountsMatch(s) && (HeaderOk(s.header) <==> HeaderOk(img.header)) && PageLen(s.header) == PageLen(img.header)
  {
    GrownTableLen(Core(img), CoreIndex(img, m), p.vmSize, p.fileSize);
    WithCountsFacts(img.header, |Core(img)|, |Concat(Core(img))|);
  }

  /** One command of the stamped table. */
  lemma StampedIsPlacedIff(img: Image, m: nat, p: Plan, payload: seq<byte>, i: nat)
    requires PlannedFor(img, m, p, |payload|) && CanStamp(img, m, p) && i < |StampedCommands(img, m, p)|
    ensures var cs := StampedCommands(img, m, p);
            && (Placed(cs[i], TableEnd(cs), p.payloadEnd) <==> SectionsEndBy(Core(img)[i], p.payloadEnd))
            && Covered(cs[i], FileOff(img.commands[m]), p.payloadEnd)
            && !IsSignature(cs[i])
  {
    StampedLen(img, m, p, payload);
    PlanBounds(img, m, p, |payload|);
    CoreIsStructured(img, m);
    var linkedit := img.commands[m];
    assert CommandOk(linkedit);
    if i == CoreIndex(img, m) {
      GrownIsPlaced(linkedit, p.vmSize, p.fileSize, TableEnd(Core(img)), p.payloadEnd);
      GrownIsCovered(linkedit, p.vmSize, p.fileSize, FileOff(linkedit), p.payloadEnd);
    } else {
      CoreIsPlaced(img, m, i, p.payloadEnd);
      CoreIsCovered(img, m, i);
      CoveredFurther(Core(img)[i], FileOff(linkedit), PayloadBase(img), p.payloadEnd);
      CoreHasNoSignature(img, i);
    }
  }

  /** The part of the check that always succeeds: the grown `__LINKEDIT` ends the file, is last in the file and in
      memory, and covers all referenced data; the table has no signature. */
  lemma StampedFinalOk(img: Image, m: nat, p: Plan, payload: seq<byte>)
    requires PlannedFor(img, m, p, |payload|) && CanStamp(img, m, p)
    ensures var cs, n := StampedCommands(img, m, p), CoreIndex(img, m);
            && n < |cs| && IsLinkedit(cs[n]) && FileEnd(cs[n]) == p.payloadEnd && FileOff(cs[n]) == FileOff(img.commands[m])
            && FinalOk(cs, p.payloadEnd, n)
            && AllCovered(cs, FileOff(cs[n]), FileEnd(cs[n]))
  {
    var cs, n := StampedCommands(img, m, p), CoreIndex(img, m);
    CoreIsStructured(img, m);
    PlanBounds(img, m, p, |payload|);
    BaseBounds(img, m);
    StampedLen(img, m, p, payload);
    assert CommandOk(img.commands[m]);
    GrownKeepsTheRest(img.commands[m], p.vmSize, p.fileSize);
    forall i | 0 <= i < |cs|
      ensures Covered(cs[i], FileOff(img.commands[m]), p.payloadEnd) && !IsSignature(cs[i]) && IsBelow(cs[i], cs[n])
    {
      StampedIsPlacedIff(img, m, p, payload, i);
      CoreIsBelow(img, m, i);
    }
  }

  lemma CoreEndsBy(img: Image, end: nat)
    requires AllEndBy(img.commands, end)
    ensures AllEndBy(Core(img), end)
  {
    forall i | 0 <= i < |Core(img)| ensures SectionsEndBy(Core(img)[i], end) {
      CoreAt(img, i);
    }
  }

  lemma AllEndsBy(img: Image, end: nat)
    requires AllOk(img.commands) && AllEndBy(Core(img), end)
    ensures AllEndBy(img.commands, end)
  {
    forall i | 0 <= i < |img.commands| ensures SectionsEndBy(img.commands[i], end) {
      if SignatureOf(img) == Some(i) {
        SignatureIsSignature(img);
      } else if SignatureOf(img).Some? {
        StaysAt(img.commands, SignatureOf(img).value, i);
        assert SectionsEndBy(Core(img)[NewIndex(i, SignatureOf(img).value)], end);
      } else {
        assert SectionsEndBy(Core(img)[i], end);
      }
    }
  }

  lemma StampedPlacement(img: Image, m: nat, p: Plan, payload: seq<byte>)
    requires PlannedFor(img, m, p, |payload|) && CanStamp(img, m, p)
    ensures AllPlaced(StampedCommands(img, m, p), p.payloadEnd) <==> AllEndBy(img.commands, p.payloadEnd)
  {
    var cs := StampedCommands(img, m, p);
    if AllEndBy(img.commands, p.payloadEnd) {
      CoreEndsBy(img, p.payloadEnd);
      forall i | 0 <= i < |cs| ensures Placed(cs[i], TableEnd(cs), p.payloadEnd) {
        StampedIsPlacedIff(img, m, p, payload, i);
      }
    }
    if AllPlaced(cs, p.payloadEnd) {
      forall i | 0 <= i < |Core(img)| ensures SectionsEndBy(Core(img)[i], p.payloadEnd) {
        StampedIsPlacedIff(img, m, p, payload, i);
      }
      AllEndsBy(img, p.payloadEnd);
    }
  }

  lemma StampedStructure(img: Image, m: nat, p: Plan, payload: seq<byte>)
    requires PlannedFor(img, m, p, |payload|) && CanStamp(img, m, p)
    ensures Structured(StampedCommands(img, m, p)) <==> AddressesFit(img.commands, m, p.vmSize)
  {
    PlanBounds(img, m, p, |payload|);
    CoreIsStructured(img, m);
    CoreCanGrow(img, m, p.vmSize, p.fileSize);
    GrowKeepsStructureIff(Core(img), CoreIndex(img, m), p.vmSize, p.fileSize);
    CoreAddressesFitIff(img, m, p.vmSize);
  }

  /** What is left to check of an image once the rest is known. */
  lemma AcceptedIff(s: Image, n: nat)
    requires HeaderOk(s.header) && CountsMatch(s) && TableEnd(s.commands) <= |s.Bytes()| && |Concat(s.commands)| <= MAX_TABLE_LEN
    requires n < |s.commands| && IsLinkedit(s.commands[n]) && FinalOk(s.commands, |s.Bytes()|, n)
    requires AllCovered(s.commands, FileOff(s.commands[n]), FileEnd(s.commands[n]))
    ensures Accepted(s) <==> Structured(s.commands) && AllPlaced(s.commands, |s.Bytes()|)
    ensures Accepted(s) ==> AcceptedAt(s, n)
  {
    assert Structured(s.commands) && AllPlaced(s.commands, |s.Bytes()|) ==> AcceptedAt(s, n);
  }

  /** The stamped image passes the same checks again exactly when `GrowthFits`. */
  lemma StampedIsAcceptedIff(img: Image, m: nat, p: Plan, payload: seq<byte>)
    requires PlannedFor(img, m, p, |payload|)
    ensures CanStamp(img, m, p)
    ensures Accepted(StampedImage(img, m, p, payload)) <==> GrowthFits(img, m, p)
    ensures GrowthFits(img, m, p) ==> AcceptedAt(StampedImage(img, m, p, payload), CoreIndex(img, m))
  {
    PlanBounds(img, m, p, |payload|);
    StampedStructure(img, m, p, payload);
    StampedPlacement(img, m, p, payload);
    StampedLen(img, m, p, payload);
    StampedCountsMatch(img, m, p, payload);
    StampedFinalOk(img, m, p, payload);
    CoreLen(img);
    AcceptedIff(StampedImage(img, m, p, payload), CoreIndex(img, m));
  }
}
