/** The writer of `write_macho_runtime_data` in `src/runtime_data.rs`: the loaded load commands are changed in place, and
    then written back to the file with the payload behind them. */
module MachOWriter {
  import opened Wrappers
  import opened Bytes
  import opened RuntimeFooter
  import opened MachO
  import opened MachOEdit
  import opened MachOLayout
  import opened MachOCheck
  import opened MachOStamp

  /** Where a command starts in the file. */
  function Offset(cs: seq<Command>, k: nat): nat
    requires k <= |cs|
  {
    TableEnd(cs[..k])
  }

  // ---------------------------------------------------------------------
  // Changing the loaded table in place
  // ---------------------------------------------------------------------

  /** `copy_within` and `fill`: the commands behind the signature move up, and their old room is cleared. */
  method RemoveSignature(prefix: array<byte>, commandOffset: nat)
    requires commandOffset + SIGNATURE_COMMAND_LEN <= prefix.Length
    modifies prefix
    ensures prefix[..] == old(prefix[..commandOffset]) + old(prefix[commandOffset + SIGNATURE_COMMAND_LEN..]) + Zeros(SIGNATURE_COMMAND_LEN)
  {
    var freed := prefix.Length - SIGNATURE_COMMAND_LEN;
    forall i | commandOffset <= i < freed {
      prefix[i] := prefix[i + SIGNATURE_COMMAND_LEN];
    }
    forall i | freed <= i < prefix.Length {
      prefix[i] := 0;
    }
  }

  /** After the removal the table holds the other commands, unchanged and in order, followed by a zeroed slot. */
  lemma RemovalKeepsCommands(header: seq<byte>, cs: seq<Command>, k: nat)
    requires |header| == HEADER_LEN && k < |cs| && |cs[k]| == SIGNATURE_COMMAND_LEN
    ensures var prefix := header + Concat(cs);
            var at := Offset(cs, k);
            && at + SIGNATURE_COMMAND_LEN <= |prefix|
            && prefix[..at] + prefix[at + SIGNATURE_COMMAND_LEN..] + Zeros(SIGNATURE_COMMAND_LEN)
               == header + Concat(Without(cs, k)) + Zeros(SIGNATURE_COMMAND_LEN)
  {
    ConcatSplits(cs, k);
    ConcatAppends(cs[..k], cs[k + 1..]);
    CutOut(header, Concat(cs[..k]), cs[k], Concat(cs[k + 1..]), Concat(cs), Offset(cs, k));
  }

  lemma CutOut(header: seq<byte>, a: seq<byte>, c: seq<byte>, b: seq<byte>, table: seq<byte>, at: nat)
    requires table == a + c + b && at == |header| + |a|
    ensures at + |c| <= |header + table|
    ensures (header + table)[..at] + (header + table)[at + |c|..] == header + (a + b)
  {
    assert (header + table)[..at] == header + a;
    assert (header + table)[at + |c|..] == b;
  }

  /** The offset that the source adjusts still names the same command. */
  lemma AdjustedOffsetNamesCommand(cs: seq<Command>, k: nat, m: nat)
    requires k < |cs| && m < |cs| && m != k && |cs[k]| == SIGNATURE_COMMAND_LEN && WellFormed(cs[m])
    ensures NewIndex(m, k) < |Without(cs, k)| && Without(cs, k)[NewIndex(m, k)] == cs[m]
    ensures Offset(Without(cs, k), NewIndex(m, k))
            == if Offset(cs, k) < Offset(cs, m) then Offset(cs, m) - SIGNATURE_COMMAND_LEN else Offset(cs, m)
  {
    var rest := Without(cs, k);
    if m > k {
      assert rest[..m - 1] == cs[..k] + cs[k + 1..m];
      ConcatAppends(cs[..k], cs[k + 1..m]);
      assert cs[..m] == cs[..k] + cs[k..m];
      ConcatAppends(cs[..k], cs[k..m]);
      assert cs[k..m] == [cs[k]] + cs[k + 1..m];
    } else {
      assert rest[..m] == cs[..m];
      assert cs[..k] == cs[..m] + cs[m..k];
      ConcatAppends(cs[..m], cs[m..k]);
    }
  }

  method PatchArray(a: array<byte>, at: nat, data: seq<byte>)
    requires at + |data| <= a.Length
    modifies a
    ensures a[..] == Patch(old(a[..]), at, data)
  {
    forall i | 0 <= i < |data| {
      a[at + i] := data[i];
    }
  }

  /** Setting the two size fields in the loaded bytes replaces the segment command by the grown one. */
  lemma PatchedFieldsGrow(front: seq<byte>, c: Command, tail: seq<byte>, vmSize: u64, fileSize: u64)
    requires |c| == SEGMENT_COMMAND_LEN
    ensures Patch(Patch(front + c + tail, |front| + 32, ToLe(vmSize, 8)), |front| + 48, ToLe(fileSize, 8))
            == front + Grown(c, vmSize, fileSize) + tail
  {
    var once := Patch(front + c + tail, |front| + 32, ToLe(vmSize, 8));
    assert once == front + (c[..32] + ToLe(vmSize, 8) + c[40..]) + tail;
    assert Patch(once, |front| + 48, ToLe(fileSize, 8)) == front + Grown(c, vmSize, fileSize) + tail;
  }

  lemma Reassociate(a: seq<byte>, b: seq<byte>, c: seq<byte>, e: seq<byte>, f: seq<byte>)
    ensures a + (b + c + e) + f == (a + b) + c + (e + f)
  {
  }

  /** What stands around command `m`, and stays when the command changes. */
  lemma Around(header: seq<byte>, cs: seq<Command>, m: nat, slot: seq<byte>, changed: Command) returns (front: seq<byte>, tail: seq<byte>)
    requires |header| == HEADER_LEN && m < |cs|
    ensures |front| == Offset(cs, m)
    ensures header + Concat(cs) + slot == front + cs[m] + tail
    ensures header + Concat(cs[m := changed]) + slot == front + changed + tail
  {
    ConcatSplits(cs, m);
    ConcatSplits(cs[m := changed], m);
    assert cs[m := changed][..m] == cs[..m] && cs[m := changed][m + 1..] == cs[m + 1..];
    front, tail := header + Concat(cs[..m]), Concat(cs[m + 1..]) + slot;
    Reassociate(header, Concat(cs[..m]), cs[m], Concat(cs[m + 1..]), slot);
    Reassociate(header, Concat(cs[..m]), changed, Concat(cs[m + 1..]), slot);
  }

  lemma PatchedTableGrows(header: seq<byte>, cs: seq<Command>, m: nat, slot: seq<byte>, vmSize: u64, fileSize: u64)
    requires |header| == HEADER_LEN && m < |cs| && |cs[m]| == SEGMENT_COMMAND_LEN
    ensures Offset(cs, m) + SEGMENT_COMMAND_LEN <= |header + Concat(cs) + slot|
    ensures Patch(Patch(header + Concat(cs) + slot, Offset(cs, m) + 32, ToLe(vmSize, 8)), Offset(cs, m) + 48, ToLe(fileSize, 8))
            == header + Concat(GrownAt(cs, m, vmSize, fileSize)) + slot
  {
    var front, tail := Around(header, cs, m, slot, Grown(cs[m], vmSize, fileSize));
    PatchedFieldsGrow(front, cs[m], tail, vmSize, fileSize);
  }

  method GrowCommand(ghost header: seq<byte>, ghost cs: seq<Command>, ghost m: nat, ghost slot: seq<byte>, p: Plan, at: nat,
                     prefix: array<byte>)
    requires |header| == HEADER_LEN && prefix[..] == header + Concat(cs) + slot
    requires m < |cs| && |cs[m]| == SEGMENT_COMMAND_LEN && at == Offset(cs, m)
    modifies prefix
    ensures prefix[..] == header + Concat(GrownAt(cs, m, p.vmSize, p.fileSize)) + slot
  {
    PatchedTableGrows(header, cs, m, slot, p.vmSize, p.fileSize);
    assert prefix.Length == |header + Concat(cs) + slot|;
    PatchArray(prefix, at + 32, ToLe(p.vmSize, 8));
    PatchArray(prefix, at + 48, ToLe(p.fileSize, 8));
  }

  method DropCommand(ghost header: seq<byte>, cs: seq<Command>, k: nat, prefix: array<byte>)
    requires |header| == HEADER_LEN && prefix[..] == header + Concat(cs) && k < |cs| && |cs[k]| == SIGNATURE_COMMAND_LEN
    modifies prefix
    ensures prefix[..] == header + Concat(Without(cs, k)) + Zeros(SIGNATURE_COMMAND_LEN)
  {
    RemovalKeepsCommands(header, cs, k);
    RemoveSignature(prefix, Offset(cs, k));
  }

  /** Drop the signature command, if there is one, and say where the `__LINKEDIT` command is then. */
  method DropSignature(img: Image, m: nat, prefix: array<byte>) returns (at: nat)
    requires |img.header| == HEADER_LEN && AllOk(img.commands) && m < |img.commands| && IsLinkedit(img.commands[m])
    requires prefix[..] == img.header + Concat(img.commands)
    modifies prefix
    ensures CoreIndex(img, m) < |Core(img)| && Core(img)[CoreIndex(img, m)] == img.commands[m]
    ensures at == Offset(Core(img), CoreIndex(img, m))
    ensures prefix[..] == img.header + Concat(Core(img)) + Slot(img)
  {
    at := Offset(img.commands, m);
    NotTheSignature(img, m);
    if SignatureOf(img).None? {
      assert prefix[..] == img.header + Concat(Core(img)) + Slot(img);
      return;
    }
    var k := SignatureOf(img).value;
    SignatureIsSignature(img);
    assert CommandOk(img.commands[m]);
    AdjustedOffsetNamesCommand(img.commands, k, m);
    DropCommand(img.header, img.commands, k, prefix);
    if Offset(img.commands, k) < at {
      at := at - SIGNATURE_COMMAND_LEN;
    }
  }

  /** All changes of the loaded header and load commands. */
  method StampPrefix(img: Image, m: nat, p: Plan, prefix: array<byte>)
    requires |img.header| == HEADER_LEN && AllOk(img.commands) && m < |img.commands| && IsLinkedit(img.commands[m])
    requires prefix[..] == img.header + Concat(img.commands)
    modifies prefix
    ensures CoreIndex(img, m) < |Core(img)| && |Core(img)[CoreIndex(img, m)]| == SEGMENT_COMMAND_LEN
    ensures prefix[..] == WithCounts(img.header, |Core(img)|, |Concat(Core(img))|) + Concat(StampedCommands(img, m, p)) + Slot(img)
  {
    LinkeditLen(img.commands, m);
    var at := DropSignature(img, m, prefix);
    GrowCommand(img.header, Core(img), CoreIndex(img, m), Slot(img), p, at, prefix);
    ReplaceHeader(img.header, Concat(StampedCommands(img, m, p)), Slot(img), |Core(img)|, |Concat(Core(img))|, prefix);
  }

  lemma LinkeditLen(cs: seq<Command>, m: nat)
    requires AllOk(cs) && m < |cs| && IsLinkedit(cs[m])
    ensures |cs[m]| == SEGMENT_COMMAND_LEN
  {
    assert CommandOk(cs[m]);
  }

  /** The header is written back with its new counts. */
  method ReplaceHeader(header: seq<byte>, ghost table: seq<byte>, ghost slot: seq<byte>, count: nat, size: nat, prefix: array<byte>)
    requires |header| == HEADER_LEN && prefix[..] == header + table + slot
    modifies prefix
    ensures prefix[..] == WithCounts(header, count, size) + table + slot
  {
    assert prefix.Length == |header + table + slot|;
    PatchArray(prefix, 0, WithCounts(header, count, size));
  }

  /** A file after the four calls that write `head` and `payload`. */
  function Written(file: seq<byte>, head: seq<byte>, offset: nat, payload: seq<byte>, end: nat): seq<byte> {
    Resized(Overwritten(Resized(Overwritten(file, 0, head), offset), offset, payload), end)
  }

  lemma StampedImageBytes(img: Image, m: nat, p: Plan, payload: seq<byte>)
    requires CanStamp(img, m, p)
    ensures StampedImage(img, m, p, payload).Bytes()
            == WithCounts(img.header, |Core(img)|, |Concat(Core(img))|) + Concat(StampedCommands(img, m, p))
               + (Slot(img) + img.body[..PayloadBase(img) - TableEnd(img.commands)] + Zeros(p.payloadOffset - PayloadBase(img)) + payload)
  {
  }

  lemma WrittenIsStamped(img: Image, m: nat, p: Plan, payload: seq<byte>, head: seq<byte>)
    requires Ready(img, m, p, |payload|) && |head| == TableEnd(img.commands)
    requires head == WithCounts(img.header, |Core(img)|, |Concat(Core(img))|) + Concat(StampedCommands(img, m, p)) + Slot(img)
    ensures Written(img.Bytes(), head, p.payloadOffset, payload, p.payloadEnd) == StampedImage(img, m, p, payload).Bytes()
  {
    var header, table := WithCounts(img.header, |Core(img)|, |Concat(Core(img))|), Concat(StampedCommands(img, m, p));
    var loaded, base := img.header + Concat(img.commands), PayloadBase(img);
    StampedImageBytes(img, m, p, payload);
    WritesCompose(loaded, head, header, table, Slot(img), img.body, base, p.payloadOffset, payload);
  }

  // ---------------------------------------------------------------------
  // The file
  // ---------------------------------------------------------------------

  /** The file that is written. */
  class OutputFile {
    var bytes: seq<byte>

    constructor (template: seq<byte>)
      ensures bytes == template
    {
      bytes := template;
    }

    /** Cut the file off, or extend it with zeros. */
    method SetLen(n: nat)
      modifies this
      ensures bytes == Resized(old(bytes), n)
    {
      bytes := Resized(bytes, n);
    }

    /** Overwrite the bytes at an offset, extending the file when they reach past its end. */
    method WriteAt(at: nat, data: seq<byte>)
      requires at <= |bytes|
      modifies this
      ensures bytes == Overwritten(old(bytes), at, data)
    {
      bytes := Overwritten(bytes, at, data);
    }

    /** `write_macho_runtime_data`: nothing is written before every check has passed. */
    method WriteRuntimeData(c: Codec, header: seq<byte>, bundle: seq<byte>) returns (ok: bool)
      requires Stampable(c, header, bundle)
      modifies this
      ensures ok <==> CanBeStamped(old(bytes), |Stamp(c, header, bundle)|)
      ensures if ok then IsStampedFrom(old(bytes), Stamp(c, header, bundle), bytes) else bytes == old(bytes)
    {
      var prepared := Prepare(bytes, |Stamp(c, header, bundle)|);
      if prepared.None? { return false; }
      var Prepared(img, m, p) := prepared.value;
      ParseIsExact(bytes);
      PreparedIsReady(img, m, p, Stamp(c, header, bundle));
      WritePlanned(img, m, p, Stamp(c, header, bundle));
      ok := true;
    }

    /** Change the loaded load commands, and write them and the payload. */
    method WritePlanned(img: Image, m: nat, p: Plan, payload: seq<byte>)
      requires Ready(img, m, p, |payload|) && bytes == img.Bytes()
      modifies this
      ensures bytes == StampedImage(img, m, p, payload).Bytes()
    {
      var head := StampLoaded(img, m, p);
      WriteParts(head, p.payloadOffset, payload, p.payloadEnd);
      WrittenIsStamped(img, m, p, payload, head);
    }

    /** The writes, in their order: the header and the load commands, and then the payload at its offset. */
    method WriteParts(head: seq<byte>, offset: nat, payload: seq<byte>, end: nat)
      modifies this
      ensures bytes == Written(old(bytes), head, offset, payload, end)
    {
      WriteAt(0, head);
      SetLen(offset);
      WriteAt(offset, payload);
      SetLen(end);
    }
  }

  /** Load the header and the load commands, and change them. */
  method StampLoaded(img: Image, m: nat, p: Plan) returns (head: seq<byte>)
    requires |img.header| == HEADER_LEN && AllOk(img.commands) && m < |img.commands| && IsLinkedit(img.commands[m])
    ensures CoreIndex(img, m) < |Core(img)| && |Core(img)[CoreIndex(img, m)]| == SEGMENT_COMMAND_LEN
    ensures head == WithCounts(img.header, |Core(img)|, |Concat(Core(img))|) + Concat(StampedCommands(img, m, p)) + Slot(img)
    ensures |head| == TableEnd(img.commands)
  {
    var loaded := img.header + Concat(img.commands);
    var prefix := new byte[|loaded|];
    forall i | 0 <= i < prefix.Length {
      prefix[i] := loaded[i];
    }
    assert prefix[..] == loaded;
    StampPrefix(img, m, p, prefix);
    head := prefix[..];
  }

  /** What the writer relies on when it starts to write. */
  ghost predicate Ready(img: Image, m: nat, p: Plan, payloadLen: nat) {
    && CanStamp(img, m, p) && AllOk(img.commands) && m < |img.commands| && IsLinkedit(img.commands[m])
    && (p.payloadOffset == PayloadBase(img) || PayloadBase(img) == TableEnd(img.commands) + |img.body|)
    && p.payloadEnd == p.payloadOffset + payloadLen
  }

  lemma PreparedIsReady(img: Image, m: nat, p: Plan, payload: seq<byte>)
    requires PlannedFor(img, m, p, |payload|)
    ensures Ready(img, m, p, |payload|)
    ensures IsStampOf(img, m, p, payload, StampedImage(img, m, p, payload).Bytes())
  {
    PlanBounds(img, m, p, |payload|);
  }

  datatype Prepared = Prepared(img: Image, m: nat, plan: Plan)

  /** Everything that can fail, before anything is written. */
  method Prepare(file: seq<byte>, payloadLen: nat) returns (r: Option<Prepared>)
    requires payloadLen > 0
    ensures r.Some? <==> CanBeStamped(file, payloadLen)
    ensures r.Some? ==> ParseImage(file) == Some(r.value.img) && PlannedFor(r.value.img, r.value.m, r.value.plan, payloadLen)
  {
    var parsed := ParseImage(file);
    if parsed.None? { return None; }
    var found := CheckImage(file, parsed.value);
    if found.None? {
      RefusedHasNoPlan(parsed.value, payloadLen);
      return None;
    }
    r := PreparePlan(parsed.value, found.value, payloadLen);
  }

  method PreparePlan(img: Image, m: nat, payloadLen: nat) returns (r: Option<Prepared>)
    requires AcceptedAt(img, m) && payloadLen > 0
    ensures r.Some? ==> r.value.img == img && PlannedFor(img, r.value.m, r.value.plan, payloadLen)
    ensures r.None? ==> forall n, p :: !PlannedFor(img, n, p, payloadLen)
  {
    AcceptedFacts(img, m);
    var plan := MakePlan(img, m, payloadLen);
    if plan.None? {
      NoOtherPlan(img, m, payloadLen);
      return None;
    }
    r := Some(Prepared(img, m, plan.value));
  }

  lemma SectionsStartAtIff(c: Command, low: nat)
    ensures SectionsStartAt(c, low) <==> NotBelow(FirstOf(c), low)
  {
    if HasSections(c) {
      LeastDecides(StartAt, c, SectionCount(c), low);
      forall j | 0 <= j < SectionCount(c) ensures StartsAt(c, j, low) <==> NotBelow(StartAt(c, j), low) {
      }
    }
  }

  lemma HasSectionStartIff(c: Command)
    ensures HasSectionStart(c) <==> FirstOf(c).Some?
  {
    if HasSections(c) {
      LeastIsSome(StartAt, c, SectionCount(c));
      forall j | 0 <= j < SectionCount(c) ensures StartsInFile(c, j) <==> StartAt(c, j).Some? {
      }
    }
  }

  lemma AllStartAtIff(cs: seq<Command>, low: nat)
    ensures (forall i :: 0 <= i < |cs| ==> SectionsStartAt(cs[i], low)) <==> NotBelow(FirstSection(cs), low)
  {
    FirstSectionDecides(cs, low);
    forall i | 0 <= i < |cs| ensures SectionsStartAt(cs[i], low) <==> NotBelow(FirstOf(cs[i]), low) {
      SectionsStartAtIff(cs[i], low);
    }
  }

  lemma SomeStartIff(cs: seq<Command>)
    ensures (exists i :: 0 <= i < |cs| && HasSectionStart(cs[i])) <==> FirstSection(cs).Some?
  {
    FirstSectionIsSome(cs);
    forall i | 0 <= i < |cs| ensures HasSectionStart(cs[i]) <==> FirstOf(cs[i]).Some? {
      HasSectionStartIff(cs[i]);
    }
  }

  /** The lowest section start, which the source compares, decides whether there is room for a signature command. */
  lemma FreeSlotIff(img: Image)
    ensures HasFreeSlot(img)
            <==> && FirstSection(img.commands).Some?
                 && TableEnd(img.commands) + SIGNATURE_COMMAND_LEN <= FirstSection(img.commands).value
                 && SIGNATURE_COMMAND_LEN <= |img.body| && AllZero(img.body[..SIGNATURE_COMMAND_LEN])
  {
    AllStartAtIff(img.commands, TableEnd(img.commands) + SIGNATURE_COMMAND_LEN);
    SomeStartIff(img.commands);
  }

  lemma AcceptedFacts(img: Image, m: nat)
    requires AcceptedAt(img, m)
    ensures |img.header| == HEADER_LEN && m < |img.commands| && IsSegment(img.commands[m])
  {
  }

  lemma RefusedHasNoPlan(img: Image, payloadLen: nat)
    requires !Accepted(img)
    ensures forall n, p :: !PlannedFor(img, n, p, payloadLen)
  {
  }

  /** Whether the writer can do its work on a file. */
  ghost predicate CanBeStamped(file: seq<byte>, payloadLen: nat) {
    ParseImage(file).Some? && exists m, p :: PlannedFor(ParseImage(file).value, m, p, payloadLen)
  }

  ghost predicate IsStampedFrom(file: seq<byte>, payload: seq<byte>, stamped: seq<byte>) {
    && ParseImage(file).Some?
    && exists m, p :: IsStampOf(ParseImage(file).value, m, p, payload, stamped)
  }

  ghost predicate IsStampOf(img: Image, m: nat, p: Plan, payload: seq<byte>, stamped: seq<byte>) {
    PlannedFor(img, m, p, |payload|) && CanStamp(img, m, p) && stamped == StampedImage(img, m, p, payload).Bytes()
  }

  lemma NoOtherPlan(img: Image, m: nat, payloadLen: nat)
    requires AcceptedAt(img, m) && MakePlan(img, m, payloadLen) == None
    ensures forall n, p :: !PlannedFor(img, n, p, payloadLen)
  {
    forall n, p | AcceptedAt(img, n) ensures !PlannedFor(img, n, p, payloadLen) {
      LinkeditIsFound(img, n);
      LinkeditIsFound(img, m);
    }
  }

  /** What the writes leave: the new front, the content that is kept, zeros up to the offset, and the payload. */
  lemma WritesCompose(loaded: seq<byte>, head: seq<byte>, header: seq<byte>, table: seq<byte>, slot: seq<byte>, body: seq<byte>,
                      base: nat, offset: nat, payload: seq<byte>)
    requires head == header + table + slot && |head| == |loaded| <= base <= |loaded| + |body| && base <= offset
    requires offset == base || base == |loaded| + |body|
    ensures Written(loaded + body, head, offset, payload, offset + |payload|)
            == header + table + (slot + body[..base - |loaded|] + Zeros(offset - base) + payload)
  {
    HeadReplaced(loaded, head, body);
    KeptOrExtended(head, body, base, offset);
    PayloadAppended(head + body[..base - |loaded|] + Zeros(offset - base), payload);
    Regrouped(header, table, slot, body[..base - |loaded|], Zeros(offset - base), payload);
  }

  lemma HeadReplaced(loaded: seq<byte>, head: seq<byte>, body: seq<byte>)
    requires |head| == |loaded|
    ensures Overwritten(loaded + body, 0, head) == head + body
  {
  }

  lemma KeptOrExtended(head: seq<byte>, body: seq<byte>, base: nat, offset: nat)
    requires |head| <= base <= |head| + |body| && base <= offset && (offset == base || base == |head| + |body|)
    ensures Resized(head + body, offset) == head + body[..base - |head|] + Zeros(offset - base)
  {
  }

  lemma PayloadAppended(front: seq<byte>, payload: seq<byte>)
    ensures Resized(Overwritten(front, |front|, payload), |front| + |payload|) == front + payload
  {
  }

  lemma Regrouped(a: seq<byte>, b: seq<byte>, c: seq<byte>, d: seq<byte>, e: seq<byte>, f: seq<byte>)
    ensures a + b + c + d + e + f == a + b + ((c + d) + e + f)
  {
  }
}
