/** What stamping leaves alone in a Mach-O executable: `write_macho_runtime_data` in `src/runtime_data.rs` drops the
    signature, grows `__LINKEDIT` and appends. */
module MachOKept {
  import opened Wrappers
  import opened Bytes
  import opened MachO
  import opened MachOEdit
  import opened MachOStamp
  import opened MachOWriter
  import MachORead

  /** The load commands without signatures. */
  function Unsigned(cs: seq<Command>): seq<Command> {
    if cs == [] then [] else (if IsSignature(cs[0]) then [] else [cs[0]]) + Unsigned(cs[1..])
  }

  /** The command is the same, but for the two sizes of `__LINKEDIT`. */
  ghost predicate SameCommand(c: Command, c': Command) {
    |c'| == |c| && forall i {:trigger c'[i]} :: 0 <= i < |c| && !(IsLinkedit(c) && (32 <= i < 40 || 48 <= i < 56)) ==> c'[i] == c[i]
  }

  /** Every command but a signature is still there, in its order. */
  ghost predicate KeepsCommands(cs: seq<Command>, cs': seq<Command>) {
    |cs'| == |Unsigned(cs)| && forall i {:trigger cs'[i]} :: 0 <= i < |cs'| ==> SameCommand(Unsigned(cs)[i], cs'[i])
  }

  /** Everything but the two counts of the header. */
  predicate KeepsHeader(header: seq<byte>, header': seq<byte>) {
    |header| == |header'| == HEADER_LEN && header'[..16] == header[..16] && header'[24..] == header[24..]
  }

  /** Where the program ends: at the data of its signature, or at the end of the file. */
  ghost predicate EndsProgram(img: Image, end: nat) {
    && end <= |img.Bytes()|
    && (forall k {:trigger img.commands[k]} :: 0 <= k < |img.commands| && IsSignature(img.commands[k]) ==> end == DataOff(img.commands[k]))
    && ((forall k {:trigger img.commands[k]} :: 0 <= k < |img.commands| ==> !IsSignature(img.commands[k])) ==> end == |img.Bytes()|)
  }

  /** The code and the data behind the load commands are where they were. */
  ghost predicate KeepsContent(img: Image, file: seq<byte>) {
    exists end: nat {:trigger EndsProgram(img, end)} ::
      && EndsProgram(img, end) && TableEnd(img.commands) <= end <= |file|
      && file[TableEnd(img.commands)..end] == img.Bytes()[TableEnd(img.commands)..end]
  }

  /** `file` is the executable without its signature and with a longer `__LINKEDIT`: nothing else has changed. */
  ghost predicate Keeps(img: Image, file: seq<byte>) {
    && ParseImage(file).Some?
    && KeepsHeader(img.header, ParseImage(file).value.header)
    && KeepsCommands(img.commands, ParseImage(file).value.commands)
    && KeepsContent(img, file)
  }

  // ---------------------------------------------------------------------
  // The commands
  // ---------------------------------------------------------------------

  lemma {:induction false} UnsignedOfUnsigned(cs: seq<Command>)
    requires forall i :: 0 <= i < |cs| ==> !IsSignature(cs[i])
    ensures Unsigned(cs) == cs
  {
    if cs != [] {
      UnsignedOfUnsigned(cs[1..]);
    }
  }

  lemma {:induction false} UnsignedWithout(cs: seq<Command>, k: nat)
    requires k < |cs| && IsSignature(cs[k])
    requires forall i :: 0 <= i < |cs| && i != k ==> !IsSignature(cs[i])
    ensures Unsigned(cs) == cs[..k] + cs[k + 1..]
  {
    if k == 0 {
      UnsignedOfUnsigned(cs[1..]);
    } else {
      UnsignedWithout(cs[1..], k - 1);
      assert cs[1..][..k - 1] + cs[1..][k..] == cs[1..k] + cs[k + 1..];
    }
  }

  lemma CoreIsUnsigned(img: Image)
    requires AllOk(img.commands) && AllCompatible(img.commands)
    ensures Core(img) == Unsigned(img.commands)
  {
    OneSignature(img);
    if SignatureOf(img).Some? {
      UnsignedWithout(img.commands, SignatureOf(img).value);
    } else {
      UnsignedOfUnsigned(img.commands);
    }
  }

  lemma GrownIsSame(c: Command, vmSize: u64, fileSize: u64)
    requires |c| == SEGMENT_COMMAND_LEN && IsLinkedit(c)
    ensures SameCommand(c, Grown(c, vmSize, fileSize))
  {
  }

  lemma StampKeepsCommands(img: Image, m: nat, p: Plan)
    requires AcceptedAt(img, m) && CoreIndex(img, m) < |Core(img)| && |Core(img)[CoreIndex(img, m)]| == SEGMENT_COMMAND_LEN
    ensures KeepsCommands(img.commands, StampedCommands(img, m, p))
  {
    CoreIsUnsigned(img);
    CoreIsStructured(img, m);
    GrownIsSame(img.commands[m], p.vmSize, p.fileSize);
  }

  // ---------------------------------------------------------------------
  // The content
  // ---------------------------------------------------------------------

  lemma BaseEndsProgram(img: Image, m: nat)
    requires AcceptedAt(img, m)
    ensures EndsProgram(img, PayloadBase(img))
  {
    BaseBounds(img, m);
    OneSignature(img);
  }

  /** A table that is shorter by the slot behind it ends where the old one did. */
  lemma SameContent(img: Image, m: nat, p: Plan, payload: seq<byte>, start: nat, base: nat)
    requires CanStamp(img, m, p) && start == TableEnd(img.commands) && base == PayloadBase(img) && |img.header| == HEADER_LEN
    requires HEADER_LEN + |Concat(StampedCommands(img, m, p))| + |Slot(img)| == start
    ensures base <= |StampedImage(img, m, p, payload).Bytes()| && base <= |img.Bytes()|
    ensures StampedImage(img, m, p, payload).Bytes()[start..base] == img.Bytes()[start..base]
  {
    var s, content := StampedImage(img, m, p, payload), img.body[..base - start];
    StampedBytesAre(img, m, p, payload);
    ContentFollows(s.header + Concat(s.commands) + Slot(img), content, Zeros(p.payloadOffset - base) + payload, s.Bytes());
    TemplateBytesAre(img, base);
    ContentFollows(img.header + Concat(img.commands), content, img.body[base - start..], img.Bytes());
  }

  lemma StampKeepsContent(img: Image, m: nat, p: Plan, payload: seq<byte>)
    requires PlannedFor(img, m, p, |payload|) && CanStamp(img, m, p)
    ensures KeepsContent(img, StampedImage(img, m, p, payload).Bytes())
  {
    BaseEndsProgram(img, m);
    CoreLen(img);
    StampedPartsLen(img, m, p, payload);
    SameContent(img, m, p, payload, TableEnd(img.commands), PayloadBase(img));
  }

  lemma StampedBytesAre(img: Image, m: nat, p: Plan, payload: seq<byte>)
    requires CanStamp(img, m, p)
    ensures var s := StampedImage(img, m, p, payload);
            s.Bytes() == s.header + Concat(s.commands) + Slot(img) + img.body[..PayloadBase(img) - TableEnd(img.commands)]
                         + (Zeros(p.payloadOffset - PayloadBase(img)) + payload)
  {
  }

  lemma TemplateBytesAre(img: Image, base: nat)
    requires TableEnd(img.commands) <= base <= TableEnd(img.commands) + |img.body|
    ensures img.Bytes() == img.header + Concat(img.commands) + img.body[..base - TableEnd(img.commands)]
                           + img.body[base - TableEnd(img.commands)..]
  {
  }

  lemma ContentFollows(front: seq<byte>, content: seq<byte>, rest: seq<byte>, file: seq<byte>)
    requires file == front + content + rest
    ensures file[|front|..|front| + |content|] == content
  {
  }

  lemma ImageKeepsTemplate(img: Image, m: nat, p: Plan, payload: seq<byte>)
    requires PlannedFor(img, m, p, |payload|) && CanStamp(img, m, p)
    ensures Keeps(img, StampedImage(img, m, p, payload).Bytes())
  {
    MachORead.StampedParses(img, m, p, payload);
    StampKeepsCommands(img, m, p);
    StampKeepsContent(img, m, p, payload);
    CountsKeepHeader(img.header, |Core(img)|, |Concat(Core(img))|);
  }

  lemma CountsKeepHeader(header: seq<byte>, count: nat, size: nat)
    requires |header| == HEADER_LEN
    ensures KeepsHeader(header, WithCounts(header, count, size))
  {
  }

  /** The stamped file is the template without its signature and with a longer `__LINKEDIT`. */
  lemma StampKeepsTemplate(file: seq<byte>, payload: seq<byte>, stamped: seq<byte>)
    requires IsStampedFrom(file, payload, stamped)
    ensures Keeps(ParseImage(file).value, stamped)
  {
    var m, p :| IsStampOf(ParseImage(file).value, m, p, payload, stamped);
    ImageKeepsTemplate(ParseImage(file).value, m, p, payload);
  }
}
