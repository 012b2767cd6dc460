/** What `read_macho_layout` concludes from its pass over the load commands, and `validate_macho_final_layout`: together
    they accept exactly the files that `MachO.Accepted` describes. */
module MachOCheck {
  import opened Wrappers
  import opened Bytes
  import opened MachO
  import opened MachOLayout

  // ---------------------------------------------------------------------
  // Ranges
  // ---------------------------------------------------------------------

  predicate Clear(a: Range, b: Range) {
    a.end <= b.start || b.end <= a.start
  }

  predicate ClearOfAll(x: Range, rs: seq<Range>) {
    forall i {:trigger rs[i]} :: 0 <= i < |rs| ==> Clear(x, rs[i])
  }

  predicate Disjoint(rs: seq<Range>) {
    forall i, j {:trigger rs[i], rs[j]} :: 0 <= i < j < |rs| ==> Clear(rs[i], rs[j])
  }

  predicate NoneIsEmpty(rs: seq<Range>) {
    forall i {:trigger rs[i]} :: 0 <= i < |rs| ==> rs[i].start < rs[i].end
  }

  predicate AllInside(rs: seq<Range>, start: nat, end: nat) {
    forall i {:trigger rs[i]} :: 0 <= i < |rs| ==> start <= rs[i].start && rs[i].end <= end
  }

  predicate Meets(rs: seq<Range>, at: nat) {
    exists i {:trigger rs[i]} :: 0 <= i < |rs| && rs[i].start <= at < rs[i].end
  }

  lemma DisjointCons(x: Range, rs: seq<Range>)
    ensures Disjoint([x] + rs) <==> Disjoint(rs) && ClearOfAll(x, rs)
  {
    var all := [x] + rs;
    if Disjoint(all) {
      forall i | 0 <= i < |rs| ensures Clear(x, rs[i]) {
        assert Clear(all[0], all[i + 1]);
      }
      forall i, j | 0 <= i < j < |rs| ensures Clear(rs[i], rs[j]) {
        assert Clear(all[i + 1], all[j + 1]);
      }
    }
  }

  lemma DisjointAppend(rs: seq<Range>, x: Range)
    ensures Disjoint(rs + [x]) <==> Disjoint(rs) && ClearOfAll(x, rs)
  {
    var all := rs + [x];
    if Disjoint(all) {
      forall i | 0 <= i < |rs| ensures Clear(x, rs[i]) {
        assert Clear(all[i], all[|rs|]);
      }
      forall i, j | 0 <= i < j < |rs| ensures Clear(rs[i], rs[j]) {
        assert Clear(all[i], all[j]);
      }
    }
  }

  lemma ClearOfBoth(x: Range, a: seq<Range>, b: seq<Range>)
    ensures ClearOfAll(x, a + b) <==> ClearOfAll(x, a) && ClearOfAll(x, b)
  {
    var all := a + b;
    if ClearOfAll(x, all) {
      forall i | 0 <= i < |a| ensures Clear(x, a[i]) {
        assert Clear(x, all[i]);
      }
      forall i | 0 <= i < |b| ensures Clear(x, b[i]) {
        assert Clear(x, all[|a| + i]);
      }
    }
  }

  lemma InsideBoth(a: seq<Range>, b: seq<Range>, start: nat, end: nat)
    ensures AllInside(a + b, start, end) <==> AllInside(a, start, end) && AllInside(b, start, end)
  {
    var all := a + b;
    if AllInside(all, start, end) {
      forall i | 0 <= i < |a| ensures start <= a[i].start && a[i].end <= end {
        assert all[i] == a[i];
      }
      forall i | 0 <= i < |b| ensures start <= b[i].start && b[i].end <= end {
        assert all[|a| + i] == b[i];
      }
    }
  }

  lemma MeetsEither(a: seq<Range>, b: seq<Range>, at: nat)
    ensures Meets(a + b, at) <==> Meets(a, at) || Meets(b, at)
  {
    var all := a + b;
    if i :| 0 <= i < |a| && a[i].start <= at < a[i].end {
      assert all[i] == a[i];
    }
    if i :| 0 <= i < |b| && b[i].start <= at < b[i].end {
      assert all[|a| + i] == b[i];
    }
  }

  // ---------------------------------------------------------------------
  // Sorting
  // ---------------------------------------------------------------------

  function Insert(x: Range, s: seq<Range>): (r: seq<Range>)
    ensures |r| == |s| + 1
  {
    if s == [] || x.start <= s[0].start then [x] + s else [s[0]] + Insert(x, s[1..])
  }

  /** The ranges, ordered by their start. */
  function Sort(rs: seq<Range>): seq<Range> {
    if rs == [] then [] else Insert(rs[0], Sort(rs[1..]))
  }

  predicate AscendsAt(s: seq<Range>, i: nat)
    requires 0 < i < |s|
  {
    s[i - 1].start <= s[i].start
  }

  predicate Ascending(s: seq<Range>) {
    forall i {:trigger AscendsAt(s, i)} :: 0 < i < |s| ==> AscendsAt(s, i)
  }

  /** The test on every two neighbours. */
  predicate OverlapsAt(s: seq<Range>, i: nat)
    requires 0 < i < |s|
  {
    s[i].start < s[i - 1].end
  }

  predicate Overlapping(s: seq<Range>) {
    exists i {:trigger OverlapsAt(s, i)} :: 0 < i < |s| && OverlapsAt(s, i)
  }

  lemma AscendingCons(x: Range, s: seq<Range>)
    requires Ascending(s) && (s == [] || x.start <= s[0].start)
    ensures Ascending([x] + s)
  {
    var all := [x] + s;
    forall i | 0 < i < |all| ensures AscendsAt(all, i) {
      if i > 1 {
        assert AscendsAt(s, i - 1);
      }
    }
  }

  lemma AscendingTail(s: seq<Range>)
    requires Ascending(s) && s != []
    ensures Ascending(s[1..])
  {
    forall i | 0 < i < |s| - 1 ensures AscendsAt(s[1..], i) {
      assert AscendsAt(s, i + 1);
    }
  }

  lemma {:induction false} InsertAscends(x: Range, s: seq<Range>)
    requires Ascending(s)
    ensures Ascending(Insert(x, s)) && Insert(x, s)[0] in [x] + s[..if s == [] then 0 else 1]
  {
    if s == [] || x.start <= s[0].start {
      AscendingCons(x, s);
    } else {
      AscendingTail(s);
      InsertAscends(x, s[1..]);
      if |s| > 1 {
        assert AscendsAt(s, 1);
      }
      AscendingCons(s[0], Insert(x, s[1..]));
    }
  }

  lemma {:induction false} SortAscends(rs: seq<Range>)
    ensures Ascending(Sort(rs))
  {
    if rs != [] {
      SortAscends(rs[1..]);
      InsertAscends(rs[0], Sort(rs[1..]));
    }
  }

  lemma {:induction false} InsertClear(x: Range, s: seq<Range>, y: Range)
    ensures ClearOfAll(y, Insert(x, s)) <==> Clear(y, x) && ClearOfAll(y, s)
  {
    if s == [] || x.start <= s[0].start {
      ClearOfBoth(y, [x], s);
      assert ClearOfAll(y, [x]) <==> Clear(y, [x][0]);
    } else {
      InsertClear(x, s[1..], y);
      ClearOfBoth(y, [s[0]], Insert(x, s[1..]));
      ClearOfBoth(y, [s[0]], s[1..]);
      assert s == [s[0]] + s[1..];
    }
  }

  lemma {:induction false} InsertDisjoint(x: Range, s: seq<Range>)
    ensures Disjoint(Insert(x, s)) <==> Disjoint(s) && ClearOfAll(x, s)
  {
    if s == [] || x.start <= s[0].start {
      DisjointCons(x, s);
    } else {
      InsertDisjoint(x, s[1..]);
      InsertClear(x, s[1..], s[0]);
      DisjointCons(s[0], Insert(x, s[1..]));
      DisjointCons(s[0], s[1..]);
      ClearOfBoth(x, [s[0]], s[1..]);
      assert s == [s[0]] + s[1..];
      assert ClearOfAll(x, [s[0]]) <==> Clear(x, [s[0]][0]);
    }
  }

  lemma {:induction false} SortClear(rs: seq<Range>, y: Range)
    ensures ClearOfAll(y, Sort(rs)) <==> ClearOfAll(y, rs)
  {
    if rs != [] {
      SortClear(rs[1..], y);
      InsertClear(rs[0], Sort(rs[1..]), y);
      ClearOfBoth(y, [rs[0]], rs[1..]);
      assert rs == [rs[0]] + rs[1..];
      assert ClearOfAll(y, [rs[0]]) <==> Clear(y, [rs[0]][0]);
    }
  }

  lemma {:induction false} SortDisjoint(rs: seq<Range>)
    ensures Disjoint(Sort(rs)) <==> Disjoint(rs)
  {
    if rs != [] {
      SortDisjoint(rs[1..]);
      SortClear(rs[1..], rs[0]);
      InsertDisjoint(rs[0], Sort(rs[1..]));
      DisjointCons(rs[0], rs[1..]);
      assert rs == [rs[0]] + rs[1..];
    }
  }

  lemma InsertNotEmpty(x: Range, s: seq<Range>)
    requires NoneIsEmpty(s) && x.start < x.end
    ensures NoneIsEmpty(Insert(x, s))
  {
  }

  lemma {:induction false} SortNotEmpty(rs: seq<Range>)
    requires NoneIsEmpty(rs)
    ensures NoneIsEmpty(Sort(rs))
  {
    if rs != [] {
      SortNotEmpty(rs[1..]);
      InsertNotEmpty(rs[0], Sort(rs[1..]));
    }
  }

  lemma {:induction false} EndsBeforeLater(s: seq<Range>, i: nat, j: nat)
    requires !Overlapping(s) && NoneIsEmpty(s) && i < j < |s|
    ensures s[i].end <= s[j].start
  {
    if i < j - 1 {
      EndsBeforeLater(s, i, j - 1);
      assert s[j - 1].start < s[j - 1].end;
    }
    assert !OverlapsAt(s, j);
  }

  /** Comparing neighbours in the sorted list decides whether any two ranges overlap. */
  lemma NeighboursDecide(rs: seq<Range>)
    requires NoneIsEmpty(rs)
    ensures Overlapping(Sort(rs)) <==> !Disjoint(rs)
  {
    var s := Sort(rs);
    SortAscends(rs);
    SortNotEmpty(rs);
    SortDisjoint(rs);
    if Overlapping(s) {
      var i :| 0 < i < |s| && OverlapsAt(s, i);
      assert AscendsAt(s, i);
      assert !Clear(s[i - 1], s[i]);
    } else {
      forall i, j | 0 <= i < j < |s| ensures Clear(s[i], s[j]) {
        EndsBeforeLater(s, i, j);
      }
    }
  }

  // ---------------------------------------------------------------------
  // The lists of all commands
  // ---------------------------------------------------------------------

  lemma {:induction false} CollectInside(f: Command -> seq<Range>, cs: seq<Command>, start: nat, end: nat)
    ensures AllInside(Collect(f, cs), start, end) <==> forall i {:trigger f(cs[i])} :: 0 <= i < |cs| ==> AllInside(f(cs[i]), start, end)
  {
    if cs != [] {
      var before, last := cs[..|cs| - 1], cs[|cs| - 1];
      CollectInside(f, before, start, end);
      InsideBoth(Collect(f, before), f(last), start, end);
      assert forall i :: 0 <= i < |before| ==> before[i] == cs[i];
    }
  }

  lemma {:induction false} CollectMeets(f: Command -> seq<Range>, cs: seq<Command>, at: nat)
    ensures Meets(Collect(f, cs), at) <==> exists i {:trigger f(cs[i])} :: 0 <= i < |cs| && Meets(f(cs[i]), at)
  {
    if cs != [] {
      var before, last := cs[..|cs| - 1], cs[|cs| - 1];
      CollectMeets(f, before, at);
      MeetsEither(Collect(f, before), f(last), at);
      assert forall i :: 0 <= i < |before| ==> before[i] == cs[i];
    }
  }

  lemma {:induction false} CollectClear(f: Command -> seq<Range>, cs: seq<Command>, x: Range)
    ensures ClearOfAll(x, Collect(f, cs)) <==> forall i {:trigger f(cs[i])} :: 0 <= i < |cs| ==> ClearOfAll(x, f(cs[i]))
  {
    if cs != [] {
      var before, last := cs[..|cs| - 1], cs[|cs| - 1];
      CollectClear(f, before, x);
      ClearOfBoth(x, Collect(f, before), f(last));
      assert forall i :: 0 <= i < |before| ==> before[i] == cs[i];
    }
  }

  /** Two lists of at most one range. */
  predicate Separate(a: seq<Range>, b: seq<Range>) {
    a == [] || b == [] || Clear(a[0], b[0])
  }

  predicate EachSeparate(f: Command -> seq<Range>, cs: seq<Command>) {
    forall i, j {:trigger Separate(f(cs[i]), f(cs[j]))} :: 0 <= i < j < |cs| ==> Separate(f(cs[i]), f(cs[j]))
  }

  predicate AtMostOne(f: Command -> seq<Range>, cs: seq<Command>) {
    forall i {:trigger f(cs[i])} :: 0 <= i < |cs| ==> |f(cs[i])| <= 1
  }

  lemma SeparateAppend(f: Command -> seq<Range>, cs: seq<Command>, c: Command)
    ensures EachSeparate(f, cs + [c]) <==> EachSeparate(f, cs) && forall i {:trigger f(cs[i])} :: 0 <= i < |cs| ==> Separate(f(cs[i]), f(c))
  {
    var all := cs + [c];
    if EachSeparate(f, all) {
      forall i, j | 0 <= i < j < |cs| ensures Separate(f(cs[i]), f(cs[j])) {
        assert Separate(f(all[i]), f(all[j]));
      }
      forall i | 0 <= i < |cs| ensures Separate(f(cs[i]), f(c)) {
        assert Separate(f(all[i]), f(all[|cs|]));
      }
    }
  }

  lemma SeparateIsClear(a: seq<Range>, x: Range)
    requires |a| <= 1
    ensures Separate(a, [x]) <==> ClearOfAll(x, a)
  {
  }

  lemma {:induction false} CollectDisjoint(f: Command -> seq<Range>, cs: seq<Command>)
    requires AtMostOne(f, cs)
    ensures Disjoint(Collect(f, cs)) <==> EachSeparate(f, cs)
  {
    if cs != [] {
      var before, last := cs[..|cs| - 1], cs[|cs| - 1];
      assert forall i {:trigger f(before[i])} :: 0 <= i < |before| ==> f(before[i]) == f(cs[i]);
      CollectDisjoint(f, before);
      assert cs == before + [last];
      SeparateAppend(f, before, last);
      if f(last) == [] {
        assert Collect(f, before) + [] == Collect(f, before);
      } else {
        var x := f(last)[0];
        assert f(last) == [x];
        DisjointAppend(Collect(f, before), x);
        CollectClear(f, before, x);
        forall i | 0 <= i < |before| ensures Separate(f(before[i]), f(last)) <==> ClearOfAll(x, f(before[i])) {
          SeparateIsClear(f(before[i]), x);
        }
      }
    }
  }

  lemma {:induction false} CollectNotEmpty(f: Command -> seq<Range>, cs: seq<Command>)
    requires forall i {:trigger f(cs[i])} :: 0 <= i < |cs| ==> NoneIsEmpty(f(cs[i]))
    ensures NoneIsEmpty(Collect(f, cs))
  {
    if cs != [] {
      var before := cs[..|cs| - 1];
      assert forall i {:trigger f(before[i])} :: 0 <= i < |before| ==> f(before[i]) == f(cs[i]);
      CollectNotEmpty(f, before);
    }
  }

  // ---------------------------------------------------------------------
  // What the lists say about commands
  // ---------------------------------------------------------------------

  lemma RangeIsInside(offset: nat, len: nat, start: nat, end: nat)
    ensures AllInside(RangeOf(offset, len), start, end) <==> RangeInside(offset, len, start, end)
  {
    var rs := RangeOf(offset, len);
    assert len != 0 ==> rs[0] == Range(offset, offset + len);
  }

  lemma TableIsInside(c: Command, t: Table, start: nat, end: nat)
    ensures AllInside(TableRange(c, t), start, end) <==> TableInside(c, t, start, end)
  {
    if t.offsetAt + 4 <= |c| && t.countAt + 4 <= |c| {
      RangeIsInside(Field(c, t.offsetAt, 4), Field(c, t.countAt, 4) * t.entryLen, start, end);
    }
  }

  lemma {:induction false} GatherInside(f: (Command, nat) -> seq<Range>, c: Command, n: nat, start: nat, end: nat)
    ensures AllInside(Gather(f, c, n), start, end) <==> forall j {:trigger f(c, j)} :: 0 <= j < n ==> AllInside(f(c, j), start, end)
  {
    if n > 0 {
      GatherInside(f, c, n - 1, start, end);
      InsideBoth(Gather(f, c, n - 1), f(c, n - 1), start, end);
    }
  }

  lemma TablesInside(c: Command, start: nat, end: nat)
    requires |c| >= 8
    ensures AllInside(Gather(TableAt, c, TableCount(c)), start, end)
            <==> forall i :: 0 <= i < |TablesOf(Kind(c))| ==> TableInside(c, TablesOf(Kind(c))[i], start, end)
  {
    GatherInside(TableAt, c, TableCount(c), start, end);
    forall i | 0 <= i < |TablesOf(Kind(c))|
      ensures AllInside(TableAt(c, i), start, end) <==> TableInside(c, TablesOf(Kind(c))[i], start, end)
    {
      TableIsInside(c, TablesOf(Kind(c))[i], start, end);
    }
  }

  lemma RelocationsInside(c: Command, start: nat, end: nat)
    requires HasSections(c)
    ensures AllInside(Gather(RelocationsAt, c, SectionCount(c)), start, end)
            <==> forall j :: 0 <= j < SectionCount(c) ==>
                   RangeInside(SectionAt(c, j).relocOffset, SectionAt(c, j).relocCount * 8, start, end)
  {
    GatherInside(RelocationsAt, c, SectionCount(c), start, end);
    forall j | 0 <= j < SectionCount(c)
      ensures AllInside(RelocationsAt(c, j), start, end)
              <==> RangeInside(SectionAt(c, j).relocOffset, SectionAt(c, j).relocCount * 8, start, end)
    {
      RangeIsInside(SectionAt(c, j).relocOffset, SectionAt(c, j).relocCount * 8, start, end);
    }
  }

  lemma SegmentReferences(c: Command, start: nat, end: nat)
    requires HasSections(c)
    ensures AllInside(References(c), start, end) <==> Covered(c, start, end)
  {
    RelocationsInside(c, start, end);
    assert TablesOf(Kind(c)) == [];
  }

  lemma OtherReferences(c: Command, start: nat, end: nat)
    requires |c| >= 8 && !HasSections(c)
    ensures AllInside(References(c), start, end) <==> Covered(c, start, end)
  {
    TablesInside(c, start, end);
  }

  lemma ReferencesInside(c: Command, start: nat, end: nat)
    ensures AllInside(References(c), start, end) <==> Covered(c, start, end)
  {
    if HasSections(c) {
      SegmentReferences(c, start, end);
    } else if |c| >= 8 {
      OtherReferences(c, start, end);
    }
  }

  lemma AllReferencesInside(cs: seq<Command>, start: nat, end: nat)
    ensures AllInside(ScanOf(cs).references, start, end) <==> AllCovered(cs, start, end)
  {
    CollectInside(References, cs, start, end);
    forall i | 0 <= i < |cs| ensures AllInside(References(cs[i]), start, end) <==> Covered(cs[i], start, end) {
      ReferencesInside(cs[i], start, end);
    }
  }

  /** Section `j` is executable and contains the offset. */
  predicate IsEnteredAt(c: Command, j: nat, at: nat)
    requires HasSections(c) && j < SectionCount(c)
  {
    HasBit(InitProt(c), EXECUTE) && SectionAt(c, j).InFile() && SectionAt(c, j).offset <= at < SectionAt(c, j).End()
  }

  predicate IsEntered(c: Command, at: nat) {
    HasSections(c) && exists j {:trigger IsEnteredAt(c, j, at)} :: 0 <= j < SectionCount(c) && IsEnteredAt(c, j, at)
  }

  lemma {:induction false} GatherMeets(f: (Command, nat) -> seq<Range>, c: Command, n: nat, at: nat)
    ensures Meets(Gather(f, c, n), at) <==> exists j {:trigger f(c, j)} :: 0 <= j < n && Meets(f(c, j), at)
  {
    if n > 0 {
      GatherMeets(f, c, n - 1, at);
      MeetsEither(Gather(f, c, n - 1), f(c, n - 1), at);
    }
  }

  lemma CodeMeets(c: Command, j: nat, at: nat)
    requires HasSections(c) && j < SectionCount(c)
    ensures Meets(CodeAt(c, j), at) <==> IsEnteredAt(c, j, at)
  {
    if CodeAt(c, j) != [] {
      assert CodeAt(c, j)[0] == Range(SectionAt(c, j).offset, SectionAt(c, j).End());
    }
  }

  lemma ExecutablesMeet(c: Command, at: nat)
    ensures Meets(Executables(c), at) <==> IsEntered(c, at)
  {
    if HasSections(c) {
      GatherMeets(CodeAt, c, SectionCount(c), at);
      forall j | 0 <= j < SectionCount(c) ensures Meets(CodeAt(c, j), at) <==> IsEnteredAt(c, j, at) {
        CodeMeets(c, j, at);
      }
    }
  }

  lemma SomeCommandIsEntered(cs: seq<Command>, at: nat)
    ensures Meets(ScanOf(cs).executable, at) <==> exists k {:trigger IsEntered(cs[k], at)} :: 0 <= k < |cs| && IsEntered(cs[k], at)
  {
    CollectMeets(Executables, cs, at);
    forall k | 0 <= k < |cs| ensures Meets(Executables(cs[k]), at) <==> IsEntered(cs[k], at) {
      ExecutablesMeet(cs[k], at);
    }
  }

  predicate NotBelow(start: Option<nat>, low: nat) {
    start.Some? ==> low <= start.value
  }

  /** Nothing in the file that belongs to a section starts before `low`. */
  predicate StartsBehind(c: Command, low: nat) {
    NotBelow(FirstOf(c), low)
  }

  lemma {:induction false} LeastDecides(f: (Command, nat) -> Option<nat>, c: Command, n: nat, low: nat)
    ensures NotBelow(Least(f, c, n), low) <==> forall j {:trigger f(c, j)} :: 0 <= j < n ==> NotBelow(f(c, j), low)
  {
    if n > 0 {
      LeastDecides(f, c, n - 1, low);
    }
  }

  lemma StartsBehindIff(c: Command, low: nat)
    requires HasSections(c)
    ensures StartsBehind(c, low)
            <==> forall j :: 0 <= j < SectionCount(c) && SectionAt(c, j).InFile() ==>
                   SectionAt(c, j).offset != 0 ==> low <= SectionAt(c, j).offset
  {
    LeastDecides(StartAt, c, SectionCount(c), low);
    forall j | 0 <= j < SectionCount(c)
      ensures NotBelow(StartAt(c, j), low)
              <==> (SectionAt(c, j).InFile() ==> SectionAt(c, j).offset != 0 ==> low <= SectionAt(c, j).offset)
    {
    }
  }

  /** The lowest offset stands for the offsets of all sections. */
  lemma {:induction false} FirstSectionDecides(cs: seq<Command>, low: nat)
    ensures NotBelow(FirstSection(cs), low) <==> forall i {:trigger FirstOf(cs[i])} :: 0 <= i < |cs| ==> NotBelow(FirstOf(cs[i]), low)
  {
    if cs != [] {
      var before := cs[..|cs| - 1];
      FirstSectionDecides(before, low);
      assert forall i {:trigger FirstOf(before[i])} :: 0 <= i < |before| ==> before[i] == cs[i];
      assert forall i {:trigger FirstOf(cs[i])} :: 0 <= i < |before| ==> before[i] == cs[i];
    }
  }

  lemma {:induction false} LeastIsSome(f: (Command, nat) -> Option<nat>, c: Command, n: nat)
    ensures Least(f, c, n).Some? <==> exists j {:trigger f(c, j)} :: 0 <= j < n && f(c, j).Some?
  {
    if n > 0 {
      LeastIsSome(f, c, n - 1);
    }
  }

  lemma {:induction false} FirstSectionIsSome(cs: seq<Command>)
    ensures FirstSection(cs).Some? <==> exists i {:trigger FirstOf(cs[i])} :: 0 <= i < |cs| && FirstOf(cs[i]).Some?
  {
    if cs != [] {
      var before := cs[..|cs| - 1];
      FirstSectionIsSome(before);
      assert forall i {:trigger FirstOf(before[i])} :: 0 <= i < |before| ==> before[i] == cs[i];
      assert forall i {:trigger FirstOf(cs[i])} :: 0 <= i < |before| ==> before[i] == cs[i];
    }
  }

  lemma SeparateIsApart(a: Command, b: Command)
    ensures Separate(FileRange(a), FileRange(b)) && Separate(AddressRange(a), AddressRange(b)) <==> Apart(a, b)
  {
  }

  predicate AllApart(cs: seq<Command>) {
    forall i, j {:trigger Apart(cs[i], cs[j])} :: 0 <= i < j < |cs| ==> Apart(cs[i], cs[j])
  }

  /** The comparisons of neighbours decide whether all segments are apart. */
  lemma NeighboursDecideApart(cs: seq<Command>)
    ensures AllApart(cs) <==> !Overlapping(Sort(ScanOf(cs).files)) && !Overlapping(Sort(ScanOf(cs).addresses))
  {
    CollectNotEmpty(FileRange, cs);
    CollectNotEmpty(AddressRange, cs);
    NeighboursDecide(ScanOf(cs).files);
    NeighboursDecide(ScanOf(cs).addresses);
    CollectDisjoint(FileRange, cs);
    CollectDisjoint(AddressRange, cs);
    SeparateAreApart(cs);
  }

  lemma SeparateAreApart(cs: seq<Command>)
    ensures AllApart(cs) <==> EachSeparate(FileRange, cs) && EachSeparate(AddressRange, cs)
  {
    if AllApart(cs) {
      forall i, j | 0 <= i < j < |cs| ensures Separate(FileRange(cs[i]), FileRange(cs[j])) && Separate(AddressRange(cs[i]), AddressRange(cs[j])) {
        assert Apart(cs[i], cs[j]);
        SeparateIsApart(cs[i], cs[j]);
      }
    } else {
      var i, j :| 0 <= i < j < |cs| && !Apart(cs[i], cs[j]);
      SeparateIsApart(cs[i], cs[j]);
    }
  }

  lemma {:induction false} HighestDecides(f: Command -> nat, cs: seq<Command>, bound: nat)
    ensures Highest(f, cs) <= bound <==> forall i {:trigger f(cs[i])} :: 0 <= i < |cs| ==> f(cs[i]) <= bound
  {
    if cs != [] {
      var before := cs[..|cs| - 1];
      HighestDecides(f, before, bound);
      assert forall i {:trigger f(before[i])} :: 0 <= i < |before| ==> f(before[i]) == f(cs[i]);
      assert forall i {:trigger f(cs[i])} :: 0 <= i < |before| ==> f(before[i]) == f(cs[i]);
    }
  }

  // ---------------------------------------------------------------------
  // Roles
  // ---------------------------------------------------------------------

  predicate RolesUnique(cs: seq<Command>) {
    forall i, j {:trigger RoleOf(cs[i]), RoleOf(cs[j])} :: 0 <= i < j < |cs| && RoleOf(cs[i]) == RoleOf(cs[j]) ==> RoleOf(cs[i]).Plain?
  }

  lemma CompatibleIff(cs: seq<Command>)
    ensures AllCompatible(cs) <==> AllApart(cs) && RolesUnique(cs)
  {
    if AllCompatible(cs) {
      forall i, j | 0 <= i < j < |cs| ensures Apart(cs[i], cs[j]) && (RoleOf(cs[i]) == RoleOf(cs[j]) ==> RoleOf(cs[i]).Plain?) {
        assert Compatible(cs[i], cs[j]);
      }
    } else {
      var i, j :| 0 <= i < j < |cs| && !Compatible(cs[i], cs[j]);
      assert !Apart(cs[i], cs[j]) || (RoleOf(cs[i]) == RoleOf(cs[j]) && !RoleOf(cs[i]).Plain?);
    }
  }

  lemma {:induction false} CountIsPositive(cs: seq<Command>, role: Role, i: nat)
    requires i < |cs| && RoleOf(cs[i]) == role
    ensures Count(cs, role) > 0
  {
    if i < |cs| - 1 {
      CountIsPositive(cs[..|cs| - 1], role, i);
    }
  }

  lemma {:induction false} CountOfTwo(cs: seq<Command>, role: Role, i: nat, j: nat)
    requires i < j < |cs| && RoleOf(cs[i]) == RoleOf(cs[j]) == role
    ensures Count(cs, role) > 1
  {
    if j < |cs| - 1 {
      CountOfTwo(cs[..|cs| - 1], role, i, j);
    } else {
      CountIsPositive(cs[..|cs| - 1], role, i);
    }
  }

  lemma {:induction false} CountedIsThere(cs: seq<Command>, role: Role)
    requires Count(cs, role) > 0
    ensures HasRole(cs, role)
  {
    var last := |cs| - 1;
    if RoleOf(cs[last]) != role {
      CountedIsThere(cs[..last], role);
      var i :| 0 <= i < last && RoleOf(cs[..last][i]) == role;
      assert RoleOf(cs[i]) == role;
    }
  }

  lemma {:induction false} CountedTwice(cs: seq<Command>, role: Role)
    requires Count(cs, role) > 1
    ensures exists i, j {:trigger RoleOf(cs[i]), RoleOf(cs[j])} :: 0 <= i < j < |cs| && RoleOf(cs[i]) == RoleOf(cs[j]) == role
  {
    var last := |cs| - 1;
    if RoleOf(cs[last]) == role {
      CountedIsThere(cs[..last], role);
      var i :| 0 <= i < last && RoleOf(cs[..last][i]) == role;
      assert RoleOf(cs[i]) == role;
    } else {
      CountedTwice(cs[..last], role);
      var i, j :| 0 <= i < j < last && RoleOf(cs[..last][i]) == RoleOf(cs[..last][j]) == role;
      assert RoleOf(cs[i]) == RoleOf(cs[j]) == role;
    }
  }

  // ---------------------------------------------------------------------
  // The pass over the commands
  // ---------------------------------------------------------------------

  /** What the file leaves for a segment, without the starts of its sections. */
  predicate Fits(c: Command, tableEnd: nat, fileLen: nat) {
    HasSections(c) ==>
      && FileEnd(c) <= fileLen && (IsText(c) ==> tableEnd <= FileEnd(c))
      && forall j :: 0 <= j < SectionCount(c) && SectionAt(c, j).InFile() ==> SectionAt(c, j).End() <= fileLen
  }

  lemma PlacedIff(c: Command, tableEnd: nat, fileLen: nat)
    ensures Placed(c, tableEnd, fileLen) <==> Fits(c, tableEnd, fileLen) && NotBelow(FirstOf(c), tableEnd)
  {
    if HasSections(c) {
      StartsBehindIff(c, tableEnd);
    }
  }

  lemma SectionsPassIff(c: Command, fileLen: nat)
    requires HasSections(c)
    ensures SectionsPass(c, SectionCount(c), fileLen)
            <==> && (forall j :: 0 <= j < SectionCount(c) ==> SectionOk(c, SectionAt(c, j)))
                 && (forall i, j :: 0 <= i < j < SectionCount(c) ==>
                       !(SectionAt(c, i).sectionName == CAPABILITY && SectionAt(c, j).sectionName == CAPABILITY))
                 && (forall j :: 0 <= j < SectionCount(c) && SectionAt(c, j).InFile() ==> SectionAt(c, j).End() <= fileLen)
  {
    forall j | 0 <= j < SectionCount(c)
      ensures SectionPasses(c, j, fileLen)
              <==> SectionOk(c, SectionAt(c, j)) && (SectionAt(c, j).InFile() ==> SectionAt(c, j).End() <= fileLen)
    {
    }
    forall j | 0 <= j < SectionCount(c) ensures IsCapability(c, j) <==> SectionAt(c, j).sectionName == CAPABILITY {
    }
  }

  lemma PassesIff(c: Command, tableEnd: nat, fileLen: nat, st: Scan)
    ensures Passes(c, tableEnd, fileLen, st) <==> CommandOk(c) && Fits(c, tableEnd, fileLen) && !Repeats(c, st)
  {
    if HasSections(c) {
      SectionsPassIff(c, fileLen);
    }
  }

  predicate PassedAt(cs: seq<Command>, k: nat, fileLen: nat)
    requires k < |cs|
  {
    Passes(cs[k], TableEnd(cs), fileLen, ScanOf(cs[..k]))
  }

  predicate AllPass(cs: seq<Command>, n: nat, fileLen: nat)
    requires n <= |cs|
  {
    forall k {:trigger PassedAt(cs, k, fileLen)} :: 0 <= k < n ==> PassedAt(cs, k, fileLen)
  }

  lemma ScanOfMore(cs: seq<Command>, k: nat)
    requires k < |cs|
    ensures ScanOf(cs[..k + 1]) == Next(ScanOf(cs[..k]), cs[k], k)
  {
    assert cs[..k + 1] == cs[..k] + [cs[k]];
    ScanNext(cs[..k], cs[k]);
  }

  /** One turn of the loop, on command number `k`. */
  method ScanOne(cs: seq<Command>, k: nat, fileLen: nat, st: Scan) returns (next: Option<Scan>)
    requires k < |cs| && |cs[k]| >= 8 && Field(cs[k], 4, 4) == |cs[k]| && st == ScanOf(cs[..k])
    ensures next.Some? <==> PassedAt(cs, k, fileLen)
    ensures next.Some? ==> next.value == ScanOf(cs[..k + 1])
  {
    ScanOfMore(cs, k);
    next := CheckCommand(cs[k], k, TableEnd(cs), fileLen, st);
  }

  /** The `while` loop over the load commands. */
  method ScanCommands(cs: seq<Command>, fileLen: nat) returns (r: Option<Scan>)
    requires AllSized(cs)
    ensures r.Some? <==> AllPass(cs, |cs|, fileLen)
    ensures r.Some? ==> r.value == ScanOf(cs)
  {
    var st := Scan([], [], [], [], None, 0, 0, None, None, None, false, 0, 0, false);
    for k := 0 to |cs|
      invariant AllPass(cs, k, fileLen) && st == ScanOf(cs[..k])
    {
      var next := ScanOne(cs, k, fileLen, st);
      if next.None? { return None; }
      st := next.value;
    }
    assert cs[..|cs|] == cs;
    r := Some(st);
  }

  lemma SeenRepeats(before: seq<Command>, c: Command)
    requires FindRole(before, RoleOf(c)).Some? && RoleOf(c) !in {Plain, Text, Dylinker}
    ensures Repeats(c, ScanOf(before))
  {
  }

  lemma RoleIsFound(cs: seq<Command>, i: nat, j: nat)
    requires i < j <= |cs|
    ensures FindRole(cs[..j], RoleOf(cs[i])).Some?
  {
    assert RoleOf(cs[..j][i]) == RoleOf(cs[i]);
  }

  lemma PassedOnce(cs: seq<Command>, k: nat, fileLen: nat)
    requires AllPass(cs, |cs|, fileLen) && k < |cs|
    ensures !Repeats(cs[k], ScanOf(cs[..k]))
  {
    assert PassedAt(cs, k, fileLen);
  }

  lemma PassedOnlyOnce(cs: seq<Command>, fileLen: nat, i: nat, j: nat)
    requires AllPass(cs, |cs|, fileLen) && i < j < |cs| && RoleOf(cs[i]) == RoleOf(cs[j])
    ensures RoleOf(cs[j]) in {Plain, Text, Dylinker}
  {
    RoleIsFound(cs, i, j);
    if RoleOf(cs[j]) !in {Plain, Text, Dylinker} {
      SeenRepeats(cs[..j], cs[j]);
      PassedOnce(cs, j, fileLen);
    }
  }

  /** The roles that the loop allows to appear again are `roles`. */
  predicate RepeatedAre(cs: seq<Command>, roles: set<Role>) {
    forall i, j {:trigger RoleOf(cs[i]), RoleOf(cs[j])} :: 0 <= i < j < |cs| && RoleOf(cs[i]) == RoleOf(cs[j]) ==> RoleOf(cs[j]) in roles
  }

  lemma PassedRepeat(cs: seq<Command>, fileLen: nat)
    requires AllPass(cs, |cs|, fileLen)
    ensures RepeatedAre(cs, {Plain, Text, Dylinker})
  {
    forall i, j | 0 <= i < j < |cs| && RoleOf(cs[i]) == RoleOf(cs[j]) ensures RoleOf(cs[j]) in {Plain, Text, Dylinker} {
      PassedOnlyOnce(cs, fileLen, i, j);
    }
  }

  lemma CountedOnce(cs: seq<Command>, role: Role, i: nat, j: nat)
    requires Count(cs, role) <= 1 && i < j < |cs|
    ensures !(RoleOf(cs[i]) == RoleOf(cs[j]) == role)
  {
    if RoleOf(cs[i]) == RoleOf(cs[j]) == role {
      CountOfTwo(cs, role, i, j);
    }
  }

  lemma RepeatedAreUnique(cs: seq<Command>)
    requires RepeatedAre(cs, {Plain, Text, Dylinker}) && Count(cs, Text) <= 1 && Count(cs, Dylinker) <= 1
    ensures RolesUnique(cs)
  {
    forall i, j | 0 <= i < j < |cs| && RoleOf(cs[i]) == RoleOf(cs[j]) ensures RoleOf(cs[i]).Plain? {
      CountedOnce(cs, Text, i, j);
      CountedOnce(cs, Dylinker, i, j);
    }
  }

  lemma CapabilityIsText(c: Command)
    requires CommandOk(c) && HasCapability(c)
    ensures RoleOf(c) == Text
  {
    var j :| 0 <= j < SectionCount(c) && IsCapability(c, j);
    assert SectionOk(c, SectionAt(c, j));
  }

  /** A role that command number `k` has was not seen before it. */
  lemma NotSeenBefore(cs: seq<Command>, k: nat, role: Role)
    requires RolesUnique(cs) && k < |cs| && RoleOf(cs[k]) == role != Plain
    ensures FindRole(cs[..k], role).None? && Count(cs[..k], role) == 0
  {
    forall i | 0 <= i < k ensures RoleOf(cs[..k][i]) != role {
      assert cs[..k][i] == cs[i];
    }
    if Count(cs[..k], role) > 0 {
      CountedIsThere(cs[..k], role);
    }
  }

  lemma NoCapabilityBefore(cs: seq<Command>, k: nat)
    requires AllOk(cs) && RolesUnique(cs) && k < |cs| && HasCapability(cs[k])
    ensures !AnyCapability(cs[..k])
  {
    assert CommandOk(cs[k]);
    CapabilityIsText(cs[k]);
    forall i | 0 <= i < k ensures !HasCapability(cs[..k][i]) {
      assert cs[..k][i] == cs[i] && CommandOk(cs[i]) && RoleOf(cs[i]) != Text;
      if HasCapability(cs[i]) {
        CapabilityIsText(cs[i]);
      }
    }
  }

  lemma UniqueRolesDoNotRepeat(cs: seq<Command>, k: nat)
    requires AllOk(cs) && RolesUnique(cs) && k < |cs|
    ensures !Repeats(cs[k], ScanOf(cs[..k]))
  {
    if RoleOf(cs[k]) != Plain {
      NotSeenBefore(cs, k, RoleOf(cs[k]));
    }
    if HasCapability(cs[k]) {
      NoCapabilityBefore(cs, k);
    }
  }

  // ---------------------------------------------------------------------
  // The conclusions
  // ---------------------------------------------------------------------

  /** The tests behind the loop, except those of the references. */
  predicate Concludes(st: Scan, tableEnd: nat) {
    && st.platform && st.texts == 1 && st.dylinkers == 1
    && st.entry.Some? && Meets(st.executable, st.entry.value)
    && !Overlapping(Sort(st.files)) && !Overlapping(Sort(st.addresses))
    && st.linkedit.Some? && NotBelow(st.firstSection, tableEnd)
  }

  lemma EntersIff(entry: Command, c: Command)
    requires RoleOf(entry).Entry? && |entry| == 24
    ensures EntersCommand(entry, c) <==> IsEntered(c, Field(entry, 8, 8))
  {
    if HasSections(c) {
      forall j | 0 <= j < SectionCount(c) ensures EntersAt(entry, c, j) <==> IsEnteredAt(c, j, Field(entry, 8, 8)) {
      }
    }
  }

  lemma HasEntryIff(cs: seq<Command>, e: nat)
    requires RolesUnique(cs) && e < |cs| && RoleOf(cs[e]).Entry? && |cs[e]| == 24
    ensures HasEntry(cs) <==> Meets(ScanOf(cs).executable, Field(cs[e], 8, 8))
  {
    var at := Field(cs[e], 8, 8);
    SomeCommandIsEntered(cs, at);
    forall k | 0 <= k < |cs| ensures EntersCommand(cs[e], cs[k]) <==> IsEntered(cs[k], at) {
      EntersIff(cs[e], cs[k]);
    }
    assert EntersSome(cs[e], cs) <==> Meets(ScanOf(cs).executable, at);
    if HasEntry(cs) {
      var i :| 0 <= i < |cs| && EntersSome(cs[i], cs);
      assert RoleOf(cs[i]).Entry?;
      assert i == e;
    }
  }

  lemma EntryLen(c: Command)
    requires CommandOk(c) && RoleOf(c).Entry?
    ensures |c| == 24 && EntryOffset(c) == Field(c, 8, 8)
  {
  }

  predicate HasRequired(cs: seq<Command>) {
    forall role {:trigger HasRole(cs, role)} :: role in REQUIRED ==> HasRole(cs, role)
  }

  lemma RequiredIff(cs: seq<Command>)
    ensures HasRequired(cs)
            <==> FindRole(cs, Platform).Some? && Count(cs, Text) > 0 && Count(cs, Dylinker) > 0
                 && FindRole(cs, Linkedit).Some? && FindRole(cs, Entry).Some?
  {
    RolePresent(cs, Platform);
    RolePresent(cs, Linkedit);
    RolePresent(cs, Entry);
    RolePresent(cs, Text);
    RolePresent(cs, Dylinker);
  }

  lemma EntryIff(cs: seq<Command>)
    requires AllOk(cs) && RolesUnique(cs) && FindRole(cs, Entry).Some?
    ensures ScanOf(cs).entry.Some? && (HasEntry(cs) <==> Meets(ScanOf(cs).executable, ScanOf(cs).entry.value))
  {
    var e := FindRole(cs, Entry).value;
    assert CommandOk(cs[e]);
    EntryLen(cs[e]);
    HasEntryIff(cs, e);
  }

  /** With unique roles, the flags and counts say which roles there are. */
  lemma CompleteIff(cs: seq<Command>)
    requires AllOk(cs) && RolesUnique(cs)
    ensures Complete(cs)
            <==> var st := ScanOf(cs);
                 && st.platform && st.texts > 0 && st.dylinkers > 0 && st.linkedit.Some?
                 && st.entry.Some? && Meets(st.executable, st.entry.value)
  {
    RequiredIff(cs);
    if FindRole(cs, Entry).Some? {
      EntryIff(cs);
    }
    assert Complete(cs) <==> HasRequired(cs) && HasEntry(cs);
  }

  lemma RolePresent(cs: seq<Command>, role: Role)
    ensures HasRole(cs, role) <==> FindRole(cs, role).Some?
    ensures HasRole(cs, role) <==> Count(cs, role) > 0
  {
    if i :| 0 <= i < |cs| && RoleOf(cs[i]) == role {
      CountIsPositive(cs, role, i);
    }
    if Count(cs, role) > 0 {
      CountedIsThere(cs, role);
    }
  }

  lemma CountsAreOne(cs: seq<Command>, role: Role)
    requires RolesUnique(cs) && role != Plain
    ensures Count(cs, role) <= 1
  {
    if Count(cs, role) > 1 {
      CountedTwice(cs, role);
    }
  }

  /** The pass and its conclusions accept exactly the structured tables. */
  lemma StructuredIff(cs: seq<Command>, fileLen: nat)
    ensures AllPass(cs, |cs|, fileLen) && Concludes(ScanOf(cs), TableEnd(cs)) <==> Structured(cs) && AllPlaced(cs, fileLen)
  {
    NeighboursDecideApart(cs);
    CompatibleIff(cs);
    PlacementIff(cs, fileLen);
    if AllPass(cs, |cs|, fileLen) && Concludes(ScanOf(cs), TableEnd(cs)) {
      PassedRepeat(cs, fileLen);
      RepeatedAreUnique(cs);
      PassedAreOk(cs, fileLen);
      CompleteIff(cs);
    }
    if Structured(cs) && AllPlaced(cs, fileLen) {
      CountsAreOne(cs, Text);
      CountsAreOne(cs, Dylinker);
      CompleteIff(cs);
      OkCommandsPass(cs, fileLen);
    }
  }

  predicate AllFit(cs: seq<Command>, fileLen: nat) {
    forall i {:trigger Fits(cs[i], TableEnd(cs), fileLen)} :: 0 <= i < |cs| ==> Fits(cs[i], TableEnd(cs), fileLen)
  }

  lemma PlacementIff(cs: seq<Command>, fileLen: nat)
    ensures AllPlaced(cs, fileLen) <==> AllFit(cs, fileLen) && NotBelow(FirstSection(cs), TableEnd(cs))
  {
    FirstSectionDecides(cs, TableEnd(cs));
    forall i | 0 <= i < |cs|
      ensures Placed(cs[i], TableEnd(cs), fileLen) <==> Fits(cs[i], TableEnd(cs), fileLen) && NotBelow(FirstOf(cs[i]), TableEnd(cs))
    {
      PlacedIff(cs[i], TableEnd(cs), fileLen);
    }
  }

  lemma PassedAreOk(cs: seq<Command>, fileLen: nat)
    requires AllPass(cs, |cs|, fileLen)
    ensures AllOk(cs) && AllFit(cs, fileLen)
  {
    forall k | 0 <= k < |cs| ensures CommandOk(cs[k]) && Fits(cs[k], TableEnd(cs), fileLen) {
      assert PassedAt(cs, k, fileLen);
      PassesIff(cs[k], TableEnd(cs), fileLen, ScanOf(cs[..k]));
    }
  }

  lemma OkCommandsPass(cs: seq<Command>, fileLen: nat)
    requires AllOk(cs) && AllFit(cs, fileLen) && RolesUnique(cs)
    ensures AllPass(cs, |cs|, fileLen)
  {
    forall k | 0 <= k < |cs| ensures PassedAt(cs, k, fileLen) {
      assert CommandOk(cs[k]) && Fits(cs[k], TableEnd(cs), fileLen);
      UniqueRolesDoNotRepeat(cs, k);
      PassesIff(cs[k], TableEnd(cs), fileLen, ScanOf(cs[..k]));
    }
  }

  // ---------------------------------------------------------------------
  // The whole check
  // ---------------------------------------------------------------------

  function MaxEnd(rs: seq<Range>): nat {
    if rs == [] then 0 else Max(MaxEnd(rs[..|rs| - 1]), rs[|rs| - 1].end)
  }

  lemma {:induction false} MaxEndDecides(rs: seq<Range>, bound: nat)
    ensures MaxEnd(rs) <= bound <==> AllInside(rs, 0, bound)
  {
    if rs != [] {
      var before := rs[..|rs| - 1];
      MaxEndDecides(before, bound);
      assert rs == before + [rs[|rs| - 1]];
      InsideBoth(before, [rs[|rs| - 1]], 0, bound);
      assert [rs[|rs| - 1]][0] == rs[|rs| - 1];
    }
  }

  lemma AllInsideNext(rs: seq<Range>, n: nat, start: nat, end: nat)
    requires n < |rs|
    ensures AllInside(rs[..n + 1], start, end) <==> AllInside(rs[..n], start, end) && start <= rs[n].start && rs[n].end <= end
  {
    assert rs[..n + 1] == rs[..n] + [rs[n]];
    InsideBoth(rs[..n], [rs[n]], start, end);
    assert [rs[n]][0] == rs[n];
  }

  /** The loop over the references. */
  method CheckReferences(rs: seq<Range>, start: nat, end: nat, fileLen: nat) returns (r: Option<nat>)
    requires end <= fileLen
    ensures r.Some? <==> AllInside(rs, start, end)
    ensures r.Some? ==> r.value == MaxEnd(rs)
  {
    var max := 0;
    for k := 0 to |rs|
      invariant AllInside(rs[..k], start, end) && max == MaxEnd(rs[..k])
    {
      if rs[k].end > fileLen || rs[k].start < start || rs[k].end > end { return None; }
      AllInsideNext(rs, k, start, end);
      assert rs[..k + 1][..k] == rs[..k];
      max := Max(max, rs[k].end);
    }
    assert rs[..|rs|] == rs;
    r := Some(max);
  }

  /** What `read_macho_layout` returns, as far as the other operations use it. */
  datatype Layout = Layout(linkedit: nat, maxVmAddr: nat, maxFileOff: nat, maxDataEnd: nat, signature: Option<nat>, firstSection: Option<nat>)

  function LayoutOf(cs: seq<Command>, m: nat): Layout {
    var st := ScanOf(cs);
    Layout(m, st.maxVmAddr, st.maxFileOff, MaxEnd(st.references), st.signature, st.firstSection)
  }

  lemma {:induction false} LeastIsOne(f: (Command, nat) -> Option<nat>, c: Command, n: nat) returns (j: nat)
    requires Least(f, c, n).Some?
    ensures j < n && f(c, j) == Least(f, c, n)
  {
    j := n - 1;
    if Least(f, c, n) != f(c, n - 1) {
      j := LeastIsOne(f, c, n - 1);
    }
  }

  lemma StartFits(c: Command, j: nat, tableEnd: nat, fileLen: nat)
    requires Fits(c, tableEnd, fileLen) && StartAt(c, j).Some?
    ensures StartAt(c, j).value <= fileLen
  {
    assert SectionAt(c, j).InFile() ==> SectionAt(c, j).End() <= fileLen;
  }

  lemma {:induction false} FirstSectionFits(cs: seq<Command>, tableEnd: nat, fileLen: nat)
    requires forall i {:trigger Fits(cs[i], tableEnd, fileLen)} :: 0 <= i < |cs| ==> Fits(cs[i], tableEnd, fileLen)
    ensures FirstSection(cs).Some? ==> FirstSection(cs).value <= fileLen
  {
    if cs != [] {
      var before, last := cs[..|cs| - 1], cs[|cs| - 1];
      forall i | 0 <= i < |before| ensures Fits(before[i], tableEnd, fileLen) {
        assert Fits(cs[i], tableEnd, fileLen);
      }
      FirstSectionFits(before, tableEnd, fileLen);
      assert Fits(last, tableEnd, fileLen);
      if FirstOf(last).Some? {
        var j := LeastIsOne(StartAt, last, SectionCount(last));
        StartFits(last, j, tableEnd, fileLen);
      }
    }
  }

  /** Every test of `read_macho_layout`. */
  predicate PassesAll(cs: seq<Command>, fileLen: nat, m: nat) {
    && AllPass(cs, |cs|, fileLen) && Concludes(ScanOf(cs), TableEnd(cs)) && ScanOf(cs).linkedit == Some(m)
    && AllInside(ScanOf(cs).references, OffsetOf(cs[m]), LinkeditEnd(cs[m]))
  }

  function LinkeditEnd(c: Command): nat {
    if IsSegment(c) then FileEnd(c) else 0
  }

  lemma RoleIsLinkedit(c: Command)
    requires RoleOf(c) == Linkedit
    ensures IsLinkedit(c)
  {
  }

  lemma LinkeditIff(cs: seq<Command>, m: nat)
    requires AllCompatible(cs)
    ensures m < |cs| && IsLinkedit(cs[m]) <==> FindRole(cs, Linkedit) == Some(m)
  {
    if FindRole(cs, Linkedit) == Some(m) {
      RoleIsLinkedit(cs[m]);
    } else if m < |cs| && IsLinkedit(cs[m]) {
      RoleOfLinkedit(cs[m]);
      RoleIsUnique(cs, FindRole(cs, Linkedit).value, m);
    }
  }

  lemma LayoutPasses(cs: seq<Command>, fileLen: nat, m: nat)
    requires LayoutOk(cs, fileLen, m)
    ensures PassesAll(cs, fileLen, m)
  {
    StructuredIff(cs, fileLen);
    LinkeditIff(cs, m);
    AllReferencesInside(cs, FileOff(cs[m]), FileEnd(cs[m]));
  }

  lemma PassingIsLayout(cs: seq<Command>, fileLen: nat, m: nat)
    requires TableEnd(cs) <= fileLen && |Concat(cs)| <= MAX_TABLE_LEN && PassesAll(cs, fileLen, m)
    ensures LayoutOk(cs, fileLen, m)
  {
    StructuredIff(cs, fileLen);
    LinkeditIff(cs, m);
    AllReferencesInside(cs, FileOff(cs[m]), FileEnd(cs[m]));
  }

  /** The tests decide exactly what `LayoutOk` declares. */
  lemma LayoutOkIff(cs: seq<Command>, fileLen: nat, m: nat)
    requires TableEnd(cs) <= fileLen && |Concat(cs)| <= MAX_TABLE_LEN
    ensures LayoutOk(cs, fileLen, m) <==> PassesAll(cs, fileLen, m)
  {
    if LayoutOk(cs, fileLen, m) {
      LayoutPasses(cs, fileLen, m);
    }
    if PassesAll(cs, fileLen, m) {
      PassingIsLayout(cs, fileLen, m);
    }
  }

  /** The tests behind the loop, except those of the references. */
  method Conclude(st: Scan, tableEnd: nat, ghost cs: seq<Command>, fileLen: nat) returns (ok: bool)
    requires AllPass(cs, |cs|, fileLen) && st == ScanOf(cs) && tableEnd == TableEnd(cs)
    ensures ok <==> Concludes(st, tableEnd)
  {
    if !st.platform { return false; }
    if st.texts != 1 { return false; }
    if st.dylinkers != 1 { return false; }
    if st.entry.None? || !Meets(st.executable, st.entry.value) { return false; }
    if Overlapping(Sort(st.files)) { return false; }
    if Overlapping(Sort(st.addresses)) { return false; }
    if st.linkedit.None? { return false; }
    PassedAreOk(cs, fileLen);
    FirstSectionFits(cs, TableEnd(cs), fileLen);
    if st.firstSection.Some? && (st.firstSection.value < tableEnd || st.firstSection.value > fileLen) { return false; }
    ok := true;
  }

  lemma FoundLinkedit(cs: seq<Command>, m: nat, fileLen: nat)
    requires AllPass(cs, |cs|, fileLen) && ScanOf(cs).linkedit == Some(m)
    ensures m < |cs| && IsLinkedit(cs[m]) && FileEnd(cs[m]) <= fileLen
  {
    PassedAreOk(cs, fileLen);
    assert CommandOk(cs[m]) && Fits(cs[m], TableEnd(cs), fileLen);
  }

  /** `read_macho_layout`, for the load commands that the header counts. */
  method ReadLayout(cs: seq<Command>, fileLen: nat) returns (r: Option<Layout>)
    requires AllSized(cs)
    requires TableEnd(cs) <= fileLen && |Concat(cs)| <= MAX_TABLE_LEN
    ensures r.Some? <==> exists m :: LayoutOk(cs, fileLen, m)
    ensures r.Some? ==> LayoutOk(cs, fileLen, r.value.linkedit) && r.value == LayoutOf(cs, r.value.linkedit)
  {
    forall m: nat ensures LayoutOk(cs, fileLen, m) <==> PassesAll(cs, fileLen, m) {
      LayoutOkIff(cs, fileLen, m);
    }
    r := TestLayout(cs, fileLen);
    if r.Some? {
      assert LayoutOk(cs, fileLen, r.value.linkedit);
    }
  }

  method TestLayout(cs: seq<Command>, fileLen: nat) returns (r: Option<Layout>)
    requires AllSized(cs)
    ensures r.None? ==> forall m: nat :: !PassesAll(cs, fileLen, m)
    ensures r.Some? ==> PassesAll(cs, fileLen, r.value.linkedit) && r.value == LayoutOf(cs, r.value.linkedit)
  {
    var scanned := ScanCommands(cs, fileLen);
    if scanned.None? { return None; }
    var st := scanned.value;
    var ok := Conclude(st, TableEnd(cs), cs, fileLen);
    if !ok { return None; }
    var m := st.linkedit.value;
    FoundLinkedit(cs, m, fileLen);
    var dataEnd := CheckReferences(st.references, FileOff(cs[m]), FileEnd(cs[m]), fileLen);
    if dataEnd.None? { return None; }
    r := Some(Layout(m, st.maxVmAddr, st.maxFileOff, dataEnd.value, st.signature, st.firstSection));
  }

  // ---------------------------------------------------------------------
  // The final layout
  // ---------------------------------------------------------------------

  /** The maxima decide whether `__LINKEDIT` is last. */
  lemma BelowIff(cs: seq<Command>, m: nat)
    requires m < |cs| && IsSegment(cs[m])
    ensures AllBelow(cs, cs[m]) <==> FileOff(cs[m]) == Highest(OffsetOf, cs) && VmAddr(cs[m]) == Highest(AddressOf, cs)
  {
    HighestDecides(OffsetOf, cs, FileOff(cs[m]));
    HighestDecides(AddressOf, cs, VmAddr(cs[m]));
    HighestDecides(OffsetOf, cs, Highest(OffsetOf, cs));
    HighestDecides(AddressOf, cs, Highest(AddressOf, cs));
    assert OffsetOf(cs[m]) == FileOff(cs[m]) && AddressOf(cs[m]) == VmAddr(cs[m]);
    forall i | 0 <= i < |cs|
      ensures IsBelow(cs[i], cs[m]) <==> OffsetOf(cs[i]) <= FileOff(cs[m]) && AddressOf(cs[i]) <= VmAddr(cs[m])
    {
    }
  }

  /** The only signature is the one that was found. */
  lemma FoundSignature(cs: seq<Command>, k: nat)
    requires AllCompatible(cs) && k < |cs| && IsSignature(cs[k])
    ensures FindRole(cs, Signature) == Some(k)
  {
    assert RoleOf(cs[k]) == Signature;
    RoleIsUnique(cs, FindRole(cs, Signature).value, k);
  }

  lemma SignatureIs(c: Command)
    requires RoleOf(c) == Signature
    ensures IsSignature(c)
  {
  }

  /** The test of the signature. */
  method CheckSignature(cs: seq<Command>, k: nat, m: nat, dataEnd: nat, fileLen: nat) returns (ok: bool)
    requires m < |cs| && IsSegment(cs[m]) && k < |cs| && IsSignature(cs[k]) && dataEnd == MaxEnd(ScanOf(cs).references)
    ensures ok <==> SignatureOk(cs, fileLen, m, k)
  {
    var offset, size := DataOff(cs[k]), DataSize(cs[k]);
    AllReferencesInside(cs, 0, offset);
    MaxEndDecides(ScanOf(cs).references, offset);
    if size == 0 { return false; }
    if offset + size != fileLen { return false; }
    if offset < FileOff(cs[m]) { return false; }
    if offset < TableEnd(cs) { return false; }
    if offset % SIGNATURE_ALIGNMENT != 0 { return false; }
    ok := offset >= dataEnd;
  }

  /** `validate_macho_final_layout`. */
  method ValidateFinalLayout(cs: seq<Command>, l: Layout, fileLen: nat) returns (ok: bool)
    requires LayoutOk(cs, fileLen, l.linkedit) && l == LayoutOf(cs, l.linkedit)
    ensures ok <==> FinalOk(cs, fileLen, l.linkedit)
  {
    var c := cs[l.linkedit];
    BelowIff(cs, l.linkedit);
    forall k | 0 <= k < |cs| && IsSignature(cs[k]) ensures l.signature == Some(k) {
      FoundSignature(cs, k);
    }
    if FileEnd(c) != fileLen || FileOff(c) != l.maxFileOff || VmAddr(c) != l.maxVmAddr { return false; }
    if FileOff(c) < TableEnd(cs) { return false; }
    if l.signature.Some? {
      SignatureIs(cs[l.signature.value]);
      ok := CheckSignature(cs, l.signature.value, l.linkedit, l.maxDataEnd, fileLen);
    } else {
      ok := true;
    }
  }

  // ---------------------------------------------------------------------
  // Files
  // ---------------------------------------------------------------------

  /** The tests of the header. The source lets other processors pass here and refuses them later. */
  method CheckHeader(h: seq<byte>) returns (ok: bool)
    requires |h| == HEADER_LEN
    ensures ok <==> HeaderOk(h)
  {
    if h[..4] != MAGIC_64 { return false; }
    if Field(h, 12, 4) != MH_EXECUTE { return false; }
    var flags := Field(h, 24, 4);
    if !(HasBit(flags, MH_DYLDLINK) && HasBit(flags, MH_PIE)) || HasBit(flags, MH_ALLOW_STACK_EXECUTION) { return false; }
    var cpu, subtype := Field(h, 4, 4), Field(h, 8, 4);
    ok := (cpu == CPU_X86_64 && subtype == 3) || (cpu == CPU_ARM64 && subtype == 0);
  }

  /** Both checks of a file that has been parsed: the number of the `__LINKEDIT` command, if the file is accepted. */
  method CheckImage(ghost file: seq<byte>, img: Image) returns (r: Option<nat>)
    requires ParseImage(file) == Some(img)
    ensures r.Some? <==> Accepted(img)
    ensures r.Some? ==> AcceptedAt(img, r.value)
  {
    ParsedFacts(file);
    var ok := CheckHeader(img.header);
    if !ok { return None; }
    var layout := ReadLayout(img.commands, |img.Bytes()|);
    if layout.None? { return None; }
    var final := ValidateFinalLayout(img.commands, layout.value, |img.Bytes()|);
    if !final {
      OtherLinkedit(img, layout.value.linkedit);
      return None;
    }
    assert AcceptedAt(img, layout.value.linkedit);
    r := Some(layout.value.linkedit);
  }

  lemma OtherLinkedit(img: Image, m: nat)
    requires LayoutOk(img.commands, |img.Bytes()|, m) && !FinalOk(img.commands, |img.Bytes()|, m)
    ensures !Accepted(img)
  {
    if n :| AcceptedAt(img, n) {
      LinkeditIff(img.commands, m);
      LinkeditIff(img.commands, n);
    }
  }
}
