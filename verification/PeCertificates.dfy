/** The attribute certificate table of a signed PE image, as `validate_pe_certificate_table` in
    `src/runtime_data.rs` reads it (Microsoft PE Format, "The Attribute Certificate Table (Image Only)"). */
module PeCertificates {
  import opened Wrappers
  import opened Bytes

  const CERTIFICATE_ALIGNMENT := 8
  const MAX_ENTRIES := 1024

  /** The declared length of the entry at `at`, from its first four bytes. */
  function EntryLen(t: seq<byte>, at: nat): nat
    requires at + 4 <= |t|
  {
    FromLe(t[at..at + 4])
  }

  /** An entry starts at `at` and the next one, or the end of the entries, is at `next`. */
  predicate EntrySpans(t: seq<byte>, at: nat, next: nat) {
    && at + 8 <= |t|
    && EntryLen(t, at) >= 8
    && next == at + AlignUp(EntryLen(t, at), CERTIFICATE_ALIGNMENT)
  }

  /** `cuts` are the positions at which entries start, from the first one on. */
  ghost predicate Chain(t: seq<byte>, cuts: seq<nat>) {
    && cuts != [] && cuts[0] == 0
    && forall i {:trigger cuts[i]} :: 0 <= i < |cuts| - 1 ==> EntrySpans(t, cuts[i], cuts[i + 1])
  }

  /** At most 1024 entries, each of at least 8 bytes rounded up to 8, fill the table exactly. */
  ghost predicate Tiles(t: seq<byte>, cuts: seq<nat>) {
    Chain(t, cuts) && cuts[|cuts| - 1] == |t| && |cuts| - 1 <= MAX_ENTRIES
  }

  ghost predicate WellFormedTable(t: seq<byte>) {
    exists cuts :: Tiles(t, cuts)
  }

  /** Entry positions are determined by the bytes. */
  lemma {:induction false} ChainsAgree(t: seq<byte>, a: seq<nat>, b: seq<nat>, i: nat)
    requires Chain(t, a) && Chain(t, b) && i < |a| && i < |b|
    ensures a[i] == b[i]
  {
    if i > 0 {
      ChainsAgree(t, a, b, i - 1);
      assert EntrySpans(t, a[i - 1], a[i - 1 + 1]) && EntrySpans(t, b[i - 1], b[i - 1 + 1]);
    }
  }

  lemma EntriesTakeSpace(t: seq<byte>, at: nat, next: nat)
    requires EntrySpans(t, at, next)
    ensures at + 8 <= next
  {
  }

  lemma {:induction false} ChainGrows(t: seq<byte>, a: seq<nat>, i: nat, j: nat)
    requires Chain(t, a) && i <= j < |a|
    ensures a[i] + 8 * (j - i) <= a[j]
    decreases j
  {
    if i < j {
      ChainGrows(t, a, i, j - 1);
      var k := j - 1;
      EntriesTakeSpace(t, a[k], a[k + 1]);
    }
  }

  /** A chain that has not reached the end, and has no acceptable next entry, is part of no tiling. */
  lemma DeadEnd(t: seq<byte>, a: seq<nat>, tiling: seq<nat>)
    requires Chain(t, a) && a[|a| - 1] < |t| && Tiles(t, tiling)
    ensures |a| < |tiling| && EntrySpans(t, a[|a| - 1], tiling[|a|]) && tiling[|a|] <= |t|
  {
    if |tiling| <= |a| {
      ChainsAgree(t, a, tiling, |tiling| - 1);
      ChainGrows(t, a, |tiling| - 1, |a| - 1);
    } else {
      ChainsAgree(t, a, tiling, |a| - 1);
      assert EntrySpans(t, tiling[|a| - 1], tiling[|a| - 1 + 1]);
      ChainGrows(t, tiling, |a|, |tiling| - 1);
    }
  }

  /** The loop accepts exactly the well-formed tables, and none of its sums overflows. `table` is the part of the
      file that the security directory names, so that its length fits in 32 bits. */
  method ValidateTable(table: seq<byte>) returns (ok: bool)
    requires |table| < U32_END
    ensures ok <==> WellFormedTable(table)
  {
    Powers();
    var cursor, entryCount: nat := 0, 0;
    ghost var cuts: seq<nat> := [0];
    while cursor < |table|
      invariant Chain(table, cuts) && cursor == cuts[|cuts| - 1] && entryCount == |cuts| - 1
      invariant cursor <= |table| && entryCount <= MAX_ENTRIES
      decreases |table| - cursor
    {
      if |table| - cursor < 8 {
        Refuse(table, cuts, cursor);
        return false;
      }
      entryCount := entryCount + 1;
      if entryCount > MAX_ENTRIES {
        Refuse(table, cuts, cursor);
        return false;
      }
      var entryLen := FromLe(table[cursor..cursor + 4]);
      ToFromLe(table[cursor..cursor + 4]);
      if entryLen < 8 {
        Refuse(table, cuts, cursor);
        return false;
      }
      var alignedLen := CheckedAlignUp(entryLen, CERTIFICATE_ALIGNMENT);
      assert alignedLen.Some? && cursor + alignedLen.value < U64_END;
      if cursor + alignedLen.value > |table| {
        Refuse(table, cuts, cursor);
        return false;
      }
      cursor := cursor + alignedLen.value;
      assert EntrySpans(table, cuts[|cuts| - 1], cursor);
      cuts := cuts + [cursor];
    }
    assert Tiles(table, cuts);
    ok := true;
  }

  lemma Refuse(t: seq<byte>, cuts: seq<nat>, last: nat)
    requires Chain(t, cuts) && cuts[|cuts| - 1] == last < |t|
    requires forall next: nat :: EntrySpans(t, last, next) && next <= |t| ==> |cuts| > MAX_ENTRIES
    ensures !WellFormedTable(t)
  {
    if WellFormedTable(t) {
      var tiling :| Tiles(t, tiling);
      DeadEnd(t, cuts, tiling);
    }
  }
}
