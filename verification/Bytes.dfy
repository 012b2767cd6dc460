/** Byte sequences and little-endian numbers. */
module Bytes {
  import opened Wrappers

  type byte = b: int | 0 <= b < 256

  const U32_END := 0x1_0000_0000
  const U64_END := 0x1_0000_0000_0000_0000

  type u16 = n: int | 0 <= n < 0x1_0000
  type u32 = n: int | 0 <= n < U32_END
  type u64 = n: int | 0 <= n < U64_END

  function Zeros(n: nat): (s: seq<byte>)
    ensures |s| == n && forall i :: 0 <= i < n ==> s[i] == 0
  {
    seq(n, _ => 0)
  }

  ghost predicate AllZero(s: seq<byte>) {
    forall i :: 0 <= i < |s| ==> s[i] == 0
  }

  /** `s` with `data` in place of the bytes at `at`. */
  function Patch(s: seq<byte>, at: nat, data: seq<byte>): (r: seq<byte>)
    requires at + |data| <= |s|
    ensures |r| == |s|
  {
    s[..at] + data + s[at + |data|..]
  }

  /** A file after its length has been set: cut off, or extended with zeros. */
  function Resized(s: seq<byte>, n: nat): seq<byte> {
    if n <= |s| then s[..n] else s + Zeros(n - |s|)
  }

  /** A file after `data` has been written at `at`, which can extend it. */
  function Overwritten(s: seq<byte>, at: nat, data: seq<byte>): seq<byte>
    requires at <= |s|
  {
    s[..at] + data + if at + |data| <= |s| then s[at + |data|..] else []
  }

  function Power256(k: nat): (p: nat)
    ensures p > 0
  {
    if k == 0 then 1 else 256 * Power256(k - 1)
  }

  /** The `k` low bytes of `n`, lowest first. */
  function ToLe(n: nat, k: nat): (s: seq<byte>)
    ensures |s| == k
  {
    if k == 0 then [] else [n % 256] + ToLe(n / 256, k - 1)
  }

  function FromLe(s: seq<byte>): nat {
    if s == [] then 0 else s[0] + 256 * FromLe(s[1..])
  }

  lemma {:induction false} FromToLe(n: nat, k: nat)
    requires n < Power256(k)
    ensures FromLe(ToLe(n, k)) == n
  {
    if k > 0 {
      FromToLe(n / 256, k - 1);
    }
  }

  lemma {:induction false} ToFromLe(s: seq<byte>)
    ensures FromLe(s) < Power256(|s|)
    ensures ToLe(FromLe(s), |s|) == s
  {
    if s != [] {
      ToFromLe(s[1..]);
    }
  }

  lemma PowersOf256()
    ensures Power256(0) == 1 && Power256(1) == 256 && Power256(2) == 0x1_0000 && Power256(3) == 0x100_0000
  {
    assert Power256(1) == 256 * Power256(0);
    assert Power256(3) == 256 * Power256(2);
  }

  /** Numbers that fit have the same bytes only if they are equal. */
  lemma SameLe(a: nat, b: nat, k: nat)
    requires a < Power256(k) && b < Power256(k)
    ensures ToLe(a, k) == ToLe(b, k) <==> a == b
  {
    FromToLe(a, k);
    FromToLe(b, k);
  }

  /** The high bytes of a number, and the low ones. */
  lemma {:induction false} HighLe(n: nat, k: nat, len: nat)
    requires n < Power256(len) && k <= len
    ensures ToLe(n, len)[k..] == ToLe(n / Power256(k), len - k) && n / Power256(k) < Power256(len - k)
  {
    if k > 0 {
      HighLe(n / 256, k - 1, len - 1);
      NestedQuotient(n, 256, Power256(k - 1));
    }
  }

  lemma NestedQuotient(n: nat, a: nat, b: nat)
    requires a > 0 && b > 0
    ensures a * b > 0 && n / a / b == n / (a * b)
  {
    var low := n / a % b * a + n % a;
    assert n / a == n / a / b * b + n / a % b;
    assert n == n / a / b * (a * b) + low;
    ProductIsFar(b - n / a % b, a);
    assert (b - n / a % b) * a == a * b - n / a % b * a;
    var m, k := a * b, n / (a * b) - n / a / b;
    assert n == n / m * m + n % m;
    assert k * m == low - n % m;
    ProductIsFar(k, m);
  }

  lemma SameHigh(a: nat, b: nat, k: nat)
    requires a < U32_END && b < U32_END && k < 4
    ensures ToLe(a, 4)[k..] == ToLe(b, 4)[k..] <==> a / Power256(k) == b / Power256(k)
  {
    Powers();
    HighLe(a, k, 4);
    HighLe(b, k, 4);
    SameLe(a / Power256(k), b / Power256(k), 4 - k);
  }

  lemma NestedQuotients(n: nat)
    ensures n / 256 / 256 == n / 0x1_0000 && n / 256 / 256 / 256 == n / 0x100_0000
  {
  }

  lemma {:induction false} LowLe(n: nat, k: nat, len: nat)
    requires k <= len
    ensures ToLe(n, len)[..k] == ToLe(n, k)
  {
    if k > 0 {
      LowLe(n / 256, k - 1, len - 1);
    }
  }

  lemma LowFromLe(n: nat, k: nat)
    requires 0 < k < 4
    ensures FromLe(ToLe(n, k)) == n % Power256(k)
  {
    PowersOf256();
    NestedRemainders(n);
    assert ToLe(n, k) == [n % 256] + ToLe(n / 256, k - 1);
    if k > 1 {
      assert ToLe(n / 256, k - 1) == [n / 256 % 256] + ToLe(n / 256 / 256, k - 2);
      if k > 2 {
        assert ToLe(n / 256 / 256, 1) == [n / 256 / 256 % 256];
      }
    }
  }

  lemma NestedRemainders(n: nat)
    ensures n % 0x1_0000 == n % 256 + 256 * (n / 256 % 256)
    ensures n % 0x100_0000 == n % 256 + 256 * (n / 256 % 256 + 256 * (n / 256 / 256 % 256))
  {
    NestedQuotients(n);
  }

  lemma SameLow(a: nat, b: nat, k: nat)
    requires 0 < k < 4
    ensures ToLe(a, k) == ToLe(b, k) <==> a % Power256(k) == b % Power256(k)
  {
    LowFromLe(a, k);
    LowFromLe(b, k);
    ToFromLe(ToLe(a, k));
    ToFromLe(ToLe(b, k));
  }

  lemma Powers()
    ensures Power256(2) == 0x1_0000 && Power256(4) == U32_END && Power256(8) == U64_END
  {
    assert Power256(1) == 256;
    assert Power256(3) == 256 * Power256(2);
    assert Power256(5) == 256 * Power256(4);
    assert Power256(6) == 256 * Power256(5);
    assert Power256(7) == 256 * Power256(6);
  }

  // ---------------------------------------------------------------------
  // Alignment
  // ---------------------------------------------------------------------

  /** The smallest multiple of `alignment` that is at least `value`. */
  function AlignUp(value: nat, alignment: nat): (r: nat)
    requires alignment > 0
    ensures value <= r < value + alignment && r % alignment == 0
  {
    var x := value + alignment - 1;
    assert x - x % alignment == x / alignment * alignment;
    MultipleIsAligned(x / alignment, alignment);
    x - x % alignment
  }

  /** `align_up`: the sum is checked, then rounded down by a division. */
  function CheckedAlignUp(value: nat, alignment: nat): (r: Option<nat>)
    ensures r == if alignment == 0 || value + alignment - 1 >= U64_END then None else Some(AlignUp(value, alignment))
  {
    if alignment == 0 || value + alignment - 1 >= U64_END then None
    else Some((value + alignment - 1) / alignment * alignment)
  }

  lemma MultipleIsAligned(q: nat, alignment: nat)
    requires alignment > 0
    ensures (q * alignment) % alignment == 0
  {
    var x := q * alignment;
    var d, r := x / alignment, x % alignment;
    assert (q - d) * alignment == r;
    ProductIsFar(q - d, alignment);
  }

  lemma ProductIsFar(k: int, a: nat)
    requires a > 0
    ensures k >= 1 ==> k * a >= a
    ensures k <= -1 ==> k * a + a <= 0
  {
  }

  /** Aligned values are fixed, and the result is the least aligned value above. */
  lemma AlignUpIsLeast(value: nat, alignment: nat, bound: nat)
    requires alignment > 0 && value <= bound && bound % alignment == 0
    ensures AlignUp(value, alignment) <= bound
    ensures value % alignment == 0 ==> AlignUp(value, alignment) == value
  {
    var r := AlignUp(value, alignment);
    if r > bound {
      AlignedGap(r, bound, alignment);
    }
    if value % alignment == 0 && r > value {
      AlignedGap(r, value, alignment);
    }
  }

  /** The aligned value is the only multiple in its range. */
  lemma AlignUpIs(value: nat, alignment: nat, r: nat)
    requires alignment > 0 && value <= r < value + alignment && r % alignment == 0
    ensures AlignUp(value, alignment) == r
  {
    AlignUpIsLeast(value, alignment, r);
    if AlignUp(value, alignment) < r {
      AlignedGap(r, AlignUp(value, alignment), alignment);
    }
  }

  /** Two different multiples are at least `alignment` apart. */
  lemma AlignedGap(a: nat, b: nat, alignment: nat)
    requires alignment > 0 && a % alignment == 0 && b % alignment == 0 && a > b
    ensures a >= b + alignment
  {
    assert a == a / alignment * alignment && b == b / alignment * alignment;
    assert (a / alignment - b / alignment) * alignment == a - b;
    ProductIsFar(a / alignment - b / alignment, alignment);
  }
}
