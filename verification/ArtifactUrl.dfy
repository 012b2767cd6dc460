/** The check that the URL of an artifact carries no token (`validate_artifact_url` of `src/http.rs`). A token is a path
    segment that follows the segment `t`, and proxies may decode a path any number of times. */
module ArtifactUrl {
  import opened Wrappers
  import opened Bytes

  const PERCENT: byte := 0x25
  const SLASH: byte := 0x2F
  const BACKSLASH: byte := 0x5C
  const LETTER_T: byte := 0x74

  // ---------------------------------------------------------------------
  // Percent decoding (section 2.1 of RFC 3986)
  // ---------------------------------------------------------------------

  function HexDigit(b: byte): Option<nat> {
    if 0x30 <= b <= 0x39 then Some(b - 0x30)
    else if 0x41 <= b <= 0x46 then Some(b - 0x41 + 10)
    else if 0x61 <= b <= 0x66 then Some(b - 0x61 + 10)
    else None
  }

  /** Whether an escape begins at `i`. */
  predicate IsEscape(p: seq<byte>, i: nat) {
    i + 2 < |p| && p[i] == PERCENT && HexDigit(p[i + 1]).Some? && HexDigit(p[i + 2]).Some?
  }

  function Escaped(p: seq<byte>, i: nat): byte
    requires IsEscape(p, i)
  {
    HexDigit(p[i + 1]).value * 16 + HexDigit(p[i + 2]).value
  }

  /** The path from `i` on, decoded once. */
  function DecodeFrom(p: seq<byte>, i: nat): seq<byte>
    requires i <= |p|
    decreases |p| - i
  {
    if i == |p| then []
    else if IsEscape(p, i) then [Escaped(p, i)] + DecodeFrom(p, i + 3)
    else [p[i]] + DecodeFrom(p, i + 1)
  }

  /** Decoding leaves the path as it is, or takes at least two bytes away. */
  lemma {:induction false} DecodingShortens(p: seq<byte>, i: nat)
    requires i <= |p|
    ensures DecodeFrom(p, i) == p[i..] || |DecodeFrom(p, i)| + 2 <= |p| - i
    decreases |p| - i
  {
    if i < |p| {
      if IsEscape(p, i) {
        DecodingShortens(p, i + 3);
        assert |p[i + 3..]| == |p| - i - 3;
      } else {
        DecodingShortens(p, i + 1);
        assert p[i..] == [p[i]] + p[i + 1..];
      }
    }
  }

  function Decode(p: seq<byte>): seq<byte> {
    DecodeFrom(p, 0)
  }

  /** Decoding changes a path exactly when there is an escape in it, and then shortens it. */
  lemma {:induction false} ChangesIff(p: seq<byte>, i: nat)
    requires i <= |p|
    ensures DecodeFrom(p, i) == p[i..] <==> forall j :: i <= j < |p| ==> !IsEscape(p, j)
    decreases |p| - i
  {
    DecodingShortens(p, i);
    if i < |p| && IsEscape(p, i) {
      DecodingShortens(p, i + 3);
    }
    if i < |p| && !IsEscape(p, i) {
      ChangesIff(p, i + 1);
      assert p[i..] == [p[i]] + p[i + 1..];
      assert ([p[i]] + DecodeFrom(p, i + 1))[1..] == DecodeFrom(p, i + 1);
    }
  }

  // ---------------------------------------------------------------------
  // Decoding inverts encoding
  // ---------------------------------------------------------------------

  /** The digits of `0123456789ABCDEF` and of `0123456789abcdef`. */
  const UPPER_DIGITS: seq<byte> := [48, 49, 50, 51, 52, 53, 54, 55, 56, 57, 65, 66, 67, 68, 69, 70]
  const LOWER_DIGITS: seq<byte> := [48, 49, 50, 51, 52, 53, 54, 55, 56, 57, 97, 98, 99, 100, 101, 102]

  /** `b` is the digit `n`, in either case. */
  predicate IsDigit(b: byte, n: nat) {
    n < 16 && (b == UPPER_DIGITS[n] || b == LOWER_DIGITS[n])
  }

  /** Exactly the hexadecimal digits count. */
  lemma HexDigitIff(b: byte, n: nat)
    ensures HexDigit(b) == Some(n) <==> IsDigit(b, n)
  {
  }

  /** `e` is a percent encoding of `s`: each byte is an escape, with the high digit first, or, unless it is a percent sign,
      the byte itself. */
  predicate Encodes(e: seq<byte>, s: seq<byte>)
    decreases s
  {
    if s == [] then e == []
    else if e != [] && e[0] == PERCENT then
      |e| >= 3 && IsDigit(e[1], s[0] as int / 16) && IsDigit(e[2], s[0] as int % 16) && Encodes(e[3..], s[1..])
    else
      e != [] && e[0] == s[0] && Encodes(e[1..], s[1..])
  }

  lemma EscapesAlike(p: seq<byte>, k: nat, q: seq<byte>, i: nat)
    requires k <= |p| && q == p[k..] && i < |q|
    ensures q[i] == p[k + i] && (IsEscape(p, k + i) <==> IsEscape(q, i))
    ensures IsEscape(q, i) ==> Escaped(p, k + i) == Escaped(q, i)
  {
  }

  lemma DecodeStep(p: seq<byte>, i: nat)
    requires i < |p|
    ensures IsEscape(p, i) ==> DecodeFrom(p, i) == [Escaped(p, i)] + DecodeFrom(p, i + 3)
    ensures !IsEscape(p, i) ==> DecodeFrom(p, i) == [p[i]] + DecodeFrom(p, i + 1)
  {
  }

  /** Decoding does not look back. */
  lemma {:induction false} DecodesAlike(p: seq<byte>, k: nat, q: seq<byte>, i: nat)
    requires k <= |p| && q == p[k..] && i <= |q|
    ensures DecodeFrom(p, k + i) == DecodeFrom(q, i)
    decreases |q| - i
  {
    if i < |q| {
      EscapesAlike(p, k, q, i);
      DecodeStep(p, k + i);
      DecodeStep(q, i);
      if IsEscape(q, i) {
        DecodesAlike(p, k, q, i + 3);
      } else {
        DecodesAlike(p, k, q, i + 1);
      }
    }
  }

  lemma EscapeIs(e: seq<byte>, b: byte)
    requires |e| >= 3 && e[0] == PERCENT && IsDigit(e[1], b as int / 16) && IsDigit(e[2], b as int % 16)
    ensures IsEscape(e, 0) && Escaped(e, 0) == b
  {
    HexDigitIff(e[1], b as int / 16);
    HexDigitIff(e[2], b as int % 16);
  }

  /** Decoding any percent encoding of a text gives the text. */
  lemma {:induction false} DecodesEncoding(e: seq<byte>, s: seq<byte>)
    requires Encodes(e, s)
    ensures Decode(e) == s
    decreases s
  {
    if s != [] {
      if e[0] == PERCENT {
        EscapeIs(e, s[0]);
        DecodesAlike(e, 3, e[3..], 0);
        DecodesEncoding(e[3..], s[1..]);
      } else {
        DecodesAlike(e, 1, e[1..], 0);
        DecodesEncoding(e[1..], s[1..]);
      }
    }
  }

  /** Every byte as an escape. */
  function Encode(s: seq<byte>): seq<byte> {
    if s == [] then [] else [PERCENT, UPPER_DIGITS[s[0] / 16], UPPER_DIGITS[s[0] % 16]] + Encode(s[1..])
  }

  lemma {:induction false} DecodeEncode(s: seq<byte>)
    ensures Encodes(Encode(s), s) && Decode(Encode(s)) == s
  {
    if s != [] {
      DecodeEncode(s[1..]);
      assert Encode(s)[3..] == Encode(s[1..]);
    }
    DecodesEncoding(Encode(s), s);
  }

  lemma Reassociate(a: seq<byte>, b: seq<byte>, c: seq<byte>)
    ensures a + (b + c) == a + b + c
  {
  }

  /** The next byte or escape. */
  lemma DecodeNext(p: seq<byte>, r: seq<byte>, i: nat)
    requires i < |p| && Decode(p) == r + DecodeFrom(p, i)
    ensures IsEscape(p, i) ==> Decode(p) == r + [Escaped(p, i)] + DecodeFrom(p, i + 3)
    ensures !IsEscape(p, i) ==> Decode(p) == r + [p[i]] + DecodeFrom(p, i + 1)
  {
    if IsEscape(p, i) {
      Reassociate(r, [Escaped(p, i)], DecodeFrom(p, i + 3));
    } else {
      Reassociate(r, [p[i]], DecodeFrom(p, i + 1));
    }
  }

  /** `percent_decode`. */
  method PercentDecode(p: seq<byte>) returns (r: seq<byte>)
    ensures r == Decode(p)
  {
    r := [];
    var i := 0;
    assert Decode(p) == r + DecodeFrom(p, 0);
    while i < |p|
      invariant i <= |p| && Decode(p) == r + DecodeFrom(p, i)
    {
      DecodeNext(p, r, i);
      if IsEscape(p, i) {
        r := r + [Escaped(p, i)];
        i := i + 3;
      } else {
        r := r + [p[i]];
        i := i + 1;
      }
    }
    assert r + [] == r;
  }

  /** The path, decoded `n` times. */
  function Decoded(p: seq<byte>, n: nat): seq<byte> {
    if n == 0 then p else Decode(Decoded(p, n - 1))
  }

  /** Once decoding changes nothing it never will. */
  lemma {:induction false} StaysDecoded(p: seq<byte>, n: nat, m: nat)
    requires Decode(Decoded(p, n)) == Decoded(p, n) && n <= m
    ensures Decoded(p, m) == Decoded(p, n)
  {
    if n < m {
      StaysDecoded(p, n, m - 1);
    }
  }

  lemma {:induction false} EachRoundShortens(p: seq<byte>, n: nat)
    ensures Decode(Decoded(p, n)) == Decoded(p, n) || |Decoded(p, n)| + 2 * n <= |p|
  {
    DecodingShortens(Decoded(p, n), 0);
    if n > 0 {
      EachRoundShortens(p, n - 1);
      DecodingShortens(Decoded(p, n - 1), 0);
    }
  }

  /** Half as many rounds as there are bytes decode a path completely. */
  lemma DecodingSettles(p: seq<byte>, n: nat)
    requires n >= |p| / 2
    ensures Decode(Decoded(p, n)) == Decoded(p, n)
  {
    EachRoundShortens(p, n);
    DecodingShortens(Decoded(p, n), 0);
    assert |Decoded(p, n)| < 2 ==> Decode(Decoded(p, n)) == Decoded(p, n);
  }

  // ---------------------------------------------------------------------
  // Segments
  // ---------------------------------------------------------------------

  predicate IsSeparator(b: byte) {
    b == SLASH || b == BACKSLASH
  }

  /** The end of the segment that begins at `i`. */
  function SegmentEnd(p: seq<byte>, i: nat): (r: nat)
    requires i <= |p|
    ensures i <= r <= |p| && (forall j :: i <= j < r ==> !IsSeparator(p[j])) && (r < |p| ==> IsSeparator(p[r]))
    decreases |p| - i
  {
    if i == |p| || IsSeparator(p[i]) then i else SegmentEnd(p, i + 1)
  }

  /** The segments of the path from `i` on. */
  function Segments(p: seq<byte>, i: nat): (r: seq<seq<byte>>)
    requires i <= |p|
    ensures r != [] && r[0] == p[i..SegmentEnd(p, i)]
    decreases |p| - i
  {
    var end := SegmentEnd(p, i);
    if end == |p| then [p[i..]] else [p[i..end]] + Segments(p, end + 1)
  }

  /** Whether the segment `t` at `i` is followed by a segment that is not empty. */
  predicate TokenAt(p: seq<byte>, i: nat) {
    && i + 2 < |p| && p[i] == LETTER_T
    && (i == 0 || IsSeparator(p[i - 1])) && IsSeparator(p[i + 1]) && !IsSeparator(p[i + 2])
  }

  /** A token begins somewhere from `start` up to `end`. */
  predicate TokenIn(p: seq<byte>, start: nat, end: nat) {
    exists i {:trigger TokenAt(p, i)} :: start <= i < end && TokenAt(p, i)
  }

  predicate HasToken(p: seq<byte>) {
    TokenIn(p, 0, |p|)
  }

  predicate TokenAmong(segments: seq<seq<byte>>) {
    exists k :: 0 < k < |segments| && segments[k - 1] == [LETTER_T] && segments[k] != []
  }

  lemma TokenInEither(p: seq<byte>, start: nat, middle: nat, end: nat)
    requires start <= middle <= end
    ensures TokenIn(p, start, end) <==> TokenIn(p, start, middle) || TokenIn(p, middle, end)
  {
  }

  /** Looking at segments finds what looking at bytes finds. */
  lemma {:induction false} SegmentsShowTokens(p: seq<byte>, i: nat)
    requires i <= |p| && (i == 0 || IsSeparator(p[i - 1]))
    ensures TokenAmong(Segments(p, i)) <==> TokenIn(p, i, |p|)
    decreases |p| - i
  {
    var end := SegmentEnd(p, i);
    if end == |p| {
      LastSegment(p, i);
    } else {
      SegmentsShowTokens(p, end + 1);
      SegmentsSplit(p, i, end, Segments(p, end + 1));
      TokenInEither(p, i, end + 1, |p|);
    }
  }

  lemma SegmentsSplit(p: seq<byte>, i: nat, end: nat, rest: seq<seq<byte>>)
    requires i <= |p| && (i == 0 || IsSeparator(p[i - 1])) && end == SegmentEnd(p, i) < |p| && rest == Segments(p, end + 1)
    ensures TokenAmong(Segments(p, i)) <==> TokenIn(p, i, end + 1) || TokenAmong(rest)
  {
    FirstSegment(p, i);
    SplitToken(p[i..end], rest);
    assert Segments(p, i) == [p[i..end]] + rest;
  }

  /** The last segment has no token: nothing separates it from a next one. */
  lemma LastSegment(p: seq<byte>, i: nat)
    requires i <= |p| && SegmentEnd(p, i) == |p|
    ensures !TokenAmong(Segments(p, i)) && !TokenIn(p, i, |p|)
  {
    assert |Segments(p, i)| == 1;
  }

  lemma SplitToken(first: seq<byte>, rest: seq<seq<byte>>)
    requires rest != []
    ensures TokenAmong([first] + rest) <==> (first == [LETTER_T] && rest[0] != []) || TokenAmong(rest)
  {
    var all := [first] + rest;
    assert all[0] == first && forall k :: 0 < k < |all| ==> all[k] == rest[k - 1];
    if TokenAmong(rest) {
      var k :| 0 < k < |rest| && rest[k - 1] == [LETTER_T] && rest[k] != [];
      assert all[k + 1 - 1] == [LETTER_T] && all[k + 1] != [];
    }
    if first == [LETTER_T] && rest[0] != [] {
      assert all[1 - 1] == [LETTER_T] && all[1] != [];
    }
  }

  /** A token in the first segment and the byte after it. */
  lemma FirstSegment(p: seq<byte>, i: nat)
    requires i <= |p| && SegmentEnd(p, i) < |p| && (i == 0 || IsSeparator(p[i - 1]))
    ensures var end := SegmentEnd(p, i);
            TokenIn(p, i, end + 1) <==> p[i..end] == [LETTER_T] && Segments(p, end + 1)[0] != []
  {
    var end := SegmentEnd(p, i);
    if p[i..end] == [LETTER_T] && Segments(p, end + 1)[0] != [] {
      assert p[i..end][0] == p[i] && end == i + 1;
      assert TokenAt(p, i);
    }
    if j :| i <= j <= end && TokenAt(p, j) {
      assert j == i && end == i + 1;
      assert p[i..end] == [p[i]];
    }
  }

  // ---------------------------------------------------------------------
  // The check
  // ---------------------------------------------------------------------

  /** No round of decoding shows a token. */
  ghost predicate NeverShowsToken(value: seq<byte>) {
    forall n: nat :: !HasToken(Decoded(value, n))
  }

  /** What URL parsing finds besides the path. */
  datatype Parsed = Parsed(credentials: bool, queryOrFragment: bool)

  datatype Problem = InvalidUrl | Credentials | QueryOrFragment

  /** `validate_artifact_url`, for the text `value` and what URL parsing makes of it. */
  method ValidateArtifactUrl(value: seq<byte>, parsed: Option<Parsed>) returns (r: Option<Problem>)
    ensures r == None <==> parsed.Some? && !parsed.value.credentials && !parsed.value.queryOrFragment && NeverShowsToken(value)
    ensures r == Some(InvalidUrl) <==> parsed.None?
    ensures r == Some(QueryOrFragment) <==> parsed.Some? && !parsed.value.credentials && parsed.value.queryOrFragment
  {
    if parsed.None? { return Some(InvalidUrl); }
    if parsed.value.credentials { return Some(Credentials); }
    if parsed.value.queryOrFragment { return Some(QueryOrFragment); }
    var hidden := FindToken(value);
    r := if hidden then Some(Credentials) else None;
  }

  /** Decode until nothing changes, and look at the segments every time. */
  method FindToken(value: seq<byte>) returns (found: bool)
    ensures found <==> !NeverShowsToken(value)
  {
    var path := value;
    ghost var n := 0;
    while true
      invariant path == Decoded(value, n)
      invariant forall m: nat :: m < n ==> !HasToken(Decoded(value, m))
      decreases |path|
    {
      var shown := LookAtSegments(path);
      if shown { return true; }
      var decoded := PercentDecode(path);
      DecodingShortens(path, 0);
      if decoded == path {
        forall m: nat ensures !HasToken(Decoded(value, m)) {
          if n <= m { StaysDecoded(value, n, m); }
        }
        return false;
      }
      path, n := decoded, n + 1;
    }
  }

  /** The loop over the segments of a path. */
  method LookAtSegments(path: seq<byte>) returns (found: bool)
    ensures found <==> HasToken(path)
  {
    SegmentsShowTokens(path, 0);
    var segments := Segments(path, 0);
    var previous: seq<byte> := [];
    for k := 0 to |segments|
      invariant previous == if k == 0 then [] else segments[k - 1]
      invariant forall j :: 0 < j < k && segments[j - 1] == [LETTER_T] ==> segments[j] == []
    {
      if previous == [LETTER_T] && segments[k] != [] {
        return true;
      }
      previous := segments[k];
    }
    found := false;
  }

  /** A proxy that decodes an accepted path sees another path that is accepted, however often it decodes. */
  lemma {:induction false} AcceptanceSurvivesDecoding(value: seq<byte>, n: nat)
    requires NeverShowsToken(value)
    ensures NeverShowsToken(Decoded(value, n))
  {
    forall m: nat ensures !HasToken(Decoded(Decoded(value, n), m)) {
      DecodedTwice(value, n, m);
    }
  }

  lemma {:induction false} DecodedTwice(p: seq<byte>, n: nat, m: nat)
    ensures Decoded(Decoded(p, n), m) == Decoded(p, n + m)
  {
    if m > 0 {
      DecodedTwice(p, n, m - 1);
    }
  }

  ghost predicate QuietUntil(value: seq<byte>, last: nat) {
    forall n: nat :: n <= last ==> !HasToken(Decoded(value, n))
  }

  lemma QuietAfterwards(value: seq<byte>, last: nat, n: nat)
    requires QuietUntil(value, last) && Decode(Decoded(value, last)) == Decoded(value, last)
    ensures !HasToken(Decoded(value, n))
  {
    if n > last {
      StaysDecoded(value, last, n);
      assert !HasToken(Decoded(value, last));
    }
  }

  /** It takes no more rounds to know than half the length of the path. */
  lemma FewRoundsDecide(value: seq<byte>)
    ensures NeverShowsToken(value) <==> QuietUntil(value, |value| / 2)
  {
    var last := |value| / 2;
    DecodingSettles(value, last);
    if QuietUntil(value, last) {
      forall n: nat ensures !HasToken(Decoded(value, n)) {
        QuietAfterwards(value, last, n);
      }
    }
  }

  /** A text that is refused is refused in every percent encoding. */
  lemma EncodedTokenIsRefused(e: seq<byte>, s: seq<byte>)
    requires Encodes(e, s) && !NeverShowsToken(s)
    ensures !NeverShowsToken(e)
  {
    DecodesEncoding(e, s);
    var n: nat :| HasToken(Decoded(s, n));
    assert Decoded(e, 1) == Decode(Decoded(e, 0)) == s;
    DecodedTwice(e, 1, n);
  }

  lemma {:induction false} EncodesItself(s: seq<byte>)
    requires PERCENT !in s
    ensures Encodes(s, s)
  {
    if s != [] {
      EncodesItself(s[1..]);
    }
  }

  /** A token whose separator is encoded, as in `t%2Fsecret`, is refused. */
  lemma EncodedSeparatorIsRefused(tail: seq<byte>, secret: seq<byte>, digit: byte)
    requires Encodes(tail, secret) && secret != [] && !IsSeparator(secret[0]) && digit in {0x46, 0x66}
    ensures var value := [LETTER_T, PERCENT, 0x32, digit] + tail;
            Decode(value) == [LETTER_T, SLASH] + secret && !NeverShowsToken(value)
  {
    var value, plain := [LETTER_T, PERCENT, 0x32, digit] + tail, [LETTER_T, SLASH] + secret;
    assert value[1..][3..] == tail && plain[1..][1..] == secret;
    assert Encodes(value[1..], plain[1..]);
    assert TokenAt(plain, 0);
    assert HasToken(Decoded(plain, 0));
    EncodedTokenIsRefused(value, plain);
    DecodesEncoding(value, plain);
  }

  /** This very text: `t%2Fsecret`, which shows no token before it is decoded. */
  lemma SecretIsRefused()
    ensures var value := [LETTER_T, PERCENT, 0x32, 0x46] + [0x73, 0x65, 0x63, 0x72, 0x65, 0x74];
            !HasToken(value) && !NeverShowsToken(value)
  {
    EncodesItself([0x73, 0x65, 0x63, 0x72, 0x65, 0x74]);
    EncodedSeparatorIsRefused([0x73, 0x65, 0x63, 0x72, 0x65, 0x74], [0x73, 0x65, 0x63, 0x72, 0x65, 0x74], 0x46);
  }
}
