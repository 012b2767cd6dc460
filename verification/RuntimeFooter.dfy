/** The footer of a runtime data stamp, and the reader that finds it at the end of a file
    (`src/runtime_data.rs`). */
module RuntimeFooter {
  import opened Wrappers
  import opened Bytes

  const FOOTER_LEN := 100
  const FORMAT_VERSION := 1
  const MAX_HEADER_LEN := 16 * 1024 * 1024

  /** The bytes of `CONDA_SHIP_V0001`. */
  const MAGIC: seq<byte> := [67, 79, 78, 68, 65, 95, 83, 72, 73, 80, 95, 86, 48, 48, 48, 49]

  type Sha256 = s: seq<byte> | |s| == 32 witness Zeros(32)

  datatype Footer = Footer(headerLen: u64, bundleLen: u64, headerSha: Sha256, bundleSha: Sha256)

  datatype ReadError = NotAStamp | BadVersion | BadPadding | OutOfRange | HeaderTooLarge | Checksum | BadHeader | BadLayout | BadTable

  datatype Bundle = Bundle(offset: nat, len: u64, sha: Sha256)

  datatype RuntimeData = RuntimeData(header: seq<byte>, bundle: Option<Bundle>)

  /** SHA-256, and whether the parser accepts a serialized header of the current schema version. */
  datatype Codec = Codec(sha: seq<byte> -> Sha256, parses: seq<byte> -> bool)

  function EncodeFooter(f: Footer): (s: seq<byte>)
    ensures |s| == FOOTER_LEN
  {
    ToLe(f.headerLen, 8) + ToLe(f.bundleLen, 8) + f.headerSha + f.bundleSha + ToLe(FORMAT_VERSION, 4) + MAGIC
  }

  /** `None` is a window without the magic, which is no footer at all. */
  function DecodeFooter(s: seq<byte>): Result<Option<Footer>, ReadError>
    requires |s| == FOOTER_LEN
  {
    if s[84..] != MAGIC then Ok(None)
    else if FromLe(s[80..84]) != FORMAT_VERSION then Err(BadVersion)
    else
      Powers(); ToFromLe(s[..8]); ToFromLe(s[8..16]);
      Ok(Some(Footer(FromLe(s[..8]), FromLe(s[8..16]), s[16..48], s[48..80])))
  }

  lemma DecodeEncode(f: Footer)
    ensures DecodeFooter(EncodeFooter(f)) == Ok(Some(f))
  {
    var s := EncodeFooter(f);
    assert s[84..] == MAGIC;
    assert s[80..84] == ToLe(FORMAT_VERSION, 4);
    assert s[..8] == ToLe(f.headerLen, 8) && s[8..16] == ToLe(f.bundleLen, 8);
    assert s[16..48] == f.headerSha && s[48..80] == f.bundleSha;
    Powers();
    FromToLe(FORMAT_VERSION, 4);
    FromToLe(f.headerLen, 8);
    FromToLe(f.bundleLen, 8);
  }

  lemma EncodeDecode(s: seq<byte>)
    requires |s| == FOOTER_LEN && DecodeFooter(s).Ok? && DecodeFooter(s).value.Some?
    ensures EncodeFooter(DecodeFooter(s).value.value) == s
  {
    ToFromLe(s[..8]);
    ToFromLe(s[8..16]);
    ToFromLe(s[80..84]);
    SixParts(s);
  }

  lemma SixParts(s: seq<byte>)
    requires |s| == FOOTER_LEN
    ensures s == s[..8] + s[8..16] + s[16..48] + s[48..80] + s[80..84] + s[84..]
  {
  }

  // ---------------------------------------------------------------------
  // The payload in front of a footer
  // ---------------------------------------------------------------------

  function ReadPayload(c: Codec, file: seq<byte>, start: nat, f: Footer): Result<RuntimeData, ReadError> {
    if f.headerLen > MAX_HEADER_LEN then Err(HeaderTooLarge)
    else if start + f.headerLen > |file| then Err(OutOfRange)
    else
      var header := file[start..start + f.headerLen];
      if c.sha(header) != f.headerSha then Err(Checksum)
      else if !c.parses(header) then Err(BadHeader)
      else Ok(RuntimeData(header, if f.bundleLen > 0 then Some(Bundle(start + f.headerLen, f.bundleLen, f.bundleSha)) else None))
  }

  /** What a reader is to find of a stamp whose header starts at `start`. */
  function Stamped(c: Codec, start: nat, header: seq<byte>, bundle: seq<byte>): RuntimeData
    requires |bundle| < U64_END
  {
    RuntimeData(header, if bundle == [] then None else Some(Bundle(start + |header|, |bundle|, c.sha(bundle))))
  }

  /** What the writer accepts: a header that the parser accepts again, within the size limits. */
  predicate Stampable(c: Codec, header: seq<byte>, bundle: seq<byte>) {
    |header| <= MAX_HEADER_LEN && c.parses(header) && |header| + |bundle| + FOOTER_LEN < U64_END
  }

  function FooterFor(c: Codec, header: seq<byte>, bundle: seq<byte>): Footer
    requires Stampable(c, header, bundle)
  {
    Footer(|header|, |bundle|, c.sha(header), c.sha(bundle))
  }

  /** Header, bundle and footer, as they are appended to a file. */
  function Stamp(c: Codec, header: seq<byte>, bundle: seq<byte>): (s: seq<byte>)
    requires Stampable(c, header, bundle)
    ensures |s| == |header| + |bundle| + FOOTER_LEN
  {
    header + bundle + EncodeFooter(FooterFor(c, header, bundle))
  }

  lemma PayloadIsRead(c: Codec, file: seq<byte>, start: nat, header: seq<byte>, bundle: seq<byte>)
    requires Stampable(c, header, bundle)
    requires start + |header| <= |file| && file[start..start + |header|] == header
    ensures ReadPayload(c, file, start, FooterFor(c, header, bundle)) == Ok(Stamped(c, start, header, bundle))
  {
  }

  // ---------------------------------------------------------------------
  // Finding the footer
  // ---------------------------------------------------------------------

  /** Where to look: the footer ends at `dataEnd`, or up to `alignment - 1` zero bytes before it. */
  datatype SearchSpec = SearchSpec(dataEnd: nat, alignment: nat, minimumPayloadOffset: nat)

  function ReadAtFooter(c: Codec, file: seq<byte>, footerStart: nat, minimum: nat): Result<Option<RuntimeData>, ReadError>
    requires footerStart + FOOTER_LEN <= |file|
  {
    match DecodeFooter(file[footerStart..footerStart + FOOTER_LEN])
    case Err(e) => Err(e)
    case Ok(None) => Ok(None)
    case Ok(Some(f)) =>
      var payloadLen := f.headerLen + f.bundleLen;
      if payloadLen >= U64_END || payloadLen > footerStart then Err(OutOfRange)
      else if footerStart - payloadLen < minimum then Err(OutOfRange)
      else
        match ReadPayload(c, file, footerStart - payloadLen, f)
        case Err(e) => Err(e)
        case Ok(data) => Ok(Some(data))
  }

  /** A footer window that ends `padding` bytes before `dataEnd` exists and ends in the magic. */
  predicate MagicAt(file: seq<byte>, dataEnd: nat, padding: nat)
    requires dataEnd <= |file|
  {
    padding + FOOTER_LEN <= dataEnd && file[dataEnd - padding - 16..dataEnd - padding] == MAGIC
  }

  predicate InRange(padding: nat, spec: SearchSpec) {
    padding < spec.alignment || padding == 0
  }

  /** The nearest window that ends in the magic ends `padding` bytes before the end of the data. */
  ghost predicate NearestAt(file: seq<byte>, spec: SearchSpec, padding: nat)
    requires spec.dataEnd <= |file|
  {
    && InRange(padding, spec) && MagicAt(file, spec.dataEnd, padding)
    && forall q: nat :: q < padding ==> !MagicAt(file, spec.dataEnd, q)
  }

  /** What reading there gives. */
  ghost function ResultAt(c: Codec, file: seq<byte>, spec: SearchSpec, padding: nat): Result<Option<RuntimeData>, ReadError>
    requires spec.dataEnd <= |file| && padding + FOOTER_LEN <= spec.dataEnd
  {
    if AllZero(file[spec.dataEnd - padding..spec.dataEnd])
    then ReadAtFooter(c, file, spec.dataEnd - padding - FOOTER_LEN, spec.minimumPayloadOffset)
    else Err(BadPadding)
  }

  ghost predicate HasNoMagic(file: seq<byte>, spec: SearchSpec)
    requires spec.dataEnd <= |file|
  {
    forall p: nat :: InRange(p, spec) ==> !MagicAt(file, spec.dataEnd, p)
  }

  /** What the search returns: the stamp at the nearest window that ends in the magic. */
  ghost predicate SearchResult(c: Codec, file: seq<byte>, spec: SearchSpec, r: Result<Option<RuntimeData>, ReadError>)
    requires spec.dataEnd <= |file|
  {
    || (r == Ok(None) && HasNoMagic(file, spec))
    || exists p: nat :: NearestAt(file, spec, p) && r == ResultAt(c, file, spec, p)
  }

  /** `read_runtime_data_with_search_spec`. The source's padding buffer holds 15 bytes. */
  method ReadWithSearchSpec(c: Codec, file: seq<byte>, spec: SearchSpec) returns (r: Result<Option<RuntimeData>, ReadError>)
    requires spec.dataEnd <= |file| && spec.alignment <= 16
    ensures SearchResult(c, file, spec, r)
  {
    var padding: nat := 0;
    while padding < spec.alignment || padding == 0
      invariant forall q: nat :: q < padding ==> !MagicAt(file, spec.dataEnd, q)
      decreases 17 - padding
    {
      if padding + FOOTER_LEN <= spec.dataEnd {
        var footerEnd := spec.dataEnd - padding;
        if file[footerEnd - 16..footerEnd] == MAGIC {
          var zero := IsZeroRange(file, footerEnd, padding);
          r := if zero then ReadAtFooter(c, file, footerEnd - FOOTER_LEN, spec.minimumPayloadOffset) else Err(BadPadding);
          FoundAt(c, file, spec, padding, footerEnd - FOOTER_LEN, r);
          return;
        }
      }
      padding := padding + 1;
    }
    r := Ok(None);
  }

  lemma FoundAt(c: Codec, file: seq<byte>, spec: SearchSpec, padding: nat, start: nat, r: Result<Option<RuntimeData>, ReadError>)
    requires start + FOOTER_LEN + padding == spec.dataEnd <= |file| && NearestAt(file, spec, padding)
    requires r == if AllZero(file[start + FOOTER_LEN..start + FOOTER_LEN + padding])
                  then ReadAtFooter(c, file, start, spec.minimumPayloadOffset) else Err(BadPadding)
    ensures SearchResult(c, file, spec, r)
  {
    assert r == ResultAt(c, file, spec, padding);
  }

  /** `ensure_zero_file_range`: read a range in blocks of at most 4096 bytes. */
  method IsZeroRange(file: seq<byte>, offset: nat, len: nat) returns (zero: bool)
    requires offset + len <= |file|
    ensures zero <==> AllZero(file[offset..offset + len])
  {
    var at: nat, remaining: nat := offset, len;
    while remaining != 0
      invariant offset <= at <= at + remaining == offset + len
      invariant forall i :: offset <= i < at ==> file[i] == 0
    {
      var readLen := if remaining < 4096 then remaining else 4096;
      if exists i :: at <= i < at + readLen && file[i] != 0 {
        ghost var i :| at <= i < at + readLen && file[i] != 0;
        assert file[offset..offset + len][i - offset] != 0;
        return false;
      }
      at, remaining := at + readLen, remaining - readLen;
    }
    zero := true;
  }

  /** A search is a function: two results for the same file agree. */
  lemma SearchIsDetermined(c: Codec, file: seq<byte>, spec: SearchSpec, r: Result<Option<RuntimeData>, ReadError>,
                           s: Result<Option<RuntimeData>, ReadError>)
    requires spec.dataEnd <= |file| && SearchResult(c, file, spec, r) && SearchResult(c, file, spec, s)
    ensures r == s
  {
    if !HasNoMagic(file, spec) {
      var p: nat :| NearestAt(file, spec, p) && r == ResultAt(c, file, spec, p);
      var q: nat :| NearestAt(file, spec, q) && s == ResultAt(c, file, spec, q);
      NearestIsOne(file, spec, p, q);
    }
  }

  lemma NearestIsOne(file: seq<byte>, spec: SearchSpec, p: nat, q: nat)
    requires spec.dataEnd <= |file| && NearestAt(file, spec, p) && NearestAt(file, spec, q)
    ensures p == q
  {
  }

  // ---------------------------------------------------------------------
  // What is accepted, and what is refused
  // ---------------------------------------------------------------------

  /** A footer at `at` and a header at `start` belong together: the header is as long as the footer says, has the recorded
      digest, and is one that the parser accepts. `data` names it and the bundle behind it. */
  ghost predicate IsStamp(c: Codec, file: seq<byte>, at: nat, start: nat, f: Footer, data: RuntimeData) {
    && at + FOOTER_LEN <= |file| && file[at..at + FOOTER_LEN] == EncodeFooter(f)
    && start + |data.header| <= |file| && file[start..start + |data.header|] == data.header
    && |data.header| == f.headerLen <= MAX_HEADER_LEN
    && c.sha(data.header) == f.headerSha && c.parses(data.header)
    && (data.bundle.None? <==> f.bundleLen == 0)
    && (data.bundle.Some? ==> data.bundle.value == Bundle(start + |data.header|, f.bundleLen, f.bundleSha))
  }

  /** A payload whose footer `f` ends at `end`, and which starts at `minimum` or behind. */
  ghost predicate EndsWith(c: Codec, file: seq<byte>, end: nat, minimum: nat, f: Footer, data: RuntimeData) {
    var len := f.headerLen + f.bundleLen;
    && len < U64_END && minimum + len + FOOTER_LEN <= end
    && IsStamp(c, file, end - FOOTER_LEN, end - FOOTER_LEN - len, f, data)
  }

  ghost predicate EndsAt(c: Codec, file: seq<byte>, end: nat, minimum: nat, data: RuntimeData) {
    exists f :: EndsWith(c, file, end, minimum, f, data)
  }

  /** What the footer of a window is. */
  lemma FooterIs(window: seq<byte>, f: Footer)
    requires |window| == FOOTER_LEN
    ensures window == EncodeFooter(f) <==> DecodeFooter(window) == Ok(Some(f))
  {
    if window == EncodeFooter(f) {
      DecodeEncode(f);
    } else if DecodeFooter(window) == Ok(Some(f)) {
      EncodeDecode(window);
    }
  }

  /** The payload that a footer describes is read exactly when it belongs to the footer. */
  lemma ReadsPayloadIff(c: Codec, file: seq<byte>, at: nat, start: nat, f: Footer, data: RuntimeData)
    requires at + FOOTER_LEN <= |file| && file[at..at + FOOTER_LEN] == EncodeFooter(f)
    ensures ReadPayload(c, file, start, f) == Ok(data) <==> IsStamp(c, file, at, start, f, data)
  {
  }

  lemma ReadsFooterIff(c: Codec, file: seq<byte>, end: nat, minimum: nat, f: Footer, data: RuntimeData)
    requires FOOTER_LEN <= end <= |file| && DecodeFooter(file[end - FOOTER_LEN..end]) == Ok(Some(f))
    ensures ReadAtFooter(c, file, end - FOOTER_LEN, minimum) == Ok(Some(data)) <==> EndsWith(c, file, end, minimum, f, data)
  {
    FooterIs(file[end - FOOTER_LEN..end], f);
    var len, at := f.headerLen + f.bundleLen, end - FOOTER_LEN;
    if len <= at {
      ReadsPayloadIff(c, file, at, at - len, f, data);
    }
  }

  lemma EndsWithOneFooter(c: Codec, file: seq<byte>, end: nat, minimum: nat, f: Footer, data: RuntimeData)
    requires FOOTER_LEN <= end <= |file| && EndsWith(c, file, end, minimum, f, data)
    ensures DecodeFooter(file[end - FOOTER_LEN..end]) == Ok(Some(f))
  {
    FooterIs(file[end - FOOTER_LEN..end], f);
  }

  /** Reading at a footer returns data exactly when a whole stamp ends there. */
  lemma ReadsStampIff(c: Codec, file: seq<byte>, end: nat, minimum: nat, data: RuntimeData)
    requires FOOTER_LEN <= end <= |file|
    ensures ReadAtFooter(c, file, end - FOOTER_LEN, minimum) == Ok(Some(data)) <==> EndsAt(c, file, end, minimum, data)
  {
    var decoded := DecodeFooter(file[end - FOOTER_LEN..end]);
    if decoded.Ok? && decoded.value.Some? {
      ReadsFooterIff(c, file, end, minimum, decoded.value.value, data);
    }
    forall g | EndsWith(c, file, end, minimum, g, data) ensures decoded == Ok(Some(g)) {
      EndsWithOneFooter(c, file, end, minimum, g, data);
    }
  }

  /** A search meets a whole stamp at the nearest magic, with nothing but zeros behind it. */
  ghost predicate StandsAt(c: Codec, file: seq<byte>, spec: SearchSpec, padding: nat, data: RuntimeData)
    requires spec.dataEnd <= |file|
  {
    && NearestAt(file, spec, padding) && AllZero(file[spec.dataEnd - padding..spec.dataEnd])
    && EndsAt(c, file, spec.dataEnd - padding, spec.minimumPayloadOffset, data)
  }

  lemma ResultStandsIff(c: Codec, file: seq<byte>, spec: SearchSpec, padding: nat, data: RuntimeData)
    requires spec.dataEnd <= |file| && NearestAt(file, spec, padding)
    ensures ResultAt(c, file, spec, padding) == Ok(Some(data)) <==> StandsAt(c, file, spec, padding, data)
    ensures ResultAt(c, file, spec, padding) != Ok(None)
  {
    var end := spec.dataEnd - padding;
    ReadsStampIff(c, file, end, spec.minimumPayloadOffset, data);
    MagicIsNoNothing(c, file, end, spec.minimumPayloadOffset);
  }

  /** At a magic something is read, or an error is found. */
  lemma MagicIsNoNothing(c: Codec, file: seq<byte>, end: nat, minimum: nat)
    requires FOOTER_LEN <= end <= |file| && file[end - 16..end] == MAGIC
    ensures ReadAtFooter(c, file, end - FOOTER_LEN, minimum) != Ok(None)
  {
    assert file[end - FOOTER_LEN..end][84..] == file[end - 16..end];
  }

  /** A search returns data exactly when it meets a stamp, and nothing exactly when it meets no magic. */
  lemma SearchReadsIff(c: Codec, file: seq<byte>, spec: SearchSpec, r: Result<Option<RuntimeData>, ReadError>, data: RuntimeData)
    requires spec.dataEnd <= |file| && SearchResult(c, file, spec, r)
    ensures r == Ok(Some(data)) <==> exists p: nat :: StandsAt(c, file, spec, p, data)
    ensures r == Ok(None) <==> HasNoMagic(file, spec)
  {
    if p: nat :| NearestAt(file, spec, p) && r == ResultAt(c, file, spec, p) {
      ResultStandsIff(c, file, spec, p, data);
      forall q: nat | StandsAt(c, file, spec, q, data) ensures q == p {
        NearestIsOne(file, spec, p, q);
      }
    }
  }

  /** A file that is searched at its end only. */
  lemma UnpaddedReadsIff(c: Codec, file: seq<byte>, minimum: nat, r: Result<Option<RuntimeData>, ReadError>, data: RuntimeData)
    requires SearchResult(c, file, SearchSpec(|file|, 1, minimum), r)
    ensures r == Ok(Some(data)) <==> EndsAt(c, file, |file|, minimum, data)
    ensures r == Ok(None) <==> !MagicAt(file, |file|, 0)
  {
    var spec := SearchSpec(|file|, 1, minimum);
    SearchReadsIff(c, file, spec, r, data);
    assert file[|file|..|file|] == [] && |file| - 0 == |file|;
    if f :| EndsWith(c, file, |file|, minimum, f, data) {
      FooterEndsInMagic(file, |file| - FOOTER_LEN, f);
      assert NearestAt(file, spec, 0);
      assert StandsAt(c, file, spec, 0, data);
    }
    if MagicAt(file, |file|, 0) {
      assert NearestAt(file, spec, 0);
    }
  }

  /** The file `front`, stamped, with `k` zero bytes and then `rest` after the stamp. */
  function PaddedStamp(c: Codec, front: seq<byte>, header: seq<byte>, bundle: seq<byte>, k: nat, rest: seq<byte>): seq<byte>
    requires Stampable(c, header, bundle)
  {
    front + Stamp(c, header, bundle) + Zeros(k) + rest
  }

  /** No window that ends in padding matches: the magic ends in a byte that is not zero. */
  lemma PaddingHidesNoMagic(file: seq<byte>, dataEnd: nat, k: nat, q: nat)
    requires q < k <= dataEnd <= |file| && AllZero(file[dataEnd - k..dataEnd])
    ensures !MagicAt(file, dataEnd, q)
  {
    assert file[dataEnd - k..dataEnd][k - q - 1] == 0;
    if q + FOOTER_LEN <= dataEnd {
      assert file[dataEnd - q - 16..dataEnd - q][15] == 0;
    }
  }

  lemma IsNearest(file: seq<byte>, spec: SearchSpec, k: nat)
    requires k <= spec.dataEnd <= |file| && InRange(k, spec) && MagicAt(file, spec.dataEnd, k)
    requires AllZero(file[spec.dataEnd - k..spec.dataEnd])
    ensures NearestAt(file, spec, k)
  {
    forall q: nat | q < k ensures !MagicAt(file, spec.dataEnd, q) {
      PaddingHidesNoMagic(file, spec.dataEnd, k, q);
    }
  }

  /** The search stops at the nearest window that ends in the magic. */
  lemma NearestIsTaken(c: Codec, file: seq<byte>, spec: SearchSpec, k: nat, r: Result<Option<RuntimeData>, ReadError>)
    requires spec.dataEnd <= |file| && NearestAt(file, spec, k) && SearchResult(c, file, spec, r)
    ensures r == ResultAt(c, file, spec, k)
  {
    assert !HasNoMagic(file, spec);
    var p: nat :| NearestAt(file, spec, p) && r == ResultAt(c, file, spec, p);
    NearestIsOne(file, spec, p, k);
  }

  lemma WindowIsRead(c: Codec, file: seq<byte>, spec: SearchSpec, k: nat, start: nat, r: Result<Option<RuntimeData>, ReadError>)
    requires start + FOOTER_LEN + k == spec.dataEnd <= |file| && InRange(k, spec) && MagicAt(file, spec.dataEnd, k)
    requires AllZero(file[spec.dataEnd - k..spec.dataEnd]) && SearchResult(c, file, spec, r)
    ensures r == ReadAtFooter(c, file, start, spec.minimumPayloadOffset)
  {
    IsNearest(file, spec, k);
    NearestIsTaken(c, file, spec, k, r);
  }

  /** With up to `alignment - 1` bytes of zero padding, the search finds the stamp that was written and nothing
      else, whatever stands before and after it. */
  lemma StampIsFound(c: Codec, front: seq<byte>, header: seq<byte>, bundle: seq<byte>, k: nat, rest: seq<byte>,
                     spec: SearchSpec, r: Result<Option<RuntimeData>, ReadError>)
    requires Stampable(c, header, bundle)
    requires k < spec.alignment || k == 0
    requires spec.minimumPayloadOffset <= |front|
    requires spec.dataEnd == |front| + |header| + |bundle| + FOOTER_LEN + k
    requires SearchResult(c, PaddedStamp(c, front, header, bundle, k, rest), spec, r)
    ensures r == Ok(Some(Stamped(c, |front|, header, bundle)))
  {
    var start := |front| + |header| + |bundle|;
    StampWindow(c, front, header, bundle, k, rest, spec.dataEnd);
    WindowIsRead(c, PaddedStamp(c, front, header, bundle, k, rest), spec, k, start, r);
    StampReadsBack(c, front, header, bundle, k, rest, start, spec.minimumPayloadOffset);
  }

  /** The window that ends `k` bytes before the end of the data is the footer that was written. */
  lemma StampWindow(c: Codec, front: seq<byte>, header: seq<byte>, bundle: seq<byte>, k: nat, rest: seq<byte>, dataEnd: nat)
    requires Stampable(c, header, bundle) && dataEnd == |front| + |header| + |bundle| + FOOTER_LEN + k
    ensures var file := PaddedStamp(c, front, header, bundle, k, rest);
            dataEnd <= |file| && MagicAt(file, dataEnd, k) && AllZero(file[dataEnd - k..dataEnd])
  {
    var file := PaddedStamp(c, front, header, bundle, k, rest);
    var start := dataEnd - k - FOOTER_LEN;
    StampLayout(c, front, header, bundle, k, rest);
    FooterEndsInMagic(file, start, FooterFor(c, header, bundle));
  }

  lemma StampReadsBack(c: Codec, front: seq<byte>, header: seq<byte>, bundle: seq<byte>, k: nat, rest: seq<byte>, start: nat,
                       minimum: nat)
    requires Stampable(c, header, bundle) && minimum <= |front| && start == |front| + |header| + |bundle|
    ensures var file := PaddedStamp(c, front, header, bundle, k, rest);
            start + FOOTER_LEN <= |file| && ReadAtFooter(c, file, start, minimum) == Ok(Some(Stamped(c, |front|, header, bundle)))
  {
    StampLayout(c, front, header, bundle, k, rest);
    FooterIsRead(c, PaddedStamp(c, front, header, bundle, k, rest), |front|, start, header, bundle, minimum);
  }

  lemma FooterIsRead(c: Codec, file: seq<byte>, front: nat, start: nat, header: seq<byte>, bundle: seq<byte>, minimum: nat)
    requires Stampable(c, header, bundle) && minimum <= front && start == front + |header| + |bundle| && start + FOOTER_LEN <= |file|
    requires file[front..front + |header|] == header
    requires file[start..start + FOOTER_LEN] == EncodeFooter(FooterFor(c, header, bundle))
    ensures ReadAtFooter(c, file, start, minimum) == Ok(Some(Stamped(c, front, header, bundle)))
  {
    DecodeEncode(FooterFor(c, header, bundle));
    PayloadIsRead(c, file, front, header, bundle);
  }

  lemma StampLayout(c: Codec, front: seq<byte>, header: seq<byte>, bundle: seq<byte>, k: nat, rest: seq<byte>)
    requires Stampable(c, header, bundle)
    ensures var file := PaddedStamp(c, front, header, bundle, k, rest);
            var start := |front| + |header| + |bundle|;
            && |file| == start + FOOTER_LEN + k + |rest|
            && file[|front|..|front| + |header|] == header
            && file[|front| + |header|..start] == bundle
            && file[start..start + FOOTER_LEN] == EncodeFooter(FooterFor(c, header, bundle))
            && AllZero(file[start + FOOTER_LEN..start + FOOTER_LEN + k])
  {
    var file := PaddedStamp(c, front, header, bundle, k, rest);
    var start := |front| + |header| + |bundle|;
    assert file[start + FOOTER_LEN..start + FOOTER_LEN + k] == Zeros(k);
  }

  /** The file `front`, a header, and a bundle and a footer, with `k` zero bytes and then `rest` behind them. */
  function Altered(front: seq<byte>, header: seq<byte>, bundle: seq<byte>, footer: seq<byte>, k: nat, rest: seq<byte>): seq<byte> {
    front + header + bundle + footer + Zeros(k) + rest
  }

  /** A stamp whose header was replaced by one with another digest is refused, wherever the bundle and the footer are as they
      were written. */
  lemma AlteredHeaderIsRefused(c: Codec, front: seq<byte>, header: seq<byte>, altered: seq<byte>, bundle: seq<byte>, k: nat,
                               rest: seq<byte>, spec: SearchSpec, r: Result<Option<RuntimeData>, ReadError>)
    requires Stampable(c, header, bundle) && |altered| == |header| && c.sha(altered) != c.sha(header)
    requires k < spec.alignment || k == 0
    requires spec.dataEnd == |front| + |header| + |bundle| + FOOTER_LEN + k
    requires SearchResult(c, Altered(front, altered, bundle, EncodeFooter(FooterFor(c, header, bundle)), k, rest), spec, r)
    ensures r.Err?
  {
    var f := FooterFor(c, header, bundle);
    AlteredLayout(front, altered, bundle, EncodeFooter(f), k, rest);
    OtherDigestIsRefused(c, Altered(front, altered, bundle, EncodeFooter(f), k, rest), spec, k, |front|, |altered|, |bundle|, altered, f, r);
  }

  /** A header with another digest than that in its footer is refused. */
  lemma OtherDigestIsRefused(c: Codec, file: seq<byte>, spec: SearchSpec, k: nat, start: nat, headerLen: nat, bundleLen: nat,
                             header: seq<byte>, f: Footer, r: Result<Option<RuntimeData>, ReadError>)
    requires start + headerLen + bundleLen + FOOTER_LEN + k == spec.dataEnd <= |file| && InRange(k, spec)
    requires f.headerLen == headerLen && f.bundleLen == bundleLen && file[start..start + headerLen] == header && c.sha(header) != f.headerSha
    requires var at := start + headerLen + bundleLen; file[at..at + FOOTER_LEN] == EncodeFooter(f) && AllZero(file[at + FOOTER_LEN..at + FOOTER_LEN + k])
    requires SearchResult(c, file, spec, r)
    ensures r.Err?
  {
    var at := start + headerLen + bundleLen;
    FooterEndsInMagic(file, at, f);
    PaddingIs(file, at + FOOTER_LEN, k, spec.dataEnd);
    WindowIsRead(c, file, spec, k, at, r);
    WrongDigest(c, file, at, start, spec.minimumPayloadOffset, f, header);
  }

  lemma PaddingIs(file: seq<byte>, from: nat, k: nat, end: nat)
    requires from + k == end <= |file| && 16 <= from
    ensures file[from..from + k] == file[end - k..end] && file[from - 16..from] == file[end - k - 16..end - k]
  {
  }

  lemma WrongDigest(c: Codec, file: seq<byte>, at: nat, start: nat, minimum: nat, f: Footer, header: seq<byte>)
    requires at + FOOTER_LEN <= |file| && file[at..at + FOOTER_LEN] == EncodeFooter(f) && start + f.headerLen + f.bundleLen == at
    requires file[start..start + f.headerLen] == header && c.sha(header) != f.headerSha
    ensures ReadAtFooter(c, file, at, minimum).Err?
  {
    DecodeEncode(f);
  }

  lemma FooterEndsInMagic(file: seq<byte>, at: nat, f: Footer)
    requires at + FOOTER_LEN <= |file| && file[at..at + FOOTER_LEN] == EncodeFooter(f)
    ensures file[at + 84..at + FOOTER_LEN] == MAGIC
  {
    assert file[at + 84..at + FOOTER_LEN] == file[at..at + FOOTER_LEN][84..];
    assert EncodeFooter(f)[84..] == MAGIC;
  }

  lemma AlteredLayout(front: seq<byte>, altered: seq<byte>, bundle: seq<byte>, footer: seq<byte>, k: nat, rest: seq<byte>)
    requires |footer| == FOOTER_LEN
    ensures var file := Altered(front, altered, bundle, footer, k, rest);
            var start := |front| + |altered| + |bundle|;
            && |file| == start + FOOTER_LEN + k + |rest| && file[|front|..|front| + |altered|] == altered
            && file[start..start + FOOTER_LEN] == footer && AllZero(file[start + FOOTER_LEN..start + FOOTER_LEN + k])
  {
    var file := Altered(front, altered, bundle, footer, k, rest);
    var start := |front| + |altered| + |bundle|;
    assert file[start + FOOTER_LEN..start + FOOTER_LEN + k] == Zeros(k);
  }

  /** On a file of no known format a stamp is appended at the end, and the last one is read. */
  lemma SecondStampWins(c: Codec, file: seq<byte>, header1: seq<byte>, bundle1: seq<byte>, header2: seq<byte>,
                        bundle2: seq<byte>, r: Result<Option<RuntimeData>, ReadError>)
    requires Stampable(c, header1, bundle1) && Stampable(c, header2, bundle2)
    requires var twice := file + Stamp(c, header1, bundle1) + Stamp(c, header2, bundle2);
             SearchResult(c, twice, SearchSpec(|twice|, 1, 0), r)
    ensures r == Ok(Some(Stamped(c, |file| + |header1| + |bundle1| + FOOTER_LEN, header2, bundle2)))
  {
    var once := file + Stamp(c, header1, bundle1);
    assert once + Stamp(c, header2, bundle2) == PaddedStamp(c, once, header2, bundle2, 0, []);
    StampIsFound(c, once, header2, bundle2, 0, [], SearchSpec(|once| + |header2| + |bundle2| + FOOTER_LEN, 1, 0), r);
  }
}
