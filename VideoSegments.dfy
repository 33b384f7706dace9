/**
 * `serveHlsSegments`: serves one file `<videoId>/<fileName>` under the media
 * directory, with single-range support (a subset of the `Range: bytes=` syntax of
 * section 14.1.2 of RFC 9110, answered with the `Content-Range` of section 14.4).
 *
 * The checks run in a fixed order: both parameters present (else 400), the joined
 * path starts with the media directory as a string (else 403), the file exists
 * (else 404). The file itself stays abstract: what `existsSync`/`statSync` report
 * is the `FileStat` input, and streaming is the `WholeFile`/`ByteSpan` body.
 */
module VideoSegments {
  import opened Wrappers
  import opened JsStrings
  import opened NodePath
  import opened Http

  const MpegTs := "video/mp2t"
  const MpegUrl := "application/vnd.apple.mpegurl"
  const CacheControl := "no-cache, no-store, must-revalidate"
  const MissingText := "Missing videoId or fileName"
  const ForbiddenText := "Forbidden"
  const NotFoundText := "File not found"
  const UnsatisfiableText := "Requested Range Not Satisfiable"
  const InternalErrorText := "Internal Server Error"

  /** What `existsSync` and `statSync` report for the joined path. */
  datatype FileStat = Missing | Present(size: nat)

  /** The Content-Type chosen by extension; none for any other name. The two
      extensions exclude each other, so the order of the tests does not matter. */
  function ContentTypeFor(fileName: string): (t: Option<string>)
    ensures t == Some(MpegTs) <==> EndsWith(fileName, ".ts")
    ensures t == Some(MpegUrl) <==> EndsWith(fileName, ".m3u8")
    ensures t == None <==> !EndsWith(fileName, ".ts") && !EndsWith(fileName, ".m3u8")
  {
    if EndsWith(fileName, ".ts") then
      assert fileName[|fileName| - 1] == 's';
      Some(MpegTs)
    else if EndsWith(fileName, ".m3u8") then Some(MpegUrl)
    else None
  }

  /** The offsets read from a Range header; a `NaN` offset is None. */
  datatype ByteRange = ByteRange(start: Option<int>, end: Option<int>)

  /** `range.replace(/bytes=/, '').split('-')`, then `start` parsed from the first
      piece and `end` from the second, or `fileSize - 1` when the second piece is
      missing or empty. */
  function ParseRange(header: string, fileSize: nat): ByteRange {
    var parts := Split(StripFirst(header, "bytes="), Char('-'));
    ByteRange(
      ParseInt(parts[0]),
      if |parts| > 1 && parts[1] != "" then ParseInt(parts[1]) else Some(fileSize - 1))
  }

  /** `start >= fileSize`; a comparison with `NaN` is false. */
  predicate BeyondEnd(r: ByteRange, fileSize: nat) {
    r.start.Some? && r.start.value >= fileSize
  }

  /** `end - start + 1`, `NaN` when either offset is. */
  function ChunkSize(r: ByteRange): Option<int> {
    if r.start.Some? && r.end.Some? then Some(r.end.value - r.start.value + 1) else None
  }

  /** Whether `createReadStream(filePath, { start, end })` accepts the offsets:
      Node's file streams take only non-negative integers with `start <= end`
      and throw on anything else, which sends the handler into its `catch`. */
  predicate StreamAccepts(r: ByteRange) {
    r.start.Some? && r.end.Some? && 0 <= r.start.value <= r.end.value
  }

  /** `bytes ${start}-${end}/${fileSize}` */
  function ContentRange(r: ByteRange, fileSize: nat): string {
    "bytes " + NumberToString(r.start) + "-" + NumberToString(r.end) + "/" + Decimal(fileSize)
  }

  /** The headers set on every response that reaches the file. */
  function StreamingHeaders(r: Reply): Reply {
    var h1 := WithHeader(r, "Accept-Ranges", "bytes");
    var h2 := WithHeader(h1, "Cache-Control", CacheControl);
    var h3 := WithHeader(h2, "Pragma", "no-cache");
    WithHeader(h3, "Expires", "0")
  }

  /** The joined path the guard inspects. */
  function SegmentPath(base: seq<string>, videoId: string, fileName: string): string
    requires IsResolvedDir(base)
  {
    JoinPath(Absolute(base), videoId, fileName)
  }

  /** The response `serveHlsSegments` leaves behind, starting from `pre`. */
  function SegmentReply(
    pre: Reply, base: seq<string>, videoId: string, fileName: string,
    file: FileStat, range: Option<string>): Reply
    requires IsResolvedDir(base)
  {
    if videoId == "" || fileName == "" then pre.(status := 400, body := Text(MissingText))
    else if !InsideBase(SegmentPath(base, videoId, fileName), base) then
      pre.(status := 403, body := Text(ForbiddenText))
    else if file.Missing? then pre.(status := 404, body := Text(NotFoundText))
    else FileReply(pre, fileName, file.size, range)
  }

  /** Content-Type by extension, left alone for any other name. */
  function Typed(pre: Reply, fileName: string): Reply {
    match ContentTypeFor(fileName)
    case Some(t) => WithHeader(pre, "Content-Type", t)
    case None => pre
  }

  /** The response once the file is known to exist. */
  function FileReply(pre: Reply, fileName: string, fileSize: nat, range: Option<string>): Reply {
    var streaming := StreamingHeaders(Typed(pre, fileName));
    if range.Some? && range.value != "" then RangeReply(streaming, fileSize, ParseRange(range.value, fileSize))
    else WithHeader(streaming, "Content-Length", Decimal(fileSize)).(body := WholeFile)
  }

  /** The response to a Range header read as `r`. When the stream refuses the
      offsets nothing has been written yet, so the `catch` block replaces the
      206 by a 500; the two range headers stay set. */
  function RangeReply(streaming: Reply, fileSize: nat, r: ByteRange): Reply {
    if BeyondEnd(r, fileSize) then
      streaming.(status := 416, body := Text(UnsatisfiableText))
    else
      var ranged := WithHeader(streaming.(status := 206), "Content-Range", ContentRange(r, fileSize));
      var sized := WithHeader(ranged, "Content-Length", NumberToString(ChunkSize(r)));
      if StreamAccepts(r) then sized.(body := ByteSpan(r.start.value, r.end.value))
      else sized.(status := 500, body := Text(InternalErrorText))
  }

  /** The handler, step by step on the response object. */
  method ServeHlsSegments(
    res: Response, base: seq<string>, videoId: string, fileName: string,
    file: FileStat, range: Option<string>)
    requires IsResolvedDir(base)
    modifies res
    ensures res.Snapshot() == SegmentReply(old(res.Snapshot()), base, videoId, fileName, file, range)
  {
    if videoId == "" || fileName == "" {
      res.Status(400);
      res.Send(MissingText);
      return;
    }
    var filePath := JoinPath(Absolute(base), videoId, fileName);
    if !StartsWith(filePath, Absolute(base)) {
      res.Status(403);
      res.Send(ForbiddenText);
      return;
    }
    if file.Missing? {
      res.Status(404);
      res.Send(NotFoundText);
      return;
    }
    StreamFile(res, fileName, file.size, range);
  }

  /** The part of the handler after the existence check: headers, then the
      Range header, then the stream. */
  method StreamFile(res: Response, fileName: string, fileSize: nat, range: Option<string>)
    modifies res
    ensures res.Snapshot() == FileReply(old(res.Snapshot()), fileName, fileSize, range)
  {
    if EndsWith(fileName, ".ts") {
      res.SetHeader("Content-Type", MpegTs);
    } else if EndsWith(fileName, ".m3u8") {
      res.SetHeader("Content-Type", MpegUrl);
    }
    assert res.Snapshot() == Typed(old(res.Snapshot()), fileName);
    res.SetHeader("Accept-Ranges", "bytes");
    res.SetHeader("Cache-Control", CacheControl);
    res.SetHeader("Pragma", "no-cache");
    res.SetHeader("Expires", "0");
    ghost var streaming := res.Snapshot();
    assert streaming == StreamingHeaders(Typed(old(res.Snapshot()), fileName));
    if range.Some? && range.value != "" {
      var r := ParseRange(range.value, fileSize);
      AnswerRange(res, fileSize, r);
    } else {
      res.SetHeader("Content-Length", Decimal(fileSize));
      res.Pipe(WholeFile);
    }
  }

  /** The Range branch: 416 for a start at or past the end, otherwise 206 with
      the span `start..end`, or 500 when the stream refuses the offsets. */
  method AnswerRange(res: Response, fileSize: nat, r: ByteRange)
    modifies res
    ensures res.Snapshot() == RangeReply(old(res.Snapshot()), fileSize, r)
  {
    if r.start.Some? && r.start.value >= fileSize {
      res.Status(416);
      res.Send(UnsatisfiableText);
      return;
    }
    var chunkSize := if r.start.Some? && r.end.Some? then Some(r.end.value - r.start.value + 1) else None;
    res.Status(206);
    res.SetHeader("Content-Range",
      "bytes " + NumberToString(r.start) + "-" + NumberToString(r.end) + "/" + Decimal(fileSize));
    res.SetHeader("Content-Length", NumberToString(chunkSize));
    if r.start.Some? && r.end.Some? && 0 <= r.start.value <= r.end.value {
      res.Pipe(ByteSpan(r.start.value, r.end.value));
    } else {
      res.Status(500);
      res.Send(InternalErrorText);
    }
  }

  // ------------------------------------------------------------------ properties

  /** The request gets as far as the file: both names given, the guard passed,
      the file present. */
  predicate Reaches(base: seq<string>, videoId: string, fileName: string, file: FileStat)
    requires IsResolvedDir(base)
  {
    videoId != "" && fileName != "" && InsideBase(SegmentPath(base, videoId, fileName), base)
    && file.Present?
  }

  /** A missing name yields 400 and nothing else: no header is set and neither
      the path nor the file nor the Range header is looked at. */
  lemma MissingNameIsBadRequest(
    pre: Reply, base: seq<string>, videoId: string, fileName: string,
    file: FileStat, range: Option<string>)
    requires IsResolvedDir(base) && pre.status == 200
    ensures SegmentReply(pre, base, videoId, fileName, file, range).status == 400
        <==> videoId == "" || fileName == ""
    ensures videoId == "" || fileName == "" ==>
      SegmentReply(pre, base, videoId, fileName, file, range) == pre.(status := 400, body := Text(MissingText))
  {
  }

  /** A joined path that fails the prefix test yields 403 whatever the file and
      the Range header, so the guard runs before the existence check; a path
      that passes it but does not exist yields 404. */
  lemma GuardBeforeExistence(
    pre: Reply, base: seq<string>, videoId: string, fileName: string,
    file: FileStat, range: Option<string>)
    requires IsResolvedDir(base) && pre.status == 200
    ensures var r := SegmentReply(pre, base, videoId, fileName, file, range);
      && (r.status == 403 <==>
            videoId != "" && fileName != "" && !InsideBase(SegmentPath(base, videoId, fileName), base))
      && (r.status == 403 ==> r == pre.(status := 403, body := Text(ForbiddenText)))
      && (r.status == 404 <==>
            videoId != "" && fileName != "" && InsideBase(SegmentPath(base, videoId, fileName), base)
            && file.Missing?)
      && (r.status == 404 ==> r == pre.(status := 404, body := Text(NotFoundText)))
  {
  }

  /** Once both names are given, the guard passes and the file exists, the rest
      of the response depends only on the file name, its size and the Range
      header; short of that, no header is set and the body is one of the three
      error texts, never the file. */
  lemma ReachedServesFile(
    pre: Reply, base: seq<string>, videoId: string, fileName: string,
    file: FileStat, range: Option<string>)
    requires IsResolvedDir(base)
    ensures Reaches(base, videoId, fileName, file)
        ==> SegmentReply(pre, base, videoId, fileName, file, range) == FileReply(pre, fileName, file.size, range)
    ensures !Reaches(base, videoId, fileName, file) ==>
      var r := SegmentReply(pre, base, videoId, fileName, file, range);
      && r.headers == pre.headers
      && r.status in {400, 403, 404}
      && r.body in {Text(MissingText), Text(ForbiddenText), Text(NotFoundText)}
  {
  }

  /** The Range branch touches no header but Content-Range and Content-Length. */
  lemma RangeReplyKeepsHeaders(streaming: Reply, fileSize: nat, r: ByteRange)
    ensures var reply := RangeReply(streaming, fileSize, r);
      forall k :: k != "Content-Range" && k != "Content-Length" ==>
        (k in reply.headers <==> k in streaming.headers)
        && (k in streaming.headers ==> reply.headers[k] == streaming.headers[k])
  {
  }

  /** The whole-file branch touches no header but Content-Length. */
  lemma WholeFileKeepsHeaders(streaming: Reply, fileSize: nat)
    ensures var reply := WithHeader(streaming, "Content-Length", Decimal(fileSize));
      forall k :: k != "Content-Length" ==>
        (k in reply.headers <==> k in streaming.headers)
        && (k in streaming.headers ==> reply.headers[k] == streaming.headers[k])
  {
  }

  /** Content-Type by extension, then the four streaming headers. */
  lemma StreamingHeadersSet(pre: Reply, fileName: string)
    ensures var r := StreamingHeaders(Typed(pre, fileName));
      && r.status == pre.status
      && (EndsWith(fileName, ".ts") ==> "Content-Type" in r.headers && r.headers["Content-Type"] == MpegTs)
      && (EndsWith(fileName, ".m3u8") ==> "Content-Type" in r.headers && r.headers["Content-Type"] == MpegUrl)
      && (ContentTypeFor(fileName).None? ==>
            ("Content-Type" in r.headers <==> "Content-Type" in pre.headers)
            && ("Content-Type" in pre.headers ==> r.headers["Content-Type"] == pre.headers["Content-Type"]))
      && "Accept-Ranges" in r.headers && r.headers["Accept-Ranges"] == "bytes"
      && "Cache-Control" in r.headers && r.headers["Cache-Control"] == CacheControl
      && "Pragma" in r.headers && r.headers["Pragma"] == "no-cache"
      && "Expires" in r.headers && r.headers["Expires"] == "0"
  {
  }

  /** On a reached file, Content-Type follows the extension (and is left alone
      for any other name), and `Accept-Ranges: bytes` and the three no-cache
      headers are present whether the answer is 200, 206 or 416. */
  lemma FileHeaders(pre: Reply, fileName: string, fileSize: nat, range: Option<string>)
    ensures var r := FileReply(pre, fileName, fileSize, range);
      && r.status in {206, 416, 500} + {pre.status}
      && (EndsWith(fileName, ".ts") ==> "Content-Type" in r.headers && r.headers["Content-Type"] == MpegTs)
      && (EndsWith(fileName, ".m3u8") ==> "Content-Type" in r.headers && r.headers["Content-Type"] == MpegUrl)
      && (ContentTypeFor(fileName).None? ==>
            ("Content-Type" in r.headers <==> "Content-Type" in pre.headers)
            && ("Content-Type" in pre.headers ==> r.headers["Content-Type"] == pre.headers["Content-Type"]))
      && "Accept-Ranges" in r.headers && r.headers["Accept-Ranges"] == "bytes"
      && "Cache-Control" in r.headers && r.headers["Cache-Control"] == CacheControl
      && "Pragma" in r.headers && r.headers["Pragma"] == "no-cache"
      && "Expires" in r.headers && r.headers["Expires"] == "0"
  {
    var streaming := StreamingHeaders(Typed(pre, fileName));
    var r := FileReply(pre, fileName, fileSize, range);
    StreamingHeadersSet(pre, fileName);
    if range.Some? && range.value != "" {
      RangeReplyKeepsHeaders(streaming, fileSize, ParseRange(range.value, fileSize));
      RangeReplyStatus(streaming, fileSize, ParseRange(range.value, fileSize));
    } else {
      WholeFileKeepsHeaders(streaming, fileSize);
    }
    FileHeadersFrom(pre, fileName, streaming, r);
  }

  lemma RangeReplyStatus(streaming: Reply, fileSize: nat, r: ByteRange)
    ensures RangeReply(streaming, fileSize, r).status in {206, 416, 500}
  {
  }

  /** A reply that agrees with the streaming headers on every key but the two
      range headers carries the content type and the four streaming headers. */
  lemma FileHeadersFrom(pre: Reply, fileName: string, streaming: Reply, r: Reply)
    requires streaming == StreamingHeaders(Typed(pre, fileName))
    requires forall k :: k != "Content-Range" && k != "Content-Length" ==>
      (k in r.headers <==> k in streaming.headers)
      && (k in streaming.headers ==> r.headers[k] == streaming.headers[k])
    ensures && (EndsWith(fileName, ".ts") ==> "Content-Type" in r.headers && r.headers["Content-Type"] == MpegTs)
      && (EndsWith(fileName, ".m3u8") ==> "Content-Type" in r.headers && r.headers["Content-Type"] == MpegUrl)
      && (ContentTypeFor(fileName).None? ==>
            ("Content-Type" in r.headers <==> "Content-Type" in pre.headers)
            && ("Content-Type" in pre.headers ==> r.headers["Content-Type"] == pre.headers["Content-Type"]))
      && "Accept-Ranges" in r.headers && r.headers["Accept-Ranges"] == "bytes"
      && "Cache-Control" in r.headers && r.headers["Cache-Control"] == CacheControl
      && "Pragma" in r.headers && r.headers["Pragma"] == "no-cache"
      && "Expires" in r.headers && r.headers["Expires"] == "0"
  {
    StreamingHeadersSet(pre, fileName);
  }

  /** A Range whose start is at or past the end of the file yields 416 with the
      message as body; neither Content-Range nor Content-Length is set. */
  lemma StartPastEndIsUnsatisfiable(pre: Reply, fileName: string, fileSize: nat, header: string)
    requires header != "" && BeyondEnd(ParseRange(header, fileSize), fileSize)
    ensures var r := FileReply(pre, fileName, fileSize, Some(header));
      && r.status == 416 && r.body == Text(UnsatisfiableText)
      && ("Content-Range" in r.headers <==> "Content-Range" in pre.headers)
      && ("Content-Length" in r.headers <==> "Content-Length" in pre.headers)
  {
    FileReplyOfRange(pre, fileName, fileSize, header);
  }

  /** With a non-empty Range header the file reply is the range reply over the
      streaming headers. */
  lemma FileReplyOfRange(pre: Reply, fileName: string, fileSize: nat, header: string)
    requires header != ""
    ensures FileReply(pre, fileName, fileSize, Some(header))
         == RangeReply(StreamingHeaders(Typed(pre, fileName)), fileSize, ParseRange(header, fileSize))
  {
  }

  /** The range reply when the start is inside the file. */
  lemma RangeOutcome(streaming: Reply, fileSize: nat, range: ByteRange)
    requires !BeyondEnd(range, fileSize)
    ensures var r := RangeReply(streaming, fileSize, range);
      && (r.status == 206 <==> StreamAccepts(range))
      && (StreamAccepts(range) ==> r.body == ByteSpan(range.start.value, range.end.value))
      && (!StreamAccepts(range) ==> r.status == 500 && r.body == Text(InternalErrorText))
      && "Content-Range" in r.headers && r.headers["Content-Range"] == ContentRange(range, fileSize)
      && "Content-Length" in r.headers && r.headers["Content-Length"] == NumberToString(ChunkSize(range))
  {
  }

  /** Any other Range header sets `Content-Range: bytes start-end/size` and
      `Content-Length` equal to `end - start + 1`; `end` is used as parsed, not
      clamped and not compared with `start` or the size. The answer is 206 with
      exactly the bytes `start..end` when the stream accepts the offsets, and
      500 with the error text when it does not. */
  lemma OtherRangeIsPartial(pre: Reply, fileName: string, fileSize: nat, header: string)
    requires header != "" && !BeyondEnd(ParseRange(header, fileSize), fileSize)
    ensures var r := FileReply(pre, fileName, fileSize, Some(header));
      var range := ParseRange(header, fileSize);
      && (r.status == 206 <==> StreamAccepts(range))
      && (StreamAccepts(range) ==> r.body == ByteSpan(range.start.value, range.end.value))
      && (!StreamAccepts(range) ==> r.status == 500 && r.body == Text(InternalErrorText))
      && "Content-Range" in r.headers
      && r.headers["Content-Range"]
         == "bytes " + NumberToString(range.start) + "-" + NumberToString(range.end) + "/" + Decimal(fileSize)
      && "Content-Length" in r.headers
      && r.headers["Content-Length"] == NumberToString(ChunkSize(range))
      && (ChunkSize(range).Some? ==> ChunkSize(range).value == range.end.value - range.start.value + 1)
  {
    FileReplyOfRange(pre, fileName, fileSize, header);
    RangeOutcome(StreamingHeaders(Typed(pre, fileName)), fileSize, ParseRange(header, fileSize));
  }

  /** The reply to a header whose offsets are known numbers, the start inside
      the file. */
  lemma KnownRangeReply(pre: Reply, fileName: string, fileSize: nat, header: string, s: nat, e: nat)
    requires ParseRange(header, fileSize) == ByteRange(Some(s), Some(e)) && s < fileSize
    ensures var r := FileReply(pre, fileName, fileSize, Some(header));
      && (r.status == 206 <==> s <= e)
      && (s <= e ==> r.body == ByteSpan(s, e))
      && (e < s ==> r.status == 500 && r.body == Text(InternalErrorText))
      && "Content-Length" in r.headers && r.headers["Content-Length"] == NumberToString(Some(e - s + 1))
  {
    EmptyHeaderHasNoStart(fileSize);
    OtherRangeIsPartial(pre, fileName, fileSize, header);
  }

  lemma PartialRangeReply(pre: Reply, fileName: string, fileSize: nat, header: string, s: nat, e: nat)
    requires ParseRange(header, fileSize) == ByteRange(Some(s), Some(e)) && s <= e && s < fileSize
    ensures var r := FileReply(pre, fileName, fileSize, Some(header));
      && r.status == 206
      && "Content-Length" in r.headers && r.headers["Content-Length"] == NumberToString(Some(e - s + 1))
      && r.body == ByteSpan(s, e)
  {
    KnownRangeReply(pre, fileName, fileSize, header, s, e);
  }

  lemma EmptyHeaderHasNoStart(fileSize: nat)
    ensures ParseRange("", fileSize).start == None
  {
    ParseIntWithoutDigits("");
  }

  /** Without a Range header (or with an empty one) the status is left as it was
      (200 by default), Content-Length is the file size and the whole file is
      streamed. */
  lemma NoRangeIsWholeFile(pre: Reply, fileName: string, fileSize: nat, range: Option<string>)
    requires range.None? || range.value == ""
    ensures var r := FileReply(pre, fileName, fileSize, range);
      && r.status == pre.status
      && "Content-Length" in r.headers && r.headers["Content-Length"] == Decimal(fileSize)
      && ParseInt(r.headers["Content-Length"]) == Some(fileSize)
      && r.body == WholeFile
  {
    ParseIntDecimal(fileSize);
  }

  // ------------------------------------------------------------------ range parsing

  lemma StripBytesPrefix(header: string, t: string)
    requires header == "bytes=" + t
    ensures StripFirst(header, "bytes=") == t
  {
    assert header[..6] == "bytes=";
    assert IndexOf(header, "bytes=") == Some(0);
  }

  lemma SplitNumerals(s: nat, e: nat)
    ensures Split(Decimal(s) + "-" + Decimal(e), Char('-')) == [Decimal(s), Decimal(e)]
  {
    SplitAtDelimiter(Decimal(s), '-', Decimal(e), Char('-'));
    assert Decimal(s) + "-" + Decimal(e) == Decimal(s) + ['-'] + Decimal(e);
    SplitOfFree(Decimal(s), Char('-'));
    SplitOfFree(Decimal(e), Char('-'));
  }

  /** A header `bytes=A-B` whose two pieces hold no "-" reads its start as
      `parseInt(A)` and its end as `parseInt(B)`, or as the last byte of the
      file when `B` is empty. */
  lemma ParseRangeOfText(p0: string, p1: string, fileSize: nat)
    requires Free(p0, Char('-')) && Free(p1, Char('-'))
    ensures ParseRange("bytes=" + p0 + "-" + p1, fileSize)
         == ByteRange(ParseInt(p0), if p1 != "" then ParseInt(p1) else Some(fileSize - 1))
  {
    StripBytesOfTwo(p0, p1);
    SplitTwoPieces(p0, p1);
    ParseRangeOfPieces("bytes=" + p0 + "-" + p1, p0 + "-" + p1, fileSize, [p0, p1]);
  }

  /** A header `bytes=A` without any "-" has no end piece: the end is the last
      byte of the file. */
  lemma ParseRangeWithoutDash(p: string, fileSize: nat)
    requires Free(p, Char('-'))
    ensures ParseRange("bytes=" + p, fileSize) == ByteRange(ParseInt(p), Some(fileSize - 1))
  {
    StripBytesPrefix("bytes=" + p, p);
    SplitOfFree(p, Char('-'));
    ParseRangeOfPieces("bytes=" + p, p, fileSize, [p]);
  }

  lemma StripBytesOfTwo(p0: string, p1: string)
    ensures StripFirst("bytes=" + p0 + "-" + p1, "bytes=") == p0 + "-" + p1
  {
    assert "bytes=" + p0 + "-" + p1 == "bytes=" + (p0 + "-" + p1);
    StripBytesPrefix("bytes=" + p0 + "-" + p1, p0 + "-" + p1);
  }

  lemma SplitTwoPieces(p0: string, p1: string)
    requires Free(p0, Char('-')) && Free(p1, Char('-'))
    ensures Split(p0 + "-" + p1, Char('-')) == [p0, p1]
  {
    SplitAtDelimiter(p0, '-', p1, Char('-'));
    SplitOfFree(p0, Char('-'));
    SplitOfFree(p1, Char('-'));
  }

  /** `bytes=START-END` with decimal numerals gives exactly those offsets. */
  lemma ParseClosedRange(s: nat, e: nat, fileSize: nat)
    ensures ParseRange("bytes=" + Decimal(s) + "-" + Decimal(e), fileSize) == ByteRange(Some(s), Some(e))
  {
    var header := "bytes=" + Decimal(s) + "-" + Decimal(e);
    var t := Decimal(s) + "-" + Decimal(e);
    assert header == "bytes=" + t;
    StripBytesPrefix(header, t);
    SplitNumerals(s, e);
    ParseIntDecimal(s);
    ParseIntDecimal(e);
    ParseRangeOfPieces(header, t, fileSize, [Decimal(s), Decimal(e)]);
  }

  lemma SplitOpen(s: nat)
    ensures Split(Decimal(s) + "-", Char('-')) == [Decimal(s), ""]
  {
    SplitAtDelimiter(Decimal(s), '-', "", Char('-'));
    assert Decimal(s) + ['-'] + "" == Decimal(s) + "-";
    SplitOfFree(Decimal(s), Char('-'));
  }

  /** `bytes=START-` runs to the last byte of the file. */
  lemma ParseOpenRange(s: nat, fileSize: nat)
    ensures ParseRange("bytes=" + Decimal(s) + "-", fileSize) == ByteRange(Some(s), Some(fileSize - 1))
  {
    var header := "bytes=" + Decimal(s) + "-";
    var t := Decimal(s) + "-";
    assert header == "bytes=" + t;
    StripBytesPrefix(header, t);
    SplitOpen(s);
    ParseIntDecimal(s);
    ParseRangeOfPieces(header, t, fileSize, [Decimal(s), ""]);
  }

  /** A suffix range `bytes=-N` has no start: `parseInt('')` is `NaN`, which no
      comparison with the file size rejects, so it gets past the 416 test. */
  lemma SuffixRangeHasNaNStart(n: nat, fileSize: nat)
    ensures ParseRange("bytes=-" + Decimal(n), fileSize) == ByteRange(None, Some(n))
    ensures !BeyondEnd(ParseRange("bytes=-" + Decimal(n), fileSize), fileSize)
  {
    StripSuffixHeader(n);
    SplitSuffix(n);
    ParseSuffixPieces("bytes=-" + Decimal(n), "-" + Decimal(n), fileSize, n);
  }

  lemma StripSuffixHeader(n: nat)
    ensures StripFirst("bytes=-" + Decimal(n), "bytes=") == "-" + Decimal(n)
  {
    StripBytesPrefix("bytes=-" + Decimal(n), "-" + Decimal(n));
  }

  lemma ParseSuffixPieces(header: string, t: string, fileSize: nat, n: nat)
    requires StripFirst(header, "bytes=") == t && Split(t, Char('-')) == ["", Decimal(n)]
    ensures ParseRange(header, fileSize) == ByteRange(None, Some(n))
  {
    ParseRangeOfPieces(header, t, fileSize, ["", Decimal(n)]);
    ParseIntWithoutDigits("");
    ParseIntDecimal(n);
  }

  /** ... and then the stream refuses the `NaN` start: a suffix range is never
      served, it ends in 500 with `Content-Range: bytes NaN-N/size`. */
  lemma SuffixRangeIsServerError(pre: Reply, fileName: string, fileSize: nat, n: nat)
    ensures var r := FileReply(pre, fileName, fileSize, Some("bytes=-" + Decimal(n)));
      && r.status == 500 && r.body == Text(InternalErrorText)
      && "Content-Range" in r.headers && r.headers["Content-Range"] == "bytes NaN-" + Decimal(n) + "/" + Decimal(fileSize)
  {
    var header := "bytes=-" + Decimal(n);
    SuffixRangeHasNaNStart(n, fileSize);
    assert !StreamAccepts(ParseRange(header, fileSize));
    SuffixContentRange(n, fileSize);
    OtherRangeIsPartial(pre, fileName, fileSize, header);
  }

  lemma SuffixContentRange(n: nat, fileSize: nat)
    ensures ContentRange(ByteRange(None, Some(n)), fileSize) == "bytes NaN-" + Decimal(n) + "/" + Decimal(fileSize)
  {
  }

  /** An open range `bytes=S-` with `S` inside the file streams from `S` to the
      last byte, with 206. */
  lemma OpenRangeIsRestOfFile(pre: Reply, fileName: string, fileSize: nat, s: nat)
    requires s < fileSize
    ensures var r := FileReply(pre, fileName, fileSize, Some("bytes=" + Decimal(s) + "-"));
      && r.status == 206
      && "Content-Length" in r.headers && r.headers["Content-Length"] == NumberToString(Some(fileSize - s))
      && r.body == ByteSpan(s, fileSize - 1)
  {
    ParseOpenRange(s, fileSize);
    OpenRangeReply(pre, fileName, fileSize, "bytes=" + Decimal(s) + "-", s);
  }

  lemma OpenRangeReply(pre: Reply, fileName: string, fileSize: nat, header: string, s: nat)
    requires ParseRange(header, fileSize) == ByteRange(Some(s), Some(fileSize - 1)) && s < fileSize
    ensures var r := FileReply(pre, fileName, fileSize, Some(header));
      && r.status == 206
      && "Content-Length" in r.headers && r.headers["Content-Length"] == NumberToString(Some(fileSize - s))
      && r.body == ByteSpan(s, fileSize - 1)
  {
    PartialRangeReply(pre, fileName, fileSize, header, s, fileSize - 1);
    assert fileSize - 1 - s + 1 == fileSize - s;
  }

  /** A closed range whose end comes before its start passes the 416 test (only
      the start is compared) and is then refused by the stream: 500. */
  lemma BackwardRangeIsServerError(pre: Reply, fileName: string, fileSize: nat, s: nat, e: nat)
    requires e < s < fileSize
    ensures var r := FileReply(pre, fileName, fileSize, Some("bytes=" + Decimal(s) + "-" + Decimal(e)));
      && r.status == 500 && r.body == Text(InternalErrorText)
  {
    ParseClosedRange(s, e, fileSize);
    KnownRangeReply(pre, fileName, fileSize, "bytes=" + Decimal(s) + "-" + Decimal(e), s, e);
  }

  lemma SplitSuffix(n: nat)
    ensures Split("-" + Decimal(n), Char('-')) == ["", Decimal(n)]
  {
    SplitAtDelimiter("", '-', Decimal(n), Char('-'));
    assert "" + ['-'] + Decimal(n) == "-" + Decimal(n);
    SplitOfFree(Decimal(n), Char('-'));
  }

  /** An `end` past the last byte is used as it is: Content-Length then exceeds
      the number of bytes from `start` to the end of the file. */
  lemma EndIsNotClamped(pre: Reply, fileName: string, fileSize: nat, s: nat, e: nat)
    requires s < fileSize <= e
    ensures var r := FileReply(pre, fileName, fileSize, Some("bytes=" + Decimal(s) + "-" + Decimal(e)));
      && r.status == 206
      && "Content-Length" in r.headers && r.headers["Content-Length"] == NumberToString(Some(e - s + 1))
      && e - s + 1 > fileSize - s
      // ByteSpan names the range asked for; the stream itself stops at the end of the file.
      && r.body == ByteSpan(s, e)
  {
    ParseClosedRange(s, e, fileSize);
    PartialRangeReply(pre, fileName, fileSize, "bytes=" + Decimal(s) + "-" + Decimal(e), s, e);
  }

  /** `Range: bytes=0-99` on a 1000-byte file: 206, `Content-Range: bytes 0-99/1000`,
      `Content-Length: 100`, the first hundred bytes. */
  lemma FirstHundredBytes(pre: Reply, fileName: string)
    ensures var r := FileReply(pre, fileName, 1000, Some("bytes=0-99"));
      && r.status == 206
      && "Content-Range" in r.headers && r.headers["Content-Range"] == "bytes 0-99/1000"
      && "Content-Length" in r.headers && r.headers["Content-Length"] == "100"
      && r.body == ByteSpan(0, 99)
  {
    SmallNumerals();
    assert "bytes=" + Decimal(0) + "-" + Decimal(99) == "bytes=0-99";
    ParseClosedRange(0, 99, 1000);
    OtherRangeIsPartial(pre, fileName, 1000, "bytes=0-99");
    FirstHundredHeaders();
  }

  lemma FirstHundredHeaders()
    ensures ContentRange(ByteRange(Some(0), Some(99)), 1000) == "bytes 0-99/1000"
    ensures NumberToString(ChunkSize(ByteRange(Some(0), Some(99)))) == "100"
  {
    SmallNumerals();
  }

  lemma SmallNumerals()
    ensures Decimal(0) == "0" && Decimal(99) == "99" && Decimal(100) == "100" && Decimal(1000) == "1000"
  {
    assert Decimal(9) == "9";
    assert Decimal(1) == "1";
    assert Decimal(10) == "10";
  }

  // ------------------------------------------------------------------ the guard

  /** Names without a ".." segment always pass the guard. */
  lemma PlainNamesPassGuard(
    pre: Reply, base: seq<string>, videoId: string, fileName: string,
    file: FileStat, range: Option<string>)
    requires IsResolvedDir(base) && videoId != "" && fileName != ""
    requires NoParentStep(videoId) && NoParentStep(fileName)
    ensures InsideBase(SegmentPath(base, videoId, fileName), base)
    ensures SegmentReply(pre, base, videoId, fileName, file, range)
         == if file.Missing? then pre.(status := 404, body := Text(NotFoundText))
            else FileReply(pre, fileName, file.size, range)
  {
    JoinWithoutParentStepPassesGuard(base, videoId, fileName);
  }

  /** With `videoId` ".." and a single name, the guard accepts exactly the names
      that start with the media directory's own name: the prefix test lets
      sibling directories such as `videos-old` through and stops the others. */
  lemma ParentStepReachesSiblings(
    pre: Reply, base: seq<string>, fileName: string, file: FileStat, range: Option<string>)
    requires IsResolvedDir(base) && pre.status == 200
    requires IsName(fileName) && Free(fileName, Char('/'))
    ensures SegmentPath(base, "..", fileName) == Absolute(base[..|base| - 1] + [fileName])
    ensures SegmentReply(pre, base, "..", fileName, file, range).status == 403
        <==> !StartsWith(fileName, base[|base| - 1])
  {
    JoinParentStep(base, fileName);
    ParentStepGuard(base, fileName, SegmentPath(base, "..", fileName));
  }

  // ------------------------------------------------------------------ helpers

  /** `ParseRange` unfolded on given pieces; plumbing for the lemmas above. */
  lemma ParseRangeOfPieces(header: string, t: string, fileSize: nat, parts: seq<string>)
    requires StripFirst(header, "bytes=") == t && Split(t, Char('-')) == parts
    ensures ParseRange(header, fileSize).start == ParseInt(parts[0])
    ensures ParseRange(header, fileSize).end
         == if |parts| > 1 && parts[1] != "" then ParseInt(parts[1]) else Some(fileSize - 1)
  {
  }
}
