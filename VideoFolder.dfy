/**
 * `serveHlsIndex`: serves `<videoId>/index.m3u8` from the media directory with
 * every segment line (`index<digits>.ts`) and every nested playlist line
 * (`<word chars or dashes>.m3u8`) rewritten into the API URL
 * `/api/videolist/videos/<videoId>/<line>`.
 *
 * The checks run in a fixed order: `videoId` present (else 400), the resolved
 * path starts with the media directory as a string (else 403), the file can be
 * read (else 404 for a missing file, 500 for any other error). The read itself
 * is the `ReadResult` input.
 */
module VideoFolder {
  import opened Wrappers
  import opened JsStrings
  import opened NodePath
  import opened Http
  import VideoSegments

  const IdRequiredText := "ID requerido"
  const ForbiddenText := "Forbidden"
  const NotFoundText := "V\U{ED}deo no encontrado"
  const InternalErrorText := "Error interno"
  const PlaylistName := "index.m3u8"
  const MissingFileCode := "ENOENT"

  /** What `fs.readFile(filePath, 'utf-8')` gives: the text, or an error and its `code`. */
  datatype ReadResult = Content(text: string) | ReadError(code: string)

  /** A character of the class `\w` (no `u` flag: ASCII letters, digits and `_`). */
  predicate IsWordChar(c: char) {
    || 'a' <= c <= 'z' || 'A' <= c <= 'Z' || '0' <= c <= '9' || c == '_'
  }

  /** A whole line matched by `^(index\d+\.ts)$`. */
  predicate IsSegmentLine(line: string) {
    && |line| >= 9
    && line[..5] == "index"
    && line[|line| - 3..] == ".ts"
    && AllDigits(line[5..|line| - 3])
  }

  /** A whole line matched by `^([\w-]+\.m3u8)$`. */
  predicate IsPlaylistLine(line: string) {
    && |line| >= 6
    && line[|line| - 5..] == ".m3u8"
    && forall i :: 0 <= i < |line| - 5 ==> IsWordChar(line[i]) || line[i] == '-'
  }

  /** The two regular expressions; under the `m` flag each matches whole lines
      only, since neither can match a line terminator. */
  datatype Pattern = SegmentFile | NestedPlaylist

  predicate Matches(p: Pattern, line: string) {
    match p
    case SegmentFile => IsSegmentLine(line)
    case NestedPlaylist => IsPlaylistLine(line)
  }

  /** The replacement text before `$1`. */
  function UrlPrefix(videoId: string): string {
    "/api/videolist/videos/" + videoId + "/"
  }

  /** Each line the pattern matches, with `prefix` put in front. */
  function MapLines(lines: seq<string>, p: Pattern, prefix: string): (out: seq<string>)
    ensures |out| == |lines|
    ensures forall i :: 0 <= i < |lines| ==>
      out[i] == if Matches(p, lines[i]) then prefix + lines[i] else lines[i]
  {
    seq(|lines|, i requires 0 <= i < |lines| =>
      if Matches(p, lines[i]) then prefix + lines[i] else lines[i])
  }

  /** `text.replace(/^(...)$/gm, prefix + '$1')`: every line the pattern matches,
      prefixed, with the line terminators kept as they were. */
  function ReplaceLines(text: string, p: Pattern, prefix: string): string {
    Interleave(MapLines(Split(text, LineTerminator), p, prefix), Delimiters(text, LineTerminator))
  }

  /** Both replacements of the handler, in their order. */
  function Rewrite(text: string, videoId: string): string {
    var once := ReplaceLines(text, SegmentFile, UrlPrefix(videoId));
    ReplaceLines(once, NestedPlaylist, UrlPrefix(videoId))
  }

  /** What the two replacements together do to one line. */
  function RewriteLine(line: string, videoId: string): string {
    if IsSegmentLine(line) || IsPlaylistLine(line) then UrlPrefix(videoId) + line else line
  }

  function RewriteEach(lines: seq<string>, videoId: string): (out: seq<string>)
    ensures |out| == |lines|
    ensures forall i :: 0 <= i < |lines| ==> out[i] == RewriteLine(lines[i], videoId)
  {
    seq(|lines|, i requires 0 <= i < |lines| => RewriteLine(lines[i], videoId))
  }

  // ------------------------------------------------------------------ the response

  /** The path the guard inspects: `path.resolve(base, videoId, 'index.m3u8')`. */
  function IndexPath(base: seq<string>, videoId: string): string
    requires IsResolvedDir(base)
  {
    ResolvePath(Absolute(base), videoId, PlaylistName)
  }

  /** The response `serveHlsIndex` leaves behind, starting from `pre`. */
  function IndexReply(pre: Reply, base: seq<string>, videoId: string, read: ReadResult): Reply
    requires IsResolvedDir(base)
  {
    if videoId == "" then pre.(status := 400, body := Text(IdRequiredText))
    else if !InsideBase(IndexPath(base, videoId), base) then pre.(status := 403, body := Text(ForbiddenText))
    else ReadReply(pre, videoId, read)
  }

  /** The response once the guard has passed. */
  function ReadReply(pre: Reply, videoId: string, read: ReadResult): Reply {
    match read
    case ReadError(code) =>
      if code == MissingFileCode then pre.(status := 404, body := Text(NotFoundText))
      else pre.(status := 500, body := Text(InternalErrorText))
    case Content(text) => PlaylistReply(pre, Rewrite(text, videoId))
  }

  /** The playlist headers, then the rewritten playlist as body. */
  function PlaylistReply(pre: Reply, content: string): Reply {
    var h1 := WithHeader(pre, "Content-Type", VideoSegments.MpegUrl);
    var h2 := WithHeader(h1, "Cache-Control", VideoSegments.CacheControl);
    var h3 := WithHeader(h2, "Pragma", "no-cache");
    var h4 := WithHeader(h3, "Expires", "0");
    var h5 := WithHeader(h4, "Content-Length", Decimal(Utf8Length(content)));
    var h6 := WithHeader(h5, "Access-Control-Allow-Origin", "*");
    var h7 := WithHeader(h6, "Access-Control-Allow-Methods", "GET, OPTIONS");
    WithHeader(h7, "Access-Control-Allow-Headers", "Content-Type, Range").(body := Text(content))
  }

  /** The handler, step by step on the response object. */
  method ServeHlsIndex(res: Response, base: seq<string>, videoId: string, read: ReadResult)
    requires IsResolvedDir(base)
    modifies res
    ensures res.Snapshot() == IndexReply(old(res.Snapshot()), base, videoId, read)
  {
    if videoId == "" {
      res.Status(400);
      res.Send(IdRequiredText);
      return;
    }
    var filePath := ResolvePath(Absolute(base), videoId, PlaylistName);
    if !StartsWith(filePath, Absolute(base)) {
      res.Status(403);
      res.Send(ForbiddenText);
      return;
    }
    match read {
      case ReadError(code) =>
        if code == MissingFileCode {
          res.Status(404);
          res.Send(NotFoundText);
        } else {
          res.Status(500);
          res.Send(InternalErrorText);
        }
      case Content(text) =>
        var content := ReplaceLines(text, SegmentFile, UrlPrefix(videoId));
        content := ReplaceLines(content, NestedPlaylist, UrlPrefix(videoId));
        SendPlaylist(res, content);
    }
  }

  /** The headers of a served playlist, then `res.send(content)`. */
  method SendPlaylist(res: Response, content: string)
    modifies res
    ensures res.Snapshot() == PlaylistReply(old(res.Snapshot()), content)
  {
    res.SetHeader("Content-Type", VideoSegments.MpegUrl);
    res.SetHeader("Cache-Control", VideoSegments.CacheControl);
    res.SetHeader("Pragma", "no-cache");
    res.SetHeader("Expires", "0");
    res.SetHeader("Content-Length", Decimal(Utf8Length(content)));
    res.SetHeader("Access-Control-Allow-Origin", "*");
    res.SetHeader("Access-Control-Allow-Methods", "GET, OPTIONS");
    res.SetHeader("Access-Control-Allow-Headers", "Content-Type, Range");
    res.Send(content);
  }

  // ------------------------------------------------------------------ the rewrite

  lemma FreeConcat(a: string, b: string, d: Delimiter)
    requires Free(a, d) && Free(b, d)
    ensures Free(a + b, d)
  {
    assert forall j :: 0 <= j < |a + b| ==> (a + b)[j] == if j < |a| then a[j] else b[j - |a|];
  }

  lemma UrlPrefixFree(videoId: string)
    requires Free(videoId, LineTerminator)
    ensures Free(UrlPrefix(videoId), LineTerminator)
  {
    FreeConcat("/api/videolist/videos/", videoId, LineTerminator);
    FreeConcat("/api/videolist/videos/" + videoId, "/", LineTerminator);
  }

  /** A replacement changes lines one by one: the lines of the result are the
      lines of the text, each matching one prefixed, and the line terminators
      are the same. */
  lemma ReplaceLinesByLine(text: string, p: Pattern, prefix: string)
    requires Free(prefix, LineTerminator)
    ensures Split(ReplaceLines(text, p, prefix), LineTerminator)
         == MapLines(Split(text, LineTerminator), p, prefix)
    ensures Delimiters(ReplaceLines(text, p, prefix), LineTerminator) == Delimiters(text, LineTerminator)
  {
    var lines := Split(text, LineTerminator);
    var out := MapLines(lines, p, prefix);
    SplitPiecesFree(text, LineTerminator);
    forall i | 0 <= i < |out|
      ensures Free(out[i], LineTerminator)
    {
      if Matches(p, lines[i]) {
        FreeConcat(prefix, lines[i], LineTerminator);
      }
    }
    InterleaveSplit(out, Delimiters(text, LineTerminator), LineTerminator);
  }

  /** Why `ReplaceLinesByLine` asks for a prefix without line terminators: a
      prefix holding a line break splits every line it is put in front of, so
      a one-line text such as `index0.ts` comes out as two lines. */
  lemma LineBreakInPrefixSplitsLine(line: string, p: Pattern)
    requires Free(line, LineTerminator) && Matches(p, line)
    ensures ReplaceLines(line, p, "\n") == "\n" + line
    ensures |Split(ReplaceLines(line, p, "\n"), LineTerminator)| == 2
    ensures |MapLines(Split(line, LineTerminator), p, "\n")| == 1
  {
    SingleLine(line, p, "\n");
    SplitOfFree(line, LineTerminator);
    LineBreakThenLine(line);
  }

  lemma LineBreakThenLine(line: string)
    requires Free(line, LineTerminator)
    ensures Split("\n" + line, LineTerminator) == ["", line]
  {
    SplitAtDelimiter("", '\n', line, LineTerminator);
    assert "" + ['\n'] + line == "\n" + line;
    SplitOfFree("", LineTerminator);
    SplitOfFree(line, LineTerminator);
  }

  /** A line that starts with "/" is matched by neither pattern. */
  lemma SlashLineUnmatched(line: string)
    requires line != [] && line[0] == '/'
    ensures !IsSegmentLine(line) && !IsPlaylistLine(line)
  {
    if |line| >= 5 {
      assert line[..5][0] == '/';
    }
  }

  /** The lines of the rewritten playlist are the lines of the original, each
      rewritten on its own; the line terminators are kept. */
  lemma RewriteByLine(text: string, videoId: string)
    requires Free(videoId, LineTerminator)
    ensures Split(Rewrite(text, videoId), LineTerminator) == RewriteEach(Split(text, LineTerminator), videoId)
    ensures Delimiters(Rewrite(text, videoId), LineTerminator) == Delimiters(text, LineTerminator)
  {
    var prefix := UrlPrefix(videoId);
    UrlPrefixFree(videoId);
    var once := ReplaceLines(text, SegmentFile, prefix);
    ReplaceLinesByLine(text, SegmentFile, prefix);
    ReplaceLinesByLine(once, NestedPlaylist, prefix);
    var lines := Split(text, LineTerminator);
    var mid := Split(once, LineTerminator);
    forall i | 0 <= i < |lines|
      ensures MapLines(mid, NestedPlaylist, prefix)[i] == RewriteLine(lines[i], videoId)
    {
      if IsSegmentLine(lines[i]) {
        SlashLineUnmatched(prefix + lines[i]);
      }
    }
  }

  /** A rewritten line is left alone by a second rewrite. */
  lemma RewriteLineIdempotent(line: string, videoId: string)
    ensures RewriteLine(RewriteLine(line, videoId), videoId) == RewriteLine(line, videoId)
  {
    if IsSegmentLine(line) || IsPlaylistLine(line) {
      SlashLineUnmatched(UrlPrefix(videoId) + line);
    }
  }

  /** Rewriting an already rewritten playlist changes nothing. */
  lemma RewriteIdempotent(text: string, videoId: string)
    requires Free(videoId, LineTerminator)
    ensures Rewrite(Rewrite(text, videoId), videoId) == Rewrite(text, videoId)
  {
    var once := Rewrite(text, videoId);
    var twice := Rewrite(once, videoId);
    RewriteByLine(text, videoId);
    RewriteByLine(once, videoId);
    var lines := Split(text, LineTerminator);
    forall i | 0 <= i < |lines|
      ensures RewriteLine(RewriteLine(lines[i], videoId), videoId) == RewriteLine(lines[i], videoId)
    {
      RewriteLineIdempotent(lines[i], videoId);
    }
    assert Split(twice, LineTerminator) == Split(once, LineTerminator);
    SplitInterleave(once, LineTerminator);
    SplitInterleave(twice, LineTerminator);
  }

  /** Why the lemmas above ask for a `videoId` without line terminators: Express
      decodes `%0A` in the route parameter, and with a line break in `videoId`
      the text the first replacement inserts holds a line of its own, which the
      second replacement prefixes as well. For the segment line `index0.ts` and
      the id "\nx.m3u8\n" the handler's output is longer than the per-line
      rewrite of that line. */
  lemma LineBreakInIdBreaksRewrite()
    ensures RewriteLine("index0.ts", "\nx.m3u8\n") == UrlPrefix("\nx.m3u8\n") + "index0.ts"
    ensures |Rewrite("index0.ts", "\nx.m3u8\n")| > |UrlPrefix("\nx.m3u8\n") + "index0.ts"|
  {
    var id := "\nx.m3u8\n";
    var a, b, c := "/api/videolist/videos/", "x.m3u8", "/index0.ts";
    IndexZeroLine();
    BrokenPrefixText();
    ApiLine();
    PlaylistLineX();
    SlashSegmentLine();
    ReinsertedLine("index0.ts", id, a, b, c);
  }

  lemma IndexZeroLine()
    ensures Free("index0.ts", LineTerminator) && IsSegmentLine("index0.ts")
  {
    assert "index0.ts"[5..6] == "0";
  }

  lemma ApiLine()
    ensures Free("/api/videolist/videos/", LineTerminator) && !IsPlaylistLine("/api/videolist/videos/")
  {
    SlashLineUnmatched("/api/videolist/videos/");
  }

  lemma SlashSegmentLine()
    ensures Free("/index0.ts", LineTerminator) && !IsPlaylistLine("/index0.ts")
  {
    SlashLineUnmatched("/index0.ts");
  }

  lemma BrokenPrefixText()
    ensures UrlPrefix("\nx.m3u8\n") + "index0.ts"
         == "/api/videolist/videos/" + "\n" + "x.m3u8" + "\n" + "/index0.ts"
  {
    assert UrlPrefix("\nx.m3u8\n") == "/api/videolist/videos/" + "\nx.m3u8\n" + "/";
  }

  lemma PlaylistLineX()
    ensures Free("x.m3u8", LineTerminator) && IsPlaylistLine("x.m3u8")
  {
    assert "x.m3u8"[1..] == ".m3u8";
  }

  /** A segment line whose prefixed form spans three lines, the middle one a
      playlist line: the second replacement prefixes that middle line. */
  lemma ReinsertedLine(line: string, videoId: string, a: string, b: string, c: string)
    requires Free(line, LineTerminator) && IsSegmentLine(line)
    requires UrlPrefix(videoId) + line == a + "\n" + b + "\n" + c
    requires Free(a, LineTerminator) && Free(b, LineTerminator) && Free(c, LineTerminator)
    requires !IsPlaylistLine(a) && IsPlaylistLine(b) && !IsPlaylistLine(c)
    ensures Rewrite(line, videoId) == a + "\n" + (UrlPrefix(videoId) + b) + "\n" + c
  {
    var prefix := UrlPrefix(videoId);
    SingleLine(line, SegmentFile, prefix);
    ThreeLines(a, b, c);
    InnerLineRewritten(a, b, c, prefix);
    ThreeLines(a, prefix + b, c);
  }

  lemma SingleLine(line: string, p: Pattern, prefix: string)
    requires Free(line, LineTerminator) && Matches(p, line)
    ensures ReplaceLines(line, p, prefix) == prefix + line
  {
    InterleaveSplit([line], [], LineTerminator);
    assert MapLines([line], p, prefix) == [prefix + line];
  }

  lemma ThreeLines(a: string, b: string, c: string)
    ensures Interleave([a, b, c], ['\n', '\n']) == a + "\n" + b + "\n" + c
  {
    assert [a, b, c][1..] == [b, c] && [b, c][1..] == [c];
    assert ['\n', '\n'][1..] == ['\n'] && ['\n'][1..] == [];
    assert Interleave([c], []) == c;
    assert Interleave([b, c], ['\n']) == b + ['\n'] + c;
    assert Interleave([a, b, c], ['\n', '\n']) == a + ['\n'] + (b + ['\n'] + c);
  }

  lemma InnerLineRewritten(a: string, b: string, c: string, prefix: string)
    requires Free(a, LineTerminator) && Free(b, LineTerminator) && Free(c, LineTerminator)
    requires !IsPlaylistLine(a) && IsPlaylistLine(b) && !IsPlaylistLine(c)
    ensures ReplaceLines(Interleave([a, b, c], ['\n', '\n']), NestedPlaylist, prefix)
         == Interleave([a, prefix + b, c], ['\n', '\n'])
  {
    var parts := [a, b, c];
    assert forall i :: 0 <= i < |parts| ==> Free(parts[i], LineTerminator);
    InterleaveSplit(parts, ['\n', '\n'], LineTerminator);
    assert MapLines(parts, NestedPlaylist, prefix) == [a, prefix + b, c];
  }

  // ------------------------------------------------------------------ response properties

  /** An empty `videoId` yields 400 and nothing else, whatever the file holds. */
  lemma MissingIdIsBadRequest(pre: Reply, base: seq<string>, videoId: string, read: ReadResult)
    requires IsResolvedDir(base) && pre.status == 200
    ensures IndexReply(pre, base, videoId, read).status == 400 <==> videoId == ""
    ensures videoId == "" ==> IndexReply(pre, base, videoId, read) == pre.(status := 400, body := Text(IdRequiredText))
  {
  }

  /** A resolved path outside the media directory yields 403 before the file is
      read: the reply does not depend on what reading it would give. */
  lemma GuardBeforeRead(pre: Reply, base: seq<string>, videoId: string, read: ReadResult)
    requires IsResolvedDir(base) && pre.status == 200
    ensures IndexReply(pre, base, videoId, read).status == 403
        <==> videoId != "" && !InsideBase(IndexPath(base, videoId), base)
    ensures IndexReply(pre, base, videoId, read).status == 403
        ==> IndexReply(pre, base, videoId, read) == pre.(status := 403, body := Text(ForbiddenText))
  {
  }

  /** A failed read yields 404 exactly when the error is ENOENT, and 500
      otherwise; no header is set. */
  lemma ReadFailure(pre: Reply, videoId: string, code: string)
    ensures var r := ReadReply(pre, videoId, ReadError(code));
      && r.headers == pre.headers
      && (r.status == 404 <==> code == MissingFileCode)
      && (code == MissingFileCode ==> r.body == Text(NotFoundText))
      && (code != MissingFileCode ==> r.status == 500 && r.body == Text(InternalErrorText))
  {
  }

  /** A served playlist carries the playlist type, the three no-cache headers,
      its own UTF-8 byte length as Content-Length and the three CORS headers;
      the status is left as it was (200 by default). */
  lemma PlaylistHeaders(pre: Reply, content: string)
    ensures var r := PlaylistReply(pre, content);
      && r.status == pre.status && r.body == Text(content)
      && r.headers.Keys == pre.headers.Keys + {
           "Content-Type", "Cache-Control", "Pragma", "Expires", "Content-Length",
           "Access-Control-Allow-Origin", "Access-Control-Allow-Methods", "Access-Control-Allow-Headers"}
      && r.headers["Content-Type"] == VideoSegments.MpegUrl
      && r.headers["Cache-Control"] == VideoSegments.CacheControl
      && r.headers["Pragma"] == "no-cache"
      && r.headers["Expires"] == "0"
      && ParseInt(r.headers["Content-Length"]) == Some(Utf8Length(content))
      && r.headers["Access-Control-Allow-Origin"] == "*"
      && r.headers["Access-Control-Allow-Methods"] == "GET, OPTIONS"
      && r.headers["Access-Control-Allow-Headers"] == "Content-Type, Range"
  {
    PlaylistHeaderKeys(pre, content);
    PlaylistHeaderValues(pre, content);
    ParseIntDecimal(Utf8Length(content));
  }

  lemma PlaylistHeaderKeys(pre: Reply, content: string)
    ensures var r := PlaylistReply(pre, content);
      && r.status == pre.status && r.body == Text(content)
      && r.headers.Keys == pre.headers.Keys + {"Content-Type"} + {"Cache-Control"} + {"Pragma"}
           + {"Expires"} + {"Content-Length"} + {"Access-Control-Allow-Origin"}
           + {"Access-Control-Allow-Methods"} + {"Access-Control-Allow-Headers"}
  {
  }

  lemma PlaylistHeaderValues(pre: Reply, content: string)
    ensures var r := PlaylistReply(pre, content);
      && r.headers["Content-Type"] == VideoSegments.MpegUrl
      && r.headers["Cache-Control"] == VideoSegments.CacheControl
      && r.headers["Pragma"] == "no-cache"
      && r.headers["Expires"] == "0"
      && r.headers["Content-Length"] == Decimal(Utf8Length(content))
      && r.headers["Access-Control-Allow-Origin"] == "*"
      && r.headers["Access-Control-Allow-Methods"] == "GET, OPTIONS"
      && r.headers["Access-Control-Allow-Headers"] == "Content-Type, Range"
  {
    PlaylistCacheHeaders(pre, content);
    PlaylistCorsHeaders(pre, content);
  }

  lemma PlaylistCacheHeaders(pre: Reply, content: string)
    ensures var r := PlaylistReply(pre, content);
      && "Content-Type" in r.headers && r.headers["Content-Type"] == VideoSegments.MpegUrl
      && "Cache-Control" in r.headers && r.headers["Cache-Control"] == VideoSegments.CacheControl
      && "Pragma" in r.headers && r.headers["Pragma"] == "no-cache"
      && "Expires" in r.headers && r.headers["Expires"] == "0"
  {
  }

  lemma PlaylistCorsHeaders(pre: Reply, content: string)
    ensures var r := PlaylistReply(pre, content);
      && "Content-Length" in r.headers && r.headers["Content-Length"] == Decimal(Utf8Length(content))
      && "Access-Control-Allow-Origin" in r.headers && r.headers["Access-Control-Allow-Origin"] == "*"
      && "Access-Control-Allow-Methods" in r.headers && r.headers["Access-Control-Allow-Methods"] == "GET, OPTIONS"
      && "Access-Control-Allow-Headers" in r.headers
      && r.headers["Access-Control-Allow-Headers"] == "Content-Type, Range"
  {
  }

  /** A readable playlist is sent rewritten, line by line. */
  lemma PlaylistServed(pre: Reply, videoId: string, text: string)
    requires Free(videoId, LineTerminator)
    ensures var r := ReadReply(pre, videoId, Content(text));
      && r.body.Text?
      && Split(r.body.text, LineTerminator) == RewriteEach(Split(text, LineTerminator), videoId)
      && Delimiters(r.body.text, LineTerminator) == Delimiters(text, LineTerminator)
  {
    RewriteByLine(text, videoId);
  }

  // ------------------------------------------------------------------ the guard

  /** A relative `videoId` without a ".." segment passes the guard. */
  lemma PlainIdPassesGuard(base: seq<string>, videoId: string)
    requires IsResolvedDir(base) && videoId != "" && videoId[0] != '/'
    requires NoParentStep(videoId)
    ensures InsideBase(IndexPath(base, videoId), base)
  {
    PlaylistNameIsPlain();
    ResolveWithoutParentStepPassesGuard(base, videoId, PlaylistName);
  }

  lemma PlaylistNameIsPlain()
    ensures PlaylistName != "" && PlaylistName[0] != '/' && NoParentStep(PlaylistName)
  {
    assert Free(PlaylistName, Char('/'));
    SplitOfFree(PlaylistName, Char('/'));
  }

  /** `videoId` ".." points at `index.m3u8` in the parent of the media directory,
      which the guard stops unless the directory's own name is a prefix of
      "index.m3u8". */
  lemma ParentIdGuard(base: seq<string>)
    requires IsResolvedDir(base)
    ensures IndexPath(base, "..") == Absolute(base[..|base| - 1] + [PlaylistName])
    ensures InsideBase(IndexPath(base, ".."), base) <==> StartsWith(PlaylistName, base[|base| - 1])
  {
    assert Free(PlaylistName, Char('/'));
    ResolveParentStep(base, PlaylistName);
    ParentStepGuard(base, PlaylistName, IndexPath(base, ".."));
  }

  /** `videoId` "../n" reaches `index.m3u8` in the sibling directory `n`, and the
      string-prefix guard lets it through exactly when `n` starts with the media
      directory's own name: "../videos-old" next to "videos" is served. */
  lemma SiblingIdPassesGuard(base: seq<string>, n: string)
    requires IsResolvedDir(base) && IsName(n) && Free(n, Char('/'))
    ensures IndexPath(base, "../" + n) == Absolute(base[..|base| - 1] + [n, PlaylistName])
    ensures InsideBase(IndexPath(base, "../" + n), base) <==> StartsWith(n, base[|base| - 1])
  {
    assert Free(PlaylistName, Char('/'));
    ResolveSiblingFile(base, n, PlaylistName);
    SiblingFileGuard(base, n, PlaylistName, IndexPath(base, "../" + n));
  }
}
