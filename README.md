# Blosteflix HLS delivery and catalog, modelled in Dafny

Blosteflix is a small video server. It exposes a catalog of video metadata over
HTTP and streams pre-segmented HLS video (playlists plus MPEG transport-stream
chunks) to players. This project models the server's core and proves properties
of that model.

- **Segment server** (`serveHlsSegments`). It checks its two parameters (400),
  then a path-prefix guard (403), then whether the file exists (404). It picks a
  Content-Type by extension and sets the streaming and no-cache headers. Then it
  answers a single `Range: bytes=START-END` header with 416 or 206, or serves the
  whole file with 200. `VideoSegments.ServeHlsSegments` is a method on an
  Express-like `Http.Response`. Its contract ties the response it leaves behind
  to the pure function `VideoSegments.SegmentReply`.
- **Playlist server** (`serveHlsIndex`). It checks the id (400) and the guard
  (403). It reads `index.m3u8` and runs two anchored, multi-line regular
  expression replacements. These put `/api/videolist/videos/<id>/` in front of
  every `indexN.ts` line and every `[\w-]+.m3u8` line. It then sets the playlist,
  no-cache, Content-Length and CORS headers. A read error maps to 404 (`ENOENT`)
  or 500. `VideoFolder.ServeHlsIndex` mirrors it against `VideoFolder.IndexReply`.
- **Catalog.** The `video` entity (`VideoEntity`) and its summary mapper
  (`VideolistMapper`). The repository's `getVideolist` loop and its two stub
  lookups (`VideoRepository`). The mock backend's list, topic, id and POST
  handlers (`MockBackend`), where POST appends to a `VideoStore` object.

The JavaScript built-ins these handlers rely on are modelled in `JsStrings`:
- `startsWith` and `endsWith`;
- `split` and the per-line view of a regular expression with the `m` flag;
- replace-first of a literal and `parseInt(s, 10)`, with `NaN` as `None`;
- `String(n)`, ASCII `toLowerCase` and `Buffer.byteLength` (UTF-8).

`path.join` and `path.resolve` for an absolute base are modelled in `NodePath`,
on concrete segments with `.` and `..` collapsed.

Where the code's behaviour is easy to misread, the model follows the code:

- **Path guard.** Both guards are plain string-prefix tests, not
  directory-boundary checks. A sibling directory whose name starts with the
  media directory's name passes. See `NodePath.ParentStepGuard`,
  `VideoSegments.ParentStepReachesSiblings` and
  `VideoFolder.SiblingIdPassesGuard`.
- **Range end.** The range end is neither clamped nor checked against the start
  or the file size. Only `start >= fileSize` gives 416, and that reply carries the
  text "Requested Range Not Satisfiable" as body.
- **Refused ranges.** The file stream refuses a `NaN` or negative start, a `NaN`
  end, and a start after the end. The handler's `catch` block then answers 500.
  So a suffix range `bytes=-N` and a backward range end in 500, not 206.
- **Topic lookup.** The mock backend matches topics without regard to case, and
  answers 404 when nothing matches.
- **Repository stubs.** `getById` and `getByTopic` in the repository have empty
  bodies, so they return nothing for every argument.
- **Ids containing `..`.** An id with a `..` segment is rejected only when the
  resolved path leaves the prefix.

## Model

| member | source | states |
|---|---|---|
| VideoSegments.ServeHlsSegments | backend/src/infraestructure/midleware/videoSegments.ts:20-136 | The response left behind is `SegmentReply` of the response before and the request inputs: the checks in source order, then the file reply |
| VideoSegments.StreamFile | backend/src/infraestructure/midleware/videoSegments.ts:62-124 | Content-Type by extension and the four streaming headers are set, then the range branch or Content-Length plus the whole-file stream |
| VideoSegments.AnswerRange | backend/src/infraestructure/midleware/videoSegments.ts:97-113 | The response after the range branch is `RangeReply`: 416, or 206 with both range headers and the span, or 500 when the stream refuses the offsets |
| VideoSegments.ContentTypeFor | backend/src/infraestructure/midleware/videoSegments.ts:62-68 | `video/mp2t` iff the name ends in `.ts`; the HLS playlist type iff it ends in `.m3u8`; none iff neither |
| VideoSegments.MissingNameIsBadRequest | backend/src/infraestructure/midleware/videoSegments.ts:22-34 | Status 400 iff videoId or fileName is empty; then the only change is status 400 and the message, with no path, file or range looked at |
| VideoSegments.GuardBeforeExistence | backend/src/infraestructure/midleware/videoSegments.ts:36-51 | 403 iff both names are given and the joined path fails the prefix test, whatever the file; 404 iff the guard passes and the file is missing |
| VideoSegments.ReachedServesFile | backend/src/infraestructure/midleware/videoSegments.ts:22-58 | Past the three checks, the reply depends only on the file name, its size and the Range header; short of them, no header is set, the status is 400, 403 or 404 and the body is the matching error text |
| VideoSegments.StreamingHeadersSet | backend/src/infraestructure/midleware/videoSegments.ts:62-79 | Content-Type follows the extension (untouched for other names); Accept-Ranges `bytes` and the three no-cache headers are set |
| VideoSegments.RangeReplyKeepsHeaders | backend/src/infraestructure/midleware/videoSegments.ts:97-113 | The range branch changes no header other than Content-Range and Content-Length |
| VideoSegments.WholeFileKeepsHeaders | backend/src/infraestructure/midleware/videoSegments.ts:119 | The whole-file branch changes no header other than Content-Length |
| VideoSegments.FileHeaders | backend/src/infraestructure/midleware/videoSegments.ts:62-124 | On every reached file (200, 206, 416 or 500) the typed, Accept-Ranges and no-cache headers are present |
| VideoSegments.StartPastEndIsUnsatisfiable | backend/src/infraestructure/midleware/videoSegments.ts:97-101 | A start at or past the file size gives 416 with the message; Content-Range and Content-Length are not added |
| VideoSegments.OtherRangeIsPartial | backend/src/infraestructure/midleware/videoSegments.ts:104-113 | Otherwise Content-Range is `bytes start-end/size` and Content-Length is `end - start + 1`; status 206 iff the stream accepts the offsets, with exactly that span; else 500 |
| VideoSegments.NoRangeIsWholeFile | backend/src/infraestructure/midleware/videoSegments.ts:115-123 | With no (or an empty) Range header the status is unchanged, Content-Length parses back to the size, and the whole file is streamed |
| VideoSegments.ParseRangeOfText | backend/src/infraestructure/midleware/videoSegments.ts:92-94 | For any pieces A and B without `-`, `bytes=A-B` has start `parseInt(A)` and end `parseInt(B)`, or `fileSize - 1` when B is empty |
| VideoSegments.ParseRangeWithoutDash | backend/src/infraestructure/midleware/videoSegments.ts:92-94 | For any A without `-`, `bytes=A` has start `parseInt(A)` and end `fileSize - 1` |
| VideoSegments.ParseClosedRange | backend/src/infraestructure/midleware/videoSegments.ts:92-94 | `bytes=S-E` with decimal numerals parses to exactly (S, E) |
| VideoSegments.ParseOpenRange | backend/src/infraestructure/midleware/videoSegments.ts:94 | `bytes=S-` parses to (S, fileSize - 1) |
| VideoSegments.SuffixRangeHasNaNStart | backend/src/infraestructure/midleware/videoSegments.ts:92-97 | `bytes=-N` parses to a NaN start and end N, and the 416 test does not reject it |
| VideoSegments.SuffixRangeIsServerError | backend/src/infraestructure/midleware/videoSegments.ts:104-136 | A suffix range ends in 500 with `Content-Range: bytes NaN-N/size` |
| VideoSegments.OpenRangeIsRestOfFile | backend/src/infraestructure/midleware/videoSegments.ts:94-113 | `bytes=S-` with S inside the file gives 206, Content-Length `size - S`, bytes S to the last |
| VideoSegments.BackwardRangeIsServerError | backend/src/infraestructure/midleware/videoSegments.ts:97-136 | `bytes=S-E` with E < S < size passes the 416 test and ends in 500 |
| VideoSegments.EndIsNotClamped | backend/src/infraestructure/midleware/videoSegments.ts:104-113 | An end at or past the size is served as asked: 206, Content-Length `E - S + 1`, more than the bytes left |
| VideoSegments.FirstHundredBytes | backend/src/infraestructure/midleware/videoSegments.ts:88-113 | `bytes=0-99` on 1000 bytes: 206, `bytes 0-99/1000`, Content-Length `100`, bytes 0 to 99 |
| VideoSegments.PlainNamesPassGuard | backend/src/infraestructure/midleware/videoSegments.ts:36-51 | Names with no `..` segment always pass the guard; the reply is then 404 or the file reply |
| VideoSegments.ParentStepReachesSiblings | backend/src/infraestructure/midleware/videoSegments.ts:36-45 | With videoId `..`, the path is the file beside the media directory, and 403 iff its name does not start with the directory's name |
| VideoFolder.ServeHlsIndex | backend/src/infraestructure/midleware/videoFolder.ts:19-78 | The response left behind is `IndexReply`: 400, 403, the read error mapping, or the rewritten playlist with its headers |
| VideoFolder.SendPlaylist | backend/src/infraestructure/midleware/videoFolder.ts:55-69 | The response after the header calls and `send` is `PlaylistReply` of the content |
| VideoFolder.ReplaceLinesByLine | backend/src/infraestructure/midleware/videoFolder.ts:39-48 | For a prefix without line terminators, one anchored `gm` replacement maps lines one to one (a matching line gets the prefix, others are unchanged) and keeps every line terminator |
| VideoFolder.RewriteByLine | backend/src/infraestructure/midleware/videoFolder.ts:39-48 | For an id without line terminators, after both replacements: same line count and order; `indexN.ts` and `[\w-]+.m3u8` lines get the prefix, all others are unchanged; same terminators |
| VideoFolder.LineBreakInPrefixSplitsLine | backend/src/infraestructure/midleware/videoFolder.ts:39-41 | With the prefix "\n", any single matching line (such as `index0.ts`) becomes two lines, where the per-line map gives one |
| VideoFolder.SlashLineUnmatched | backend/src/infraestructure/midleware/videoFolder.ts:40-46 | A line starting with `/` matches neither pattern, so the second replacement never touches what the first produced |
| VideoFolder.RewriteLineIdempotent | backend/src/infraestructure/midleware/videoFolder.ts:39-48 | Rewriting a rewritten line changes nothing |
| VideoFolder.RewriteIdempotent | backend/src/infraestructure/midleware/videoFolder.ts:39-48 | For an id without line terminators, rewriting a rewritten playlist changes nothing |
| VideoFolder.LineBreakInIdBreaksRewrite | backend/src/infraestructure/midleware/videoFolder.ts:39-48 | With the id "\nx.m3u8\n", the segment line `index0.ts` comes out longer than its per-line rewrite: the line the first replacement inserts is prefixed again by the second |
| VideoFolder.MissingIdIsBadRequest | backend/src/infraestructure/midleware/videoFolder.ts:23 | 400 iff the id is empty; then only status and message change, whatever the file holds |
| VideoFolder.GuardBeforeRead | backend/src/infraestructure/midleware/videoFolder.ts:25-30 | 403 iff the id is given and the resolved playlist path fails the prefix test; then the reply does not depend on the read |
| VideoFolder.ReadFailure | backend/src/infraestructure/midleware/videoFolder.ts:70-77 | A read error gives 404 iff its code is ENOENT, else 500, with fixed messages (no path) and no header set |
| VideoFolder.PlaylistHeaders | backend/src/infraestructure/midleware/videoFolder.ts:55-69 | Exactly the eight headers are added, with their values; Content-Length parses back to the UTF-8 byte length of the body sent |
| VideoFolder.PlaylistServed | backend/src/infraestructure/midleware/videoFolder.ts:33-69 | For an id without line terminators, a readable playlist is sent as text whose lines are the original lines each rewritten on its own |
| VideoFolder.PlainIdPassesGuard | backend/src/infraestructure/midleware/videoFolder.ts:25-30 | A relative id with no `..` segment passes the guard |
| VideoFolder.ParentIdGuard | backend/src/infraestructure/midleware/videoFolder.ts:25-30 | Id `..` points at `index.m3u8` beside the media directory, and passes iff the directory's name is a prefix of `index.m3u8` |
| VideoFolder.SiblingIdPassesGuard | backend/src/infraestructure/midleware/videoFolder.ts:25-30 | Id `../n` points at `n/index.m3u8` beside the media directory, and passes iff `n` starts with the directory's name |
| NodePath.JoinWithoutParentStepPassesGuard | backend/src/infraestructure/midleware/videoSegments.ts:36-45 | `path.join(base, a, b)` with no `..` segment starts with the base |
| NodePath.ResolveWithoutParentStepPassesGuard | backend/src/infraestructure/midleware/videoFolder.ts:25-28 | `path.resolve(base, a, b)` for relative names with no `..` segment starts with the base |
| NodePath.JoinParentStep | backend/src/infraestructure/midleware/videoSegments.ts:36 | `path.join(base, "..", n)` is `n` in the base's parent |
| NodePath.ResolveParentStep | backend/src/infraestructure/midleware/videoFolder.ts:25 | `path.resolve(base, "..", n)` is `n` in the base's parent |
| NodePath.ResolveSiblingFile | backend/src/infraestructure/midleware/videoFolder.ts:25 | `path.resolve(base, "../" + n, tail)` is `tail` inside the sibling `n` |
| NodePath.ParentStepGuard | backend/src/infraestructure/midleware/videoSegments.ts:42 | A file beside the base passes the prefix test iff its name starts with the base's last segment |
| NodePath.SiblingFileGuard | backend/src/infraestructure/midleware/videoFolder.ts:28 | A file inside a sibling `n` passes the prefix test iff `n` starts with the base's last segment |
| JsStrings.ParseIntNumeral | backend/src/infraestructure/midleware/videoSegments.ts:93-94 | `parseInt` reads back any integer's numeral, whatever non-digit text follows |
| JsStrings.ParseIntWithoutDigits | backend/src/infraestructure/midleware/videoSegments.ts:93 | Text with no digit parses to NaN |
| JsStrings.IndexOf | backend/src/infraestructure/midleware/videoSegments.ts:92 | The first position where the pattern occurs, and no earlier one; none iff it never occurs |
| JsStrings.SplitInterleave | backend/src/infraestructure/midleware/videoSegments.ts:92 | Splitting and putting the separators back gives the text again |
| JsStrings.InterleaveSplit | backend/src/infraestructure/midleware/videoFolder.ts:39-48 | Pieces free of the delimiter, joined by delimiters, split back into the same pieces and delimiters |
| JsStrings.ToLowerIdempotent | mockend/mock-backend.js:93 | Lower-casing twice is lower-casing once |
| JsStrings.Utf8LengthConcat | backend/src/infraestructure/midleware/videoFolder.ts:62 | The UTF-8 byte length of a concatenation is the sum of the lengths |
| JsStrings.Utf8LengthAscii | backend/src/infraestructure/midleware/videoFolder.ts:62 | For ASCII text the byte length is the character count |
| Http.WithHeader | backend/src/infraestructure/midleware/videoSegments.ts:64 | `setHeader` stores the value under its name, keeps every other header's value, adds only that name to the header names, and changes neither status nor body |
| Http.Response.SetHeader | backend/src/infraestructure/midleware/videoSegments.ts:74 | The header map gains or overwrites one entry; status and body stay |
| Http.Response.Status | backend/src/infraestructure/midleware/videoSegments.ts:105 | Only the status changes |
| Http.Response.Send | backend/src/infraestructure/midleware/videoSegments.ts:33 | Only the body changes, to the text |
| Http.Response.Pipe | backend/src/infraestructure/midleware/videoSegments.ts:112-113 | Only the body changes, to the stream |
| Http.Response.constructor | backend/src/infraestructure/midleware/videoSegments.ts:20 | A fresh response is 200 with no headers and no body |
| MockBackend.ListVideos | mockend/mock-backend.js:80-85 | One summary per record, in stored order, carrying exactly id, topic, duration and thumbnail |
| MockBackend.GetList | mockend/mock-backend.js:78-87 | The list endpoint answers 200 with one entry per record, in stored order, each carrying that record's id, topic, duration and thumbnail |
| MockBackend.ListVideosAppend | mockend/mock-backend.js:80-85 | The list of a concatenation is the concatenation of the lists |
| MockBackend.FilterTopic | mockend/mock-backend.js:93 | A record is kept iff its topic matches the query ignoring case |
| MockBackend.FilterTopicAppend | mockend/mock-backend.js:93 | Filtering distributes over concatenation, so stored order is kept |
| MockBackend.GetByTopic | mockend/mock-backend.js:90-100 | 200 with the filtered records iff some record matches; otherwise 404 with the topic in the message, never an empty 200 |
| MockBackend.TopicQueryIgnoresCase | mockend/mock-backend.js:93-99 | The lower-cased query gives the same records as the query |
| MockBackend.FilterSameQuery | mockend/mock-backend.js:93 | Queries equal after lower-casing select the same records |
| MockBackend.AnimationQuery | mockend/mock-backend.js:93-99 | Two `animation` records and one `experimental`: `ANIMATION` gives the first two, in order |
| MockBackend.InitialAnimation | mockend/mock-backend.js:21-43 | On the initial data, `ANIMATION` finds both animation films, in order |
| MockBackend.FindId | mockend/mock-backend.js:106 | The index found holds the id and no earlier record does; none iff no record has it |
| MockBackend.GetById | mockend/mock-backend.js:103-113 | 200 iff some record has exactly this id; then it is the first such record; otherwise 404 with the id in the message |
| MockBackend.FindIdAppend | mockend/mock-backend.js:106 | Records after the first match are never looked at |
| MockBackend.VideoStore.constructor | mockend/mock-backend.js:51-60 | The store starts with the loaded records |
| MockBackend.VideoStore.Post | mockend/mock-backend.js:116-131 | The answer and the new store are `PostOutcome` of the old store and the body |
| MockBackend.IncompletePostRejected | mockend/mock-backend.js:119-121 | The answer is 400 "Missing required fields" iff some field is falsy; such a body leaves the store as it was |
| MockBackend.ZeroDurationRejected | mockend/mock-backend.js:119-121 | A duration of 0 counts as missing: 400, store unchanged |
| MockBackend.DuplicatePostRejected | mockend/mock-backend.js:123-126 | A complete body whose id is stored gives 400 and leaves the store as it was |
| MockBackend.PostAppends | mockend/mock-backend.js:116-131 | Success iff the body is complete and its id is new; then 201 with the record, earlier records kept, the record appended last |
| MockBackend.PostKeepsIdsUnique | mockend/mock-backend.js:123-128 | Posting keeps the stored ids distinct |
| MockBackend.PostThenGetById | mockend/mock-backend.js:103-131 | After a successful POST the id lookup finds the new record |
| MockBackend.PostThenList | mockend/mock-backend.js:78-131 | After a successful POST the list ends with the new record's summary |
| MockBackend.PostThenTopic | mockend/mock-backend.js:90-131 | After a successful POST the lookup by its topic ends with the new record |
| VideoRepository.GetVideolist | backend/src/infraestructure/repositories/iVideoRepository.ts:24-31 | As many summaries as records, the i-th being the mapper's summary of the i-th record |
| VideoRepository.GetById | backend/src/infraestructure/repositories/iVideoRepository.ts:9-10 | No video for any id |
| VideoRepository.GetByTopic | backend/src/infraestructure/repositories/iVideoRepository.ts:12-13 | No videos for any topic |
| VideolistMapper.ToVideoList | backend/src/infraestructure/mappers/videolistMapper.ts:5-11 | The summary's id, topic and thumbnail are the video's |
| VideolistMapper.SameSummary | backend/src/infraestructure/mappers/videolistMapper.ts:5-11 | Two videos have equal summaries iff they agree on id, topic and thumbnail: description, duration and url do not reach it |
| VideoEntity.NewVideo | backend/src/domain/entities/video.ts:30-37 | Each getter returns its constructor argument |
| VideoEntity.EqualWhenGettersAgree | backend/src/domain/entities/video.ts:43-65 | Two entities are equal iff all six getters agree, so nothing else is stored |

## Left out

- File system: `existsSync`/`statSync`, `fs.readFile`, `createReadStream(...).pipe(res)` and the mock's and repository's JSON reads and writes. They are inputs: a `FileStat`, a `ReadResult`, a record sequence. A stream is its abstract span.
- The media directory's resolution against the working directory. The base is a parameter: an absolute directory of plain names. Symbolic links are not involved in the code.
- `path.join`/`path.resolve` are modelled for the arguments the handlers pass (an absolute base and two more arguments), on POSIX separators only.
- VideoSegments.ServeHlsSegments: the `catch` block is modelled for the file stream refusing its offsets. It is not modelled for `statSync` throwing after `existsSync` succeeded, which is a race with the file system.
- VideoSegments.ParseRangeOfText: `parseInt` is exact on integers of any size. JavaScript numbers lose precision past 2^53.
- VideoFolder.ReplaceLinesByLine, VideoFolder.RewriteByLine, VideoFolder.RewriteIdempotent, VideoFolder.PlaylistServed: these hold only for a `videoId` (and so a prefix) without line terminators. Express percent-decodes route parameters, so `%0A` puts a line break into the id. The text the first replacement inserts can then hold a line that the second replacement rewrites, and the per-line description fails. `VideoFolder.LineBreakInIdBreaksRewrite` exhibits such a case, and `VideoFolder.LineBreakInPrefixSplitsLine` shows a prefix with a line break splitting a single line in two.
- VideoFolder.ServeHlsIndex: the id goes into the replacement text as is. JavaScript's `replace` reads `$$`, `$&`, `` $` ``, `$'` and `$1` in an id as substitution patterns, which the model does not. Ids without `$` are unaffected.
- Express `send`: the charset suffix, ETag, automatic Content-Type and recomputed Content-Length that it adds are not modelled. The headers the handlers set themselves are.
- MockBackend.GetByTopic: `toLowerCase` is modelled on ASCII letters only. Other letters are compared as they are.
- MockBackend.VideoStore.Post: the fields of a POST body are modelled as absent or a string (a number for duration). Other JSON types and extra fields are not. A body's extra fields would be stored and echoed by the source.
- The mock's `saveVideos` swallowing write errors, and `loadVideos` returning an empty list on a read error. The store is the sequence itself.
- Logging, the `res.on('error')` handler, and Express routing. This includes `/:topic` shadowing `/:id` in the mock; the id handler is modelled on its own.
- The use-case wrappers, the controller, the router, the abstract repository and the `.d.ts` declarations. They hold no logic of their own.
- `duration` is a JavaScript number that is only stored and copied. It is a `real`.
- The UTF-8 length counts a character outside the basic plane as 4 bytes. A lone UTF-16 surrogate, which Node encodes as 3 replacement bytes, is not modelled.
