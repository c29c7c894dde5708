# StreamFlix media server core, in Dafny

StreamFlix's back end (`server.js`) serves the video files of one local directory.
This project models the four pieces of it that make decisions, and proves what they do:

- `isVideoFile`: a name is a video when its lower-cased form ends in one of seven
  extensions. This is `Classifier.IsVideoFile`.
- `determineMediaType`: names are tested, in order, for series markers, then documentary
  markers; anything else is a movie. This is `Classifier.DetermineMediaType`.
- The callback of `GET /api/stream/:filename`, once `fs.stat` has answered:
  - a 404 when the stat fails;
  - a 416 when the `Range` header is missing or empty;
  - otherwise a 206, with `Content-Range`, `Accept-Ranges`, `Content-Length` and
    `Content-Type`, and the byte window `{start, end}` given to `createReadStream`.

  This is the pure function `StreamRoute.Stream`. The JavaScript built-ins it relies on are
  modelled exactly for the inputs that matter:
  - `String.prototype.replace` with a non-global pattern: the first occurrence only.
  - `split` on one character.
  - `parseInt(_, 10)`: skip ECMAScript white space, take an optional sign and the longest
    run of digits; `NaN` when there are none.
  - Number-to-string, with `NaN` printed as "NaN".
  - `NaN` going through `-` and `+`.

  A JavaScript number is `Some(n)` for an integer and `None` for `NaN` (`JsNumbers.Number`).
- `scanMediaDirectory`: one pass over the directory listing that pushes every regular video
  file onto `movies`, `series` or `documentaries`. This is the method
  `MediaScan.ScanMediaDirectory`, which loops over the listing and appends to three
  sequences. It is proved equal to the specification `MediaScan.ScanResult`, and the
  lemmas about the scan are stated on that specification.

  The file system is an input:
  - the listing `readdir` yields, or `None` when it rejects;
  - for each entry, the `Stats` that `stat` yields (`isFile`, `size`), or `None` when it
    rejects.

  A rejected `stat` leaves the loop for the `catch` block, which keeps the lists built so
  far.

Modules, one per file:

| file | module |
|---|---|
| `wrappers.dfy` | `Wrappers` (`Option`) |
| `fs_model.dfy` | `FsModel` (`Stats`, `EntryName`) |
| `js_strings.dfy` | `JsStrings` |
| `js_numbers.dfy` | `JsNumbers` |
| `classifier.dfy` | `Classifier` |
| `stream_route.dfy` | `StreamRoute` |
| `media_scan.dfy` | `MediaScan` |

A media server of this kind might be expected to do more than `server.js` does. The model
follows the code:
- There is no `.m4v` extension.
- The scan does not recurse and does not skip hidden directories.
- There is no metadata lookup or cache.
- The file name in the stream route is not checked against the media directory.
- A malformed or out-of-range `Range` value is not rejected.

## Model

| member | source | states |
|---|---|---|
| Classifier.HasSeriesMarker | server.js:122 | definition: the lower-cased name contains "s0", "episode" or "e0" |
| Classifier.HasDocumentaryMarker | server.js:125 | definition: the lower-cased name contains "documentary" or "doc" |
| Classifier.IsVideoFile | server.js:115-118 | definition: the lower-cased name ends in one of ".mp4", ".mkv", ".avi", ".mov", ".wmv", ".flv", ".webm" |
| Classifier.DetermineMediaType | server.js:120-129 | definition: the series markers are tested first, then the documentary markers, on the lower-cased name; otherwise a movie |
| Classifier.TypeName | server.js:123-128 | definition: the `type` strings "movie", "series" and "documentary" |
| Classifier.IsVideoFileIgnoresCase | server.js:115-118 | names that differ only in the case of ASCII letters are both videos or both not |
| Classifier.UpperCaseExtensionIsVideo | server.js:115-118 | a name ending in ".MKV" is a video: the suffix test runs on the lower-cased name |
| Classifier.M4vIsNotVideo | server.js:116-117 | no name ending in ".m4v" or ".M4V" is a video; the list has no such extension |
| Classifier.ExtensionNeedsDot | server.js:116-117 | a name ending in "mp4" without a '.' just before it is not a video |
| Classifier.MediaTypeIgnoresCase | server.js:120-129 | the media type depends only on the lower-cased name |
| Classifier.SeriesTakesPrecedence | server.js:121-124 | a name containing "s0", "episode" or "e0" (in any case) is a series, even if it also contains "doc" |
| Classifier.DocumentaryIffDoc | server.js:125-128 | without a series marker, a name is a documentary exactly when its lower-cased form contains "doc", and a movie exactly when it does not; the "documentary" test adds nothing |
| Classifier.DocumentaryContainsDoc | server.js:125 | a string containing "documentary" contains "doc" |
| StreamRoute.StatusCode | server.js:36-57 | definition: 404, 416 or 206 for the three outcomes |
| StreamRoute.ErrorMessage | server.js:38-43 | definition: "File not found" for 404, "Range header required" for 416, none for 206 |
| StreamRoute.RequestedWindow | server.js:46-49 | definition: drop the first "bytes=", split at '-', and read the window from the parts |
| StreamRoute.WindowOf | server.js:47-49 | definition: the start is `parseInt` of the first part; the end is `parseInt` of the second part when it is present and non-empty, else the file size minus one |
| StreamRoute.PartialHeaders | server.js:50-57 | definition: `Content-Range` "bytes start-end/size", `Accept-Ranges` "bytes", `Content-Length` `end-start+1` in `NaN` arithmetic, `Content-Type` "video/mp4" |
| StreamRoute.Stream | server.js:36-57 | 404 exactly when the stat fails, whatever the header; 416 exactly when the stat succeeds and the header is absent or empty; otherwise a 206 whose `Accept-Ranges` is "bytes" and whose `Content-Type` is "video/mp4" |
| StreamRoute.WindowAfterUnit | server.js:46 | a value starting with "bytes=" loses exactly that prefix before the split at '-' |
| StreamRoute.OpenEndedWindow | server.js:46-49 | `bytes=S-` gives the window `S` to `N-1` |
| StreamRoute.OpenEndedRange | server.js:46-57 | `bytes=S-` on a file of `N` bytes: a 206 with `Content-Range` "bytes S-(N-1)/N", `Content-Length` `N-S` and window `S` to `N-1` |
| StreamRoute.WholeFileRange | server.js:46-57 | `bytes=0-` gives status 206, `Content-Range` "bytes 0-(N-1)/N", `Content-Length` `N` and the window 0 to `N-1` |
| StreamRoute.BoundedWindow | server.js:46-49 | `bytes=S-E` gives the window `S` to `E` |
| StreamRoute.BoundedRange | server.js:46-57 | `bytes=S-E`: a 206 with `Content-Range` "bytes S-E/N" and `Content-Length` `E-S+1`; `E` is not clamped to the file and `S <= E` is not checked |
| StreamRoute.HundredBytesOfAThousand | server.js:46-57 | `bytes=100-199` on a 1000-byte file gives 206, `Content-Length` 100 and `Content-Range` "bytes 100-199/1000" |
| StreamRoute.SuffixWindow | server.js:46-49 | `bytes=-L` gives the window `NaN` to `L` |
| StreamRoute.SuffixRangeStartsAtNaN | server.js:46-57 | the suffix form `bytes=-L` of section 2.1 of RFC 7233 is not understood: `Content-Range` is "bytes NaN-L/N", and `Content-Length` and the window start are `NaN` |
| StreamRoute.RequestedStartNonNegative | server.js:46-47 | the parsed start is never negative: the first part of the split holds no '-' |
| StreamRoute.HeadersNameWindow | server.js:50-55 | for a window of two non-negative numbers, `Content-Range` reads back as that window and the file size, and `Content-Length` is the window's width |
| StreamRoute.ContentRangeNamesWindow | server.js:46-57 | for any header whose two ends parse to numbers (end not negative): the start is not negative, `Content-Range` reads back as exactly the window and the file size, and `Content-Length` is `last-first+1` |
| StreamRoute.ContentRangeReadsBack | server.js:53 | a client parsing "bytes a-b/n" recovers `a`, `b` and `n` |
| StreamRoute.InvalidRangeStillServed | server.js:46-57 | `bytes=S-E` with `E` at or past the end of the file, or `S > E`, is still a 206 with window `S` to `E` whose `Content-Range` reads back as that window, though it is not valid under section 4.2 of RFC 7233 |
| JsStrings.LowerChar | server.js:117 | definition: 'A' to 'Z' become 'a' to 'z'; every other character is kept |
| JsStrings.ToLower | server.js:121 | definition: `LowerChar` applied to every character |
| JsStrings.EndsWith | server.js:117 | definition: the suffix is no longer than the text and equals its last characters |
| JsStrings.Includes | server.js:122-125 | definition: the pattern occurs at some index of the text |
| JsStrings.ReplaceFirst | server.js:46 | definition: the first occurrence found by `IndexOf`, if any, is replaced |
| JsStrings.ReplaceFirstReplacesLeftmost | server.js:46 | when the leftmost occurrence of the pattern is at `i`, the result is the text before `i`, the replacement, then the text after that occurrence |
| JsStrings.ReplaceFirstWithoutOccurrence | server.js:46 | a text without the pattern is left unchanged |
| JsStrings.ReplaceFirstAtStart | server.js:46 | replacing the first occurrence of a prefix with "" removes exactly that prefix |
| JsStrings.IndexOf | server.js:46 | the index found is an occurrence with none before it; `None` means no occurrence |
| JsStrings.IndexOfFindsIncludes | server.js:46 | `IndexOf` finds something exactly when the pattern occurs |
| JsStrings.Split | server.js:46 | a split always has at least one part |
| JsStrings.SplitThenJoin | server.js:46 | joining the parts of a split with the separator gives back the string |
| JsStrings.JoinThenSplit | server.js:46 | splitting a join of separator-free parts gives back the parts |
| JsStrings.SplitPartsLackSeparator | server.js:46 | no part of a split contains the separator |
| JsStrings.SplitAtFirstSeparator | server.js:46 | the split of `a + sep + t`, for `a` without `sep`, is `a` followed by the split of `t` |
| JsStrings.SplitWithoutSeparator | server.js:46 | a string without the separator splits into itself alone |
| JsNumbers.Minus | server.js:50 | definition: the difference of two numbers, `NaN` when either is `NaN` |
| JsNumbers.Plus | server.js:50 | definition: the sum of two numbers, `NaN` when either is `NaN` |
| JsNumbers.IntToDecimal | server.js:53 | definition: the decimal digits of an integer, with a leading '-' when it is negative |
| JsNumbers.NumberToString | server.js:53 | definition: "NaN" for `NaN`, otherwise the decimal digits |
| JsNumbers.ParseInt | server.js:47-49 | definition: skip leading white space, then read an optional sign and the longest run of digits; `NaN` without digits |
| JsNumbers.ParseIntRoundTrip | server.js:47-49 | `parseInt` reads back every printed integer |
| JsNumbers.ParseIntOfDecimal | server.js:47-49 | `parseInt` reads a printed non-negative integer followed by a non-digit as that integer |
| JsNumbers.ParseIntSkipsWhitespace | server.js:47-49 | leading white space never changes what `parseInt` reads |
| JsNumbers.ParseIntWithoutMinus | server.js:47-49 | without a '-' in the text, `parseInt` gives `NaN` or a non-negative number |
| JsNumbers.TrimStartIsSuffix | server.js:47-49 | what the white-space skip keeps is a suffix of the text |
| JsNumbers.TrimStartRemovesWhitespace | server.js:47-49 | what the white-space skip removes is white space, and what it keeps does not start with white space |
| JsNumbers.DigitPrefixIsLongest | server.js:47-49 | the digits `parseInt` reads are a prefix of digits with no digit after them |
| JsNumbers.DecimalValue | server.js:53 | the digits printed for `n` have the value `n` |
| MediaScan.ParsedName | server.js:93 | definition: the text before the last '.', or the whole name when there is no '.', the only '.' is the first character, or the name is ".." |
| MediaScan.IsVideoEntry | server.js:91 | definition: the stat succeeded, the entry is a regular file and its name is a video's |
| MediaScan.Scanned | server.js:84-89 | definition: the entries before the first failed stat; none when the listing fails |
| MediaScan.ItemOf | server.js:92-97 | definition: title, file name, size and media type of an entry |
| MediaScan.Bucket | server.js:87-106 | definition: the items, in listing order, of the regular video files of one media type |
| MediaScan.ScanResult | server.js:84-112 | definition: the three buckets of the entries scanned before the first failed stat; nothing when the listing fails |
| MediaScan.ScanMediaDirectory | server.js:77-113 | the loop returns the three buckets of the entries before the first failed stat, and three empty lists when the listing fails |
| MediaScan.FirstStatFailure | server.js:87-89 | the loop stops at the first entry whose stat fails; every entry before it was stat-ed successfully |
| MediaScan.ScannedUpTo | server.js:87-89 | stopping at a failed stat, or at the end, leaves exactly the entries before that point scanned |
| MediaScan.BucketIsSound | server.js:91-105 | every item in a list has that list's type and comes from a regular video file of the listing |
| MediaScan.BucketIsComplete | server.js:91-105 | every regular video file of type `t` has its item in the list for `t` |
| MediaScan.BucketsPartition | server.js:91-105 | the three list lengths add up to the number of regular video files, so each lands in exactly one list |
| MediaScan.BucketAppend | server.js:87-105 | the lists keep listing order: the items of `a + b` are those of `a`, then those of `b` |
| MediaScan.StatFailureTruncates | server.js:87-89 | a failed stat keeps what the entries before it produced and drops all later entries |
| MediaScan.EmptyLibrary | server.js:84-112 | a failed listing, like an empty directory, gives three empty lists |
| MediaScan.VideoExtensionShape | server.js:116 | a video extension, in any case, is a '.' with no other '.' and no '/' |
| MediaScan.TitleDropsExtension | server.js:93 | the title of `stem + ext`, for a video extension in any case and a non-empty stem, is the stem |
| MediaScan.BareExtensionTitle | server.js:93 | a name that is only a video extension, such as ".mp4", is its own title |
| MediaScan.VideoTitle | server.js:91-93 | the title of every video file is its name without its matched extension, or the whole name when it is only that extension |

## Left out

- The browser client (`app.js`): DOM queries, event handlers, modal display and `fetch`
  calls. They are user interface with no decision logic.
- Express wiring: middleware, route registration and `app.listen` (server.js:4-17,
  132-135). The health route and the `POST /api/config/media-path` route (server.js:65-74)
  only assign or echo a global, so they are left out too.
- I/O: `fs.readdir`, `fs.stat`, `createReadStream(...).pipe(res)` and the JSON or text
  bodies. Listings and stat results are inputs. The stream is modelled only as the window
  it is asked to read, `StreamRoute.Window`. `StreamRoute.Stream` is the status and headers
  the handler decides on, not what reaches the client. For a `NaN` start, a `NaN` or
  negative end, or a start after the end, `createReadStream` (server.js:59) throws
  `ERR_OUT_OF_RANGE` inside the callback. That happens after `writeHead` but before
  anything is sent, so no 206 reaches the client. `bytes=-L`, `bytes=0-` on an empty file
  (end -1) and `bytes=5-2` are such cases. The model does not capture this.
- `path.join`: there is no containment check, so a `..` in the requested name is not
  rejected. The model claims no such invariant.
- `path.parse`: modelled for one path component only (`MediaScan.ParsedName`). Names from
  `readdir` never contain '/'.
- `toLowerCase`: modelled for ASCII letters only. Unicode case mapping is left out.
- JavaScript numbers: modelled as unbounded integers or `NaN`. Double precision above
  2^53 and exponent notation in number-to-string are left out.
- `server.js:6` binds `fs` to the promise API. So `fs.stat(filePath, callback)` on
  server.js:36 never calls its callback, and the stream route never answers. When the file
  is missing, the promise that `fs.promises.stat` returns rejects with no handler, and on
  Node 15 and later that ends the process. The model gives the decision the callback was
  written to make.
- The `Range` header value is used as Node gives it: Node trims surrounding white space,
  and that step is not modelled.
- The `catch` of `GET /api/media` (server.js:26-28) can never run, because
  `scanMediaDirectory` catches every error itself. So it is not modelled. The
  `console.error` call in the scan's own `catch` is output only.
- The scan files each item into one of three lists by its `type` string (`'movie'`,
  `'series'`, anything else). The model files it by its `MediaType`, which
  `Classifier.TypeName` maps one-to-one onto those strings.
