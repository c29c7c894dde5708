/** The decision the `/api/stream/:filename` handler of server.js makes once `fs.stat` has
    answered: which status, which headers, and which byte window it asks the file system to read. */
module StreamRoute {
  import opened Wrappers
  import opened FsModel
  import opened JsStrings
  import opened JsNumbers

  /** The headers of a 206 response. */
  datatype Headers = Headers(contentRange: string, acceptRanges: string, contentLength: Number, contentType: string)

  /** The `{start, end}` options handed to `createReadStream`: both ends inclusive. */
  datatype Window = Window(start: Number, end: Number)

  datatype Outcome =
    | NotFound                                  // 404, JSON body {error: "File not found"}
    | RangeRequired                             // 416, text body "Range header required"
    | Partial(headers: Headers, window: Window) // 206, body streamed from the window

  function StatusCode(o: Outcome): int {
    match o
    case NotFound => 404
    case RangeRequired => 416
    case Partial(_, _) => 206
  }

  /** The body of the two error responses. */
  function ErrorMessage(o: Outcome): Option<string> {
    match o
    case NotFound => Some("File not found")
    case RangeRequired => Some("Range header required")
    case Partial(_, _) => None
  }

  /** The stat callback: `stat` is `None` when `fs.stat` reports an error, `range` is
      `req.headers.range` (`None` when the header is absent). */
  function Stream(stat: Option<Stats>, range: Option<string>): (r: Outcome)
    ensures r == NotFound <==> stat.None?
    ensures r == RangeRequired <==> stat.Some? && (range.None? || range.value == "")
    ensures r.Partial? ==> r.headers.acceptRanges == "bytes" && r.headers.contentType == "video/mp4"
  {
    if stat.None? then NotFound
    else if range.None? || range.value == "" then RangeRequired
    else
      var window := RequestedWindow(range.value, stat.value.size);
      Partial(PartialHeaders(window, stat.value.size), window)
  }

  /** `start` and `end` as the handler reads them from a non-empty `Range` value: the first
      "bytes=" is removed, the rest is split at '-', and each part goes through `parseInt`;
      a missing or empty second part means the file's last byte. */
  function RequestedWindow(range: string, fileSize: nat): Window {
    WindowOf(Split(ReplaceFirst(range, "bytes=", ""), '-'), fileSize)
  }

  /** `positions[0]` and `positions[1]` of the split value, through `parseInt`. */
  function WindowOf(positions: seq<string>, fileSize: nat): Window
    requires |positions| >= 1
  {
    var start := ParseInt(positions[0]);
    var end := if |positions| > 1 && positions[1] != "" then ParseInt(positions[1]) else Some(fileSize - 1);
    Window(start, end)
  }

  /** The 206 headers for a window: `chunksize = (end - start) + 1`. */
  function PartialHeaders(w: Window, fileSize: nat): Headers {
    Headers("bytes " + NumberToString(w.start) + "-" + NumberToString(w.end) + "/" + IntToDecimal(fileSize),
            "bytes", Plus(Minus(w.end, w.start), Some(1)), "video/mp4")
  }

  /** What a client reads from a `Content-Range` value of the form
      `bytes first-last/complete-length` (section 4.2 of RFC 7233), all three as digits. */
  function ParseContentRange(h: string): Option<(nat, nat, nat)> {
    if |h| < 6 || h[..6] != "bytes " then None
    else
      var halves := Split(h[6..], '/');
      var bounds := Split(halves[0], '-');
      if |halves| != 2 || |bounds| != 2 then None
      else match (DecimalOf(bounds[0]), DecimalOf(bounds[1]), DecimalOf(halves[1]))
        case (Some(first), Some(last), Some(length)) => Some((first, last, length))
        case _ => None
  }

  function DecimalOf(s: string): Option<nat> {
    if s != [] && AllDigits(s) then Some(DigitsValue(s)) else None
  }

  /** Section 4.2 of RFC 7233: a byte-range-resp is valid only when
      first-byte-pos <= last-byte-pos < complete-length. */
  predicate ValidByteRangeResp(first: nat, last: nat, length: nat) {
    first <= last < length
  }

  lemma DecimalOfDecimal(n: nat)
    ensures DecimalOf(NatToDecimal(n)) == Some(n)
  {
    NatToDecimalDigits(n);
    DecimalValue(n);
  }

  lemma ParseDecimal(n: nat)
    ensures ParseInt(NatToDecimal(n)) == Some(n)
  {
    ParseIntOfDecimal(n, "");
    assert NatToDecimal(n) + "" == NatToDecimal(n);
  }

  lemma SplitOnce(a: string, b: string, sep: char)
    requires sep !in a && sep !in b
    ensures Split(a + [sep] + b, sep) == [a, b]
  {
    SplitAtFirstSeparator(a, b, sep);
    SplitWithoutSeparator(b, sep);
  }

  /** A value that starts with "bytes=" loses exactly that prefix before the split. */
  lemma WindowAfterUnit(rest: string, fileSize: nat)
    ensures RequestedWindow("bytes=" + rest, fileSize) == WindowOf(Split(rest, '-'), fileSize)
  {
    ReplaceFirstAtStart("bytes=", rest);
  }

  /** A non-empty header value reaches the range arithmetic. */
  lemma StreamOfRange(stats: Stats, range: string)
    requires range != ""
    ensures Stream(Some(stats), Some(range)) ==
      Partial(PartialHeaders(RequestedWindow(range, stats.size), stats.size), RequestedWindow(range, stats.size))
  {
  }

  /** The window of `bytes=S-`. */
  lemma OpenEndedWindow(s: nat, fileSize: nat)
    ensures RequestedWindow("bytes=" + NatToDecimal(s) + "-", fileSize) == Window(Some(s), Some(fileSize - 1))
  {
    var d := NatToDecimal(s);
    NatToDecimalLacks(s, '-');
    assert "bytes=" + d + "-" == "bytes=" + (d + ['-'] + "");
    WindowAfterUnit(d + ['-'] + "", fileSize);
    SplitOnce(d, "", '-');
    ParseDecimal(s);
  }

  lemma OpenEndedHeaders(s: nat, fileSize: nat)
    ensures PartialHeaders(Window(Some(s), Some(fileSize - 1)), fileSize) ==
      Headers("bytes " + NatToDecimal(s) + "-" + IntToDecimal(fileSize - 1) + "/" + NatToDecimal(fileSize),
              "bytes", Some(fileSize - s), "video/mp4")
  {
  }

  /** `bytes=S-`: the window runs to the last byte, `end = N - 1`, and
      `Content-Length = N - S`. */
  lemma OpenEndedRange(stats: Stats, s: nat)
    ensures Stream(Some(stats), Some("bytes=" + NatToDecimal(s) + "-")) ==
      Partial(Headers("bytes " + NatToDecimal(s) + "-" + IntToDecimal(stats.size - 1) + "/" + NatToDecimal(stats.size),
                      "bytes", Some(stats.size - s), "video/mp4"),
              Window(Some(s), Some(stats.size - 1)))
  {
    OpenEndedWindow(s, stats.size);
    OpenEndedHeaders(s, stats.size);
    StreamOfRange(stats, "bytes=" + NatToDecimal(s) + "-");
  }

  lemma WholeFileWindow(fileSize: nat)
    ensures RequestedWindow("bytes=0-", fileSize) == Window(Some(0), Some(fileSize - 1))
  {
    assert NatToDecimal(0) == "0";
    assert "bytes=" + NatToDecimal(0) + "-" == "bytes=0-";
    OpenEndedWindow(0, fileSize);
  }

  lemma WholeFileHeaders(fileSize: nat)
    ensures PartialHeaders(Window(Some(0), Some(fileSize - 1)), fileSize) ==
      Headers("bytes 0-" + IntToDecimal(fileSize - 1) + "/" + IntToDecimal(fileSize), "bytes", Some(fileSize), "video/mp4")
  {
    assert NatToDecimal(0) == "0";
  }

  /** `bytes=0-` asks for the whole file: `bytes 0-(N-1)/N`, `N` bytes. */
  lemma WholeFileRange(stats: Stats)
    ensures var r := Stream(Some(stats), Some("bytes=0-"));
      && StatusCode(r) == 206
      && r.headers.contentRange == "bytes 0-" + IntToDecimal(stats.size - 1) + "/" + IntToDecimal(stats.size)
      && r.headers.contentLength == Some(stats.size)
      && r.window == Window(Some(0), Some(stats.size - 1))
  {
    WholeFileWindow(stats.size);
    WholeFileHeaders(stats.size);
    StreamOfRange(stats, "bytes=0-");
  }

  /** The window of `bytes=S-E`. */
  lemma BoundedWindow(s: nat, e: nat, fileSize: nat)
    ensures RequestedWindow("bytes=" + NatToDecimal(s) + "-" + NatToDecimal(e), fileSize) == Window(Some(s), Some(e))
  {
    var ds, de := NatToDecimal(s), NatToDecimal(e);
    NatToDecimalLacks(s, '-');
    NatToDecimalLacks(e, '-');
    assert "bytes=" + ds + "-" + de == "bytes=" + (ds + ['-'] + de);
    WindowAfterUnit(ds + ['-'] + de, fileSize);
    SplitOnce(ds, de, '-');
    ParseDecimal(s);
    ParseDecimal(e);
  }

  lemma BoundedHeaders(s: nat, e: nat, fileSize: nat)
    ensures PartialHeaders(Window(Some(s), Some(e)), fileSize) ==
      Headers("bytes " + NatToDecimal(s) + "-" + NatToDecimal(e) + "/" + NatToDecimal(fileSize),
              "bytes", Some(e - s + 1), "video/mp4")
  {
  }

  /** `bytes=S-E`: a 206 whose `Content-Length` is `E - S + 1` and whose `Content-Range` is
      `bytes S-E/N`; `E` is not clamped to the file and `S <= E` is not checked. */
  lemma BoundedRange(stats: Stats, s: nat, e: nat)
    ensures Stream(Some(stats), Some("bytes=" + NatToDecimal(s) + "-" + NatToDecimal(e))) ==
      Partial(Headers("bytes " + NatToDecimal(s) + "-" + NatToDecimal(e) + "/" + NatToDecimal(stats.size),
                      "bytes", Some(e - s + 1), "video/mp4"),
              Window(Some(s), Some(e)))
  {
    BoundedWindow(s, e, stats.size);
    BoundedHeaders(s, e, stats.size);
    StreamOfRange(stats, "bytes=" + NatToDecimal(s) + "-" + NatToDecimal(e));
  }

  lemma HundredBytesWindow()
    ensures RequestedWindow("bytes=100-199", 1000) == Window(Some(100), Some(199))
  {
    assert NatToDecimal(1) == "1";
    assert NatToDecimal(10) == "10";
    assert NatToDecimal(100) == "100";
    assert NatToDecimal(19) == "19";
    assert NatToDecimal(199) == "199";
    assert "bytes=" + NatToDecimal(100) + "-" + NatToDecimal(199) == "bytes=100-199";
    BoundedWindow(100, 199, 1000);
  }

  lemma HundredBytesHeaders()
    ensures PartialHeaders(Window(Some(100), Some(199)), 1000) ==
      Headers("bytes 100-199/1000", "bytes", Some(100), "video/mp4")
  {
    assert NatToDecimal(1) == "1";
    assert NatToDecimal(10) == "10";
    assert NatToDecimal(100) == "100";
    assert NatToDecimal(19) == "19";
    assert NatToDecimal(199) == "199";
    assert NatToDecimal(1000) == "1000";
  }

  /** `bytes=100-199` on a 1000-byte file: 206, 100 bytes, `bytes 100-199/1000`. */
  lemma HundredBytesOfAThousand()
    ensures var r := Stream(Some(Stats(true, 1000)), Some("bytes=100-199"));
      && StatusCode(r) == 206
      && r.headers.contentLength == Some(100)
      && r.headers.contentRange == "bytes 100-199/1000"
      && r.window == Window(Some(100), Some(199))
  {
    HundredBytesWindow();
    HundredBytesHeaders();
    StreamOfRange(Stats(true, 1000), "bytes=100-199");
  }

  /** The window of `bytes=-L`. */
  lemma SuffixWindow(n: nat, fileSize: nat)
    ensures RequestedWindow("bytes=-" + NatToDecimal(n), fileSize) == Window(None, Some(n))
  {
    var d := NatToDecimal(n);
    NatToDecimalLacks(n, '-');
    assert "bytes=-" + d == "bytes=" + ("" + ['-'] + d);
    WindowAfterUnit("" + ['-'] + d, fileSize);
    SplitOnce("", d, '-');
    ParseDecimal(n);
  }

  lemma SuffixHeaders(n: nat, fileSize: nat)
    ensures PartialHeaders(Window(None, Some(n)), fileSize) ==
      Headers("bytes NaN-" + NatToDecimal(n) + "/" + NatToDecimal(fileSize), "bytes", None, "video/mp4")
  {
    assert "bytes " + "NaN" + "-" == "bytes NaN-";
  }

  /** The suffix form `bytes=-L` of section 2.1 of RFC 7233 is not understood: the empty
      first part parses to `NaN`, so the start, the length and the window start are `NaN`. */
  lemma SuffixRangeStartsAtNaN(stats: Stats, n: nat)
    ensures Stream(Some(stats), Some("bytes=-" + NatToDecimal(n))) ==
      Partial(Headers("bytes NaN-" + NatToDecimal(n) + "/" + NatToDecimal(stats.size), "bytes", None, "video/mp4"),
              Window(None, Some(n)))
  {
    SuffixWindow(n, stats.size);
    SuffixHeaders(n, stats.size);
    StreamOfRange(stats, "bytes=-" + NatToDecimal(n));
  }

  /** A client reading back `bytes a-b/n` recovers `a`, `b` and `n`. */
  lemma ContentRangeReadsBack(a: nat, b: nat, n: nat)
    ensures ParseContentRange("bytes " + NatToDecimal(a) + "-" + NatToDecimal(b) + "/" + NatToDecimal(n)) == Some((a, b, n))
  {
    var da, db, dn := NatToDecimal(a), NatToDecimal(b), NatToDecimal(n);
    var h := "bytes " + da + "-" + db + "/" + dn;
    var pair := da + ['-'] + db;
    assert h == "bytes " + (pair + ['/'] + dn);
    assert h[..6] == "bytes " && h[6..] == pair + ['/'] + dn;
    NatToDecimalLacks(a, '/');
    NatToDecimalLacks(b, '/');
    NatToDecimalLacks(a, '-');
    NatToDecimalLacks(b, '-');
    NatToDecimalLacks(n, '/');
    assert '/' !in pair;
    SplitOnce(pair, dn, '/');
    SplitOnce(da, db, '-');
    DecimalOfDecimal(a);
    DecimalOfDecimal(b);
    DecimalOfDecimal(n);
  }

  /** The first part never holds a '-', so the start is `NaN` or non-negative. */
  lemma RequestedStartNonNegative(range: string, fileSize: nat)
    ensures RequestedWindow(range, fileSize).start.Some? ==> RequestedWindow(range, fileSize).start.value >= 0
  {
    var positions := Split(ReplaceFirst(range, "bytes=", ""), '-');
    SplitPartsLackSeparator(ReplaceFirst(range, "bytes=", ""), '-');
    ParseIntWithoutMinus(positions[0]);
  }

  /** For a window of two non-negative numbers, the headers name it and the file size. */
  lemma HeadersNameWindow(w: Window, fileSize: nat)
    requires w.start.Some? && w.end.Some? && w.start.value >= 0 && w.end.value >= 0
    ensures var h := PartialHeaders(w, fileSize);
      && ParseContentRange(h.contentRange) == Some((w.start.value, w.end.value, fileSize))
      && h.contentLength == Some(w.end.value - w.start.value + 1)
  {
    ContentRangeReadsBack(w.start.value, w.end.value, fileSize);
  }

  /** Whenever both ends of the window are numbers (and the end is not the -1 of an empty
      file), the declared `Content-Range` names exactly that window and the file size, and
      `Content-Length` is the window's width. */
  lemma ContentRangeNamesWindow(stats: Stats, range: string)
    requires range != ""
    ensures var r := Stream(Some(stats), Some(range));
      r.window.start.Some? && r.window.end.Some? && r.window.end.value >= 0 ==>
        var first, last := r.window.start.value, r.window.end.value;
        && first >= 0
        && ParseContentRange(r.headers.contentRange) == Some((first, last, stats.size))
        && r.headers.contentLength == Some(last - first + 1)
  {
    var w := RequestedWindow(range, stats.size);
    RequestedStartNonNegative(range, stats.size);
    if w.start.Some? && w.end.Some? && w.end.value >= 0 {
      HeadersNameWindow(w, stats.size);
    }
    StreamOfRange(stats, range);
  }

  /** Validity in the sense of RFC 7233 is never checked: for a window that runs past the end
      of the file, or is reversed, the handler still decides on a 206 whose `Content-Range`
      is not a valid byte-range-resp. */
  lemma InvalidRangeStillServed(stats: Stats, s: nat, e: nat)
    requires e >= stats.size || s > e
    ensures var r := Stream(Some(stats), Some("bytes=" + NatToDecimal(s) + "-" + NatToDecimal(e)));
      && r.Partial?
      && r.window == Window(Some(s), Some(e))
      && ParseContentRange(r.headers.contentRange) == Some((s, e, stats.size))
      && !ValidByteRangeResp(s, e, stats.size)
  {
    ContentRangeReadsBack(s, e, stats.size);
    BoundedRange(stats, s, e);
  }
}
