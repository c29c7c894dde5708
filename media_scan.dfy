/** `scanMediaDirectory`: list the media directory once, stat every entry, and file the
    video files into three lists in listing order. The file system is a parameter: the
    listing `readdir` yields (`None` when it rejects) and, per entry, what `stat` reports
    (`None` when it rejects). */
module MediaScan {
  import opened Wrappers
  import opened FsModel
  import opened JsStrings
  import opened Classifier

  /** One name from the listing and the result of `stat` on it. */
  datatype DirEntry = DirEntry(name: EntryName, stat: Option<Stats>)

  /** The object pushed for a video file; `mediaType` is the JSON `type` (see `TypeName`). */
  datatype MediaItem = MediaItem(title: string, filename: string, size: nat, mediaType: MediaType)

  /** The library object the route sends back as JSON. */
  datatype Media = Media(movies: seq<MediaItem>, series: seq<MediaItem>, documentaries: seq<MediaItem>)

  /** `path.parse(base).name` for a single path component: everything before the last '.',
      unless there is no '.', the only candidate is the leading one, or the name is "..". */
  function ParsedName(base: EntryName): string {
    match LastIndexOf(base, '.')
    case None => base
    case Some(d) => if d == 0 || base == ".." then base else base[..d]
  }

  /** An entry whose stat succeeded, that is a regular file, and whose name is a video's. */
  predicate IsVideoEntry(e: DirEntry) {
    e.stat.Some? && e.stat.value.isFile && IsVideoFile(e.name)
  }

  function ItemOf(e: DirEntry): MediaItem
    requires e.stat.Some?
  {
    MediaItem(ParsedName(e.name), e.name, e.stat.value.size, DetermineMediaType(e.name))
  }

  /** The items of type `t`, in listing order. */
  function Bucket(es: seq<DirEntry>, t: MediaType): seq<MediaItem> {
    if es == [] then []
    else
      var e := es[|es| - 1];
      var rest := Bucket(es[..|es| - 1], t);
      if IsVideoEntry(e) && DetermineMediaType(e.name) == t then rest + [ItemOf(e)] else rest
  }

  /** The number of video entries in `es`. */
  function VideoCount(es: seq<DirEntry>): nat {
    if es == [] then 0
    else VideoCount(es[..|es| - 1]) + (if IsVideoEntry(es[|es| - 1]) then 1 else 0)
  }

  /** The position of the first entry whose stat rejects, or `|es|` if there is none. */
  function FirstStatFailure(es: seq<DirEntry>): (r: nat)
    ensures r <= |es|
    ensures forall k :: 0 <= k < r ==> es[k].stat.Some?
    ensures r < |es| ==> es[r].stat.None?
  {
    StatFailureFrom(es, 0)
  }

  /** The position of the first entry at or after `j` whose stat rejects, or `|es|`. */
  function StatFailureFrom(es: seq<DirEntry>, j: nat): (r: nat)
    requires j <= |es|
    ensures j <= r <= |es|
    ensures forall k :: j <= k < r ==> es[k].stat.Some?
    ensures r < |es| ==> es[r].stat.None?
    decreases |es| - j
  {
    if j == |es| then j
    else if es[j].stat.None? then j
    else StatFailureFrom(es, j + 1)
  }

  /** The entries the loop gets through before a rejection ends it; none when the listing
      itself rejects. */
  function Scanned(listing: Option<seq<DirEntry>>): seq<DirEntry> {
    match listing
    case None => []
    case Some(es) => es[..FirstStatFailure(es)]
  }

  /** What the route returns for a listing: the three buckets of the scanned entries. */
  function ScanResult(listing: Option<seq<DirEntry>>): Media {
    var es := Scanned(listing);
    Media(Bucket(es, Movie), Bucket(es, Series), Bucket(es, Documentary))
  }

  /** The scan loop. Items are pushed onto the list of their type as they are met; the
      first rejected `stat` leaves the loop for the `catch`, which keeps what was pushed. */
  method ScanMediaDirectory(listing: Option<seq<DirEntry>>) returns (media: Media)
    ensures media == ScanResult(listing)
    ensures listing.None? ==> media == Media([], [], [])
  {
    var movies, series, documentaries := [], [], [];
    if listing.Some? {
      var files := listing.value;
      var i := 0;
      while i < |files|
        invariant 0 <= i <= |files|
        invariant forall k :: 0 <= k < i ==> files[k].stat.Some?
        invariant movies == Bucket(files[..i], Movie)
        invariant series == Bucket(files[..i], Series)
        invariant documentaries == Bucket(files[..i], Documentary)
      {
        var file := files[i];
        if file.stat.None? {
          ScannedUpTo(files, i);
          break;
        }
        BucketStep(files, i);
        if IsVideoEntry(file) {
          var item := ItemOf(file);
          if item.mediaType == Movie {
            movies := movies + [item];
          } else if item.mediaType == Series {
            series := series + [item];
          } else {
            documentaries := documentaries + [item];
          }
        }
        i := i + 1;
      }
      if i == |files| {
        ScannedUpTo(files, i);
      }
    }
    media := Media(movies, series, documentaries);
  }

  /** The scan gets through exactly the entries before the first rejected stat. */
  lemma ScannedUpTo(es: seq<DirEntry>, i: nat)
    requires i <= |es|
    requires forall k :: 0 <= k < i ==> es[k].stat.Some?
    requires i == |es| || es[i].stat.None?
    ensures Scanned(Some(es)) == es[..i]
  {
  }

  /** One more entry appends its item to the bucket of its type, and to no other. */
  lemma BucketStep(es: seq<DirEntry>, i: nat)
    requires i < |es|
    ensures forall t :: (Bucket(es[..i + 1], t) ==
      Bucket(es[..i], t) + if IsVideoEntry(es[i]) && DetermineMediaType(es[i].name) == t then [ItemOf(es[i])] else [])
  {
    assert es[..i + 1][..i] == es[..i];
  }

  /** Every item in a bucket has that bucket's type and comes from a video entry. */
  lemma {:induction false} BucketIsSound(es: seq<DirEntry>, t: MediaType)
    ensures forall x | x in Bucket(es, t) ::
      x.mediaType == t && exists k :: 0 <= k < |es| && IsVideoEntry(es[k]) && ItemOf(es[k]) == x
  {
    if es != [] {
      var init := es[..|es| - 1];
      BucketIsSound(init, t);
      forall x | x in Bucket(es, t)
        ensures x.mediaType == t && exists k :: 0 <= k < |es| && IsVideoEntry(es[k]) && ItemOf(es[k]) == x
      {
        if x in Bucket(init, t) {
          var k :| 0 <= k < |init| && IsVideoEntry(init[k]) && ItemOf(init[k]) == x;
          assert es[k] == init[k];
        } else {
          assert ItemOf(es[|es| - 1]) == x;
        }
      }
    }
  }

  /** Every video entry of type `t` has its item in the bucket for `t`. */
  lemma {:induction false} BucketIsComplete(es: seq<DirEntry>, t: MediaType)
    ensures forall k | 0 <= k < |es| && IsVideoEntry(es[k]) && DetermineMediaType(es[k].name) == t ::
      ItemOf(es[k]) in Bucket(es, t)
  {
    if es != [] {
      var init := es[..|es| - 1];
      BucketIsComplete(init, t);
      forall k | 0 <= k < |es| && IsVideoEntry(es[k]) && DetermineMediaType(es[k].name) == t
        ensures ItemOf(es[k]) in Bucket(es, t)
      {
        if k < |es| - 1 {
          assert es[k] == init[k];
        }
      }
    }
  }

  /** The buckets keep listing order: scanning `a + b` lists `a`'s items before `b`'s. */
  lemma {:induction false} BucketAppend(a: seq<DirEntry>, b: seq<DirEntry>, t: MediaType)
    ensures Bucket(a + b, t) == Bucket(a, t) + Bucket(b, t)
    decreases |b|
  {
    if b == [] {
      assert a + b == a;
    } else {
      var initB := b[..|b| - 1];
      assert (a + b)[..|a + b| - 1] == a + initB;
      BucketAppend(a, initB, t);
    }
  }

  /** Every video entry lands in exactly one bucket: the three lengths add up to the
      number of video entries. */
  lemma {:induction false} BucketsPartition(es: seq<DirEntry>)
    ensures |Bucket(es, Movie)| + |Bucket(es, Series)| + |Bucket(es, Documentary)| == VideoCount(es)
  {
    if es != [] {
      BucketsPartition(es[..|es| - 1]);
    }
  }

  /** A rejected `stat` ends the scan: the entries before it are kept, the rest are lost. */
  lemma StatFailureTruncates(before: seq<DirEntry>, bad: DirEntry, after: seq<DirEntry>)
    requires forall k :: 0 <= k < |before| ==> before[k].stat.Some?
    requires bad.stat.None?
    ensures ScanResult(Some(before + [bad] + after)) == ScanResult(Some(before))
  {
    var es := before + [bad] + after;
    assert es[|before|] == bad;
    assert FirstStatFailure(es) == |before|;
    assert es[..|before|] == before;
    assert before[..|before|] == before;
  }

  /** A failing listing yields the empty library, as does an empty directory. */
  lemma EmptyLibrary()
    ensures ScanResult(None) == Media([], [], [])
    ensures ScanResult(Some([])) == Media([], [], [])
  {
  }

  /** A video extension in any letter case is a '.' followed by no other '.'. */
  lemma VideoExtensionShape(ext: string)
    requires ToLower(ext) in VideoExtensions
    ensures |ext| >= 2 && ext[0] == '.' && forall j :: 1 <= j < |ext| ==> ext[j] != '.'
    ensures '/' !in ext
  {
    var lower := ToLower(ext);
    assert lower[0] == '.' && forall j :: 1 <= j < |lower| ==> lower[j] != '.' && lower[j] != '/';
    forall j | 0 <= j < |ext|
      ensures (ext[j] == '.' <==> lower[j] == '.') && (ext[j] == '/' <==> lower[j] == '/')
    {
      assert lower[j] == LowerChar(ext[j]);
    }
  }

  /** The title of `stem + ext`, for a video extension `ext` in any letter case, is the
      stem, provided the stem is not empty. */
  lemma {:induction false} TitleDropsExtension(stem: string, ext: string)
    requires ToLower(ext) in VideoExtensions && '/' !in stem && stem != []
    ensures '/' !in stem + ext
    ensures ParsedName(stem + ext) == stem
  {
    VideoExtensionShape(ext);
    var name: EntryName := stem + ext;
    var d := LastIndexOf(name, '.');
    assert name[|stem|] == '.';
    assert d.Some?;
    assert d.value == |stem|;
    assert name[..|stem|] == stem;
  }

  /** A name that is only a video extension, such as ".mp4" or ".MKV", is its own title. */
  lemma BareExtensionTitle(ext: string)
    requires ToLower(ext) in VideoExtensions
    ensures '/' !in ext
    ensures ParsedName(ext) == ext
  {
    VideoExtensionShape(ext);
  }

  /** The title of any video file is its name without the extension that made it a
      video, except for a name that is nothing but that extension. */
  lemma VideoTitle(name: EntryName)
    requires IsVideoFile(name)
    ensures exists k ::
      && 0 <= k < |name|
      && ToLower(name[k..]) in VideoExtensions
      && ParsedName(name) == (if k == 0 then name else name[..k])
  {
    var ext :| ext in VideoExtensions && EndsWith(ToLower(name), ext);
    var k := |name| - |ext|;
    assert |ext| >= 1;
    var stem, tail := name[..k], name[k..];
    assert name == stem + tail;
    ToLowerAppend(stem, tail);
    assert ToLower(tail) == ToLower(name)[k..];
    if k == 0 {
      BareExtensionTitle(tail);
    } else {
      TitleDropsExtension(stem, tail);
    }
  }
}
