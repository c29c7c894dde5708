/** `isVideoFile` and `determineMediaType` of server.js. */
module Classifier {
  import opened JsStrings

  /** The extensions `isVideoFile` accepts, in its order; there is no ".m4v". */
  const VideoExtensions: seq<string> := [".mp4", ".mkv", ".avi", ".mov", ".wmv", ".flv", ".webm"]

  /** Some listed extension ends the lower-cased name (`videoExtensions.some(...)`). */
  predicate IsVideoFile(filename: string) {
    exists ext | ext in VideoExtensions :: EndsWith(ToLower(filename), ext)
  }

  datatype MediaType = Movie | Series | Documentary

  /** The `type` string a media item carries in the JSON catalog. */
  function TypeName(t: MediaType): string {
    match t
    case Movie => "movie"
    case Series => "series"
    case Documentary => "documentary"
  }

  predicate HasSeriesMarker(lower: string) {
    Includes(lower, "s0") || Includes(lower, "episode") || Includes(lower, "e0")
  }

  predicate HasDocumentaryMarker(lower: string) {
    Includes(lower, "documentary") || Includes(lower, "doc")
  }

  /** Series markers are tested first, then documentary markers; everything else is a movie. */
  function DetermineMediaType(filename: string): MediaType {
    var lower := ToLower(filename);
    if HasSeriesMarker(lower) then Series
    else if HasDocumentaryMarker(lower) then Documentary
    else Movie
  }

  /** Changing the case of ASCII letters never changes whether a name is a video. */
  lemma IsVideoFileIgnoresCase(a: string, b: string)
    requires CaseVariants(a, b)
    ensures IsVideoFile(a) <==> IsVideoFile(b)
  {
    CaseVariantsLowerAlike(a, b);
  }

  /** Nor the media type it is given. */
  lemma MediaTypeIgnoresCase(a: string, b: string)
    requires CaseVariants(a, b)
    ensures DetermineMediaType(a) == DetermineMediaType(b)
  {
    CaseVariantsLowerAlike(a, b);
  }

  /** The lower-cased name ends with ".m4v", which ends with no listed extension. */
  lemma M4vIsNotVideo(stem: string)
    ensures !IsVideoFile(stem + ".m4v")
    ensures !IsVideoFile(stem + ".M4V")
  {
    ToLowerAppend(stem, ".m4v");
    ToLowerAppend(stem, ".M4V");
    assert ToLower(".M4V") == ".m4v";
    assert ToLower(".m4v") == ".m4v";
    var lower := ToLower(stem) + ".m4v";
    assert lower[|lower| - 1] == 'v';
    assert lower[|lower| - 2] == '4';
  }

  /** An upper-case extension is accepted like its lower-case form. */
  lemma UpperCaseExtensionIsVideo(stem: string)
    ensures IsVideoFile(stem + ".MKV")
  {
    ToLowerAppend(stem, ".MKV");
    assert ToLower(".MKV") == ".mkv";
    var lower := ToLower(stem) + ".mkv";
    assert lower[|lower| - 4..] == ".mkv";
    assert EndsWith(lower, VideoExtensions[1]);
  }

  /** "mp4" directly after a character other than '.' is not an extension. */
  lemma ExtensionNeedsDot(stem: string)
    requires stem == [] || stem[|stem| - 1] != '.'
    ensures !IsVideoFile(stem + "mp4")
  {
    ToLowerAppend(stem, "mp4");
    assert ToLower("mp4") == "mp4";
    var lower := ToLower(stem) + "mp4";
    assert lower[|lower| - 1] == '4';
    if |stem| > 0 {
      assert lower[|lower| - 4] == LowerChar(stem[|stem| - 1]) != '.';
    }
  }

  /** A series marker wins over a documentary marker. */
  lemma SeriesTakesPrecedence(filename: string)
    requires HasSeriesMarker(ToLower(filename))
    ensures DetermineMediaType(filename) == Series
  {
  }

  lemma {:induction false} DocumentaryContainsDoc(s: string)
    requires Includes(s, "documentary")
    ensures Includes(s, "doc")
  {
    var i: nat :| i <= |s| && OccursAt(s, "documentary", i);
    assert s[i..i + 3] == s[i..i + 11][..3];
    assert OccursAt(s, "doc", i);
  }

  /** Without a series marker, a name is a documentary exactly when its lower-cased form
      contains "doc" (the "documentary" test adds nothing), and a movie otherwise. */
  lemma DocumentaryIffDoc(filename: string)
    requires !HasSeriesMarker(ToLower(filename))
    ensures DetermineMediaType(filename) == Documentary <==> Includes(ToLower(filename), "doc")
    ensures DetermineMediaType(filename) == Movie <==> !Includes(ToLower(filename), "doc")
  {
    if Includes(ToLower(filename), "documentary") {
      DocumentaryContainsDoc(ToLower(filename));
    }
  }
}
