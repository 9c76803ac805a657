/**
 * The media-host helpers: classifying an id or URL as image or video, pulling
 * the public id out of a delivery URL, and the single and bulk delete calls,
 * whose HTTP transport is a parameter.
 */
module MediaIds {
  import opened Base
  import opened Text
  import opened Numerals
  import opened Js
  import opened Http

  datatype ResourceType = Image | Video {
    /** The string the host and the upload route use for the type. */
    function Name(): string {
      if Image? then "image" else "video"
    }
  }

  /** The file extensions both classifiers treat as video. */
  const VideoExtensions: seq<string> := [".mp4", ".mov", ".avi", ".wmv", ".flv", ".webm", ".mkv"]

  // ---------------------------------------------------------------------------
  // Classifying by substring and extension
  // ---------------------------------------------------------------------------

  /**
   * Best-effort classification of a public id or URL: video when the
   * lower-cased text contains a video extension, `/video/` or `video`
   * anywhere; image otherwise.
   */
  function DetermineResourceType(publicIdOrUrl: string): (r: ResourceType)
    ensures r == Video <==>
      Contains(JsLower(publicIdOrUrl), "video")
      || exists e | e in VideoExtensions :: Contains(JsLower(publicIdOrUrl), e)
  {
    var lower := JsLower(publicIdOrUrl);
    SlashVideoContainsVideo(lower);
    if (exists e | e in VideoExtensions :: Contains(lower, e))
       || Contains(lower, "/video/") || Contains(lower, "video")
    then
      Video
    else
      Image
  }

  lemma SlashVideoContainsVideo(s: string)
    ensures Contains(s, "/video/") ==> Contains(s, "video")
  {
    if Contains(s, "/video/") {
      assert OccursAt("/video/", "video", 1);
      ContainsTransitive(s, "/video/", "video");
    }
  }

  /** Matching ignores case: upper-casing the ASCII letters of the input changes nothing. */
  lemma DetermineIgnoresCase(s: string)
    ensures DetermineResourceType(AsciiUpper(s)) == DetermineResourceType(s)
  {
    JsLowerIgnoresAsciiCase(s);
  }

  /** Classifying the lower-cased text gives the same answer. */
  lemma DetermineOfLowered(s: string)
    ensures DetermineResourceType(JsLower(s)) == DetermineResourceType(s)
  {
    JsLowerIdempotent(s);
  }

  /**
   * URL classification: video when the URL contains `/video/` (case-sensitive)
   * or ends with a video extension (ASCII case-insensitive, as the regular
   * expression's `i` flag compares).
   */
  function GetResourceTypeFromUrl(url: string): ResourceType {
    if Contains(url, "/video/") || exists e | e in VideoExtensions :: EndsWith(AsciiLower(url), e)
    then Video
    else Image
  }

  /** An upper-case extension still marks a video. */
  lemma UpperCaseExtensionIsVideo(url: string)
    requires EndsWith(url, ".MP4")
    ensures GetResourceTypeFromUrl(url) == Video
  {
    var n := |url|;
    assert AsciiLower(url)[n - 4..] == AsciiLower(url[n - 4..]);
    assert url[n - 4..] == ".MP4";
    assert AsciiLower(".MP4") == ".mp4";
    assert EndsWith(AsciiLower(url), VideoExtensions[0]);
  }

  lemma LowerOfSlashVideo()
    ensures JsLower("/video/") == "/video/"
  {
    JsLowerOfLowerAscii("/video/");
  }

  /** A `/video/` segment anywhere in the text survives lower-casing as `video`. */
  lemma SlashVideoSurvivesLowering(url: string)
    requires Contains(url, "/video/")
    ensures Contains(JsLower(url), "video")
  {
    var i :| 0 <= i <= |url| && OccursAt(url, "/video/", i);
    var a, b := url[..i], url[i + 7..];
    assert url == a + "/video/" + b;
    JsLowerConcat(a + "/video/", b);
    JsLowerConcat(a, "/video/");
    LowerOfSlashVideo();
    ContainsMiddle(JsLower(a), "/video/", JsLower(b));
    SlashVideoContainsVideo(JsLower(url));
  }

  /** An extension that ends the ASCII-lowered URL also occurs in the fully lowered URL. */
  lemma ExtensionSurvivesLowering(url: string, e: string)
    requires IsLowerAscii(e)
    requires EndsWith(AsciiLower(url), e)
    ensures Contains(JsLower(url), e)
  {
    var k := |url| - |e|;
    var a, w := url[..k], url[k..];
    AsciiLowerSuffix(url, k);
    AsciiLowerPreimage(w, e);
    JsLowerOfAscii(w);
    assert url == a + w;
    JsLowerConcat(a, w);
    ContainsSuffix(JsLower(a), e);
  }

  /** Every listed extension is lower-case ASCII and ends in one of `4`, `v`, `i`, `m`. */
  lemma ExtensionShape(e: string)
    requires e in VideoExtensions
    ensures IsLowerAscii(e)
    ensures |e| >= 4 && e[0] == '.' && e[|e| - 1] in "4vim"
  {
    var i :| 0 <= i < |VideoExtensions| && VideoExtensions[i] == e;
    if i == 0 { assert e == ".mp4"; }
    else if i == 1 { assert e == ".mov"; }
    else if i == 2 { assert e == ".avi"; }
    else if i == 3 { assert e == ".wmv"; }
    else if i == 4 { assert e == ".flv"; }
    else if i == 5 { assert e == ".webm"; }
    else { assert e == ".mkv"; }
  }

  /**
   * The URL classifier is the stricter of the two: whatever it calls video,
   * the id classifier calls video too.
   */
  lemma UrlVideoIsVideo(url: string)
    requires GetResourceTypeFromUrl(url) == Video
    ensures DetermineResourceType(url) == Video
  {
    if Contains(url, "/video/") {
      SlashVideoSurvivesLowering(url);
    } else {
      var e :| e in VideoExtensions && EndsWith(AsciiLower(url), e);
      ExtensionShape(e);
      ExtensionSurvivesLowering(url, e);
    }
  }

  /** A name that merely mentions video makes the id classifier say video ... */
  lemma VideoNamedImageFoolsIdClassifier()
    ensures DetermineResourceType("video.jpg") == Video
  {
    NamedVideoIsVideo(".jpg");
    assert "video" + ".jpg" == "video.jpg";
  }

  /** Any id or URL that starts with `video` is classified as video, whatever follows. */
  lemma NamedVideoIsVideo(rest: string)
    ensures DetermineResourceType("video" + rest) == Video
  {
    JsLowerOfLowerAscii("video");
    JsLowerConcat("video", rest);
    assert OccursAt(JsLower("video" + rest), "video", 0);
  }

  /** A URL without `/video/` whose last character ends no video extension is an image URL. */
  lemma ImageUrlByLastChar(url: string)
    requires !Contains(url, "/video/")
    requires url != [] && AsciiLowerChar(url[|url| - 1]) !in "4vim"
    ensures GetResourceTypeFromUrl(url) == Image
  {
    if GetResourceTypeFromUrl(url) == Video {
      var e :| e in VideoExtensions && EndsWith(AsciiLower(url), e);
      ExtensionShape(e);
    }
  }

  lemma NoSlashNoVideoSegment(s: string)
    requires '/' !in s
    ensures !Contains(s, "/video/")
  {
    forall i | 0 <= i < |s| ensures !OccursAt(s, "/video/", i) {
      MismatchAt(s, "/video/", i, 0);
    }
  }

  /** ... while the URL classifier says image, so the converse of UrlVideoIsVideo fails. */
  lemma VideoNamedImageIsImageUrl()
    ensures GetResourceTypeFromUrl("video.jpg") == Image
  {
    var s := "video.jpg";
    NoSlashNoVideoSegment(s);
    ImageUrlByLastChar(s);
  }

  // ---------------------------------------------------------------------------
  // The public id inside a delivery URL
  // ---------------------------------------------------------------------------

  const ImageMarker: string := "/image/upload/"
  const VideoMarker: string := "/video/upload/"

  /** One of the two upload markers starts at index `i`. */
  predicate MarkerAt(s: string, i: int) {
    OccursAt(s, ImageMarker, i) || OccursAt(s, VideoMarker, i)
  }

  predicate NoMarker(s: string) {
    forall i | 0 <= i <= |s| :: !MarkerAt(s, i)
  }

  predicate DotFree(s: string) {
    forall i :: 0 <= i < |s| ==> s[i] != '.'
  }

  /** No character `.` cannot match (in a regular expression without the `s` flag). */
  predicate LineFree(s: string) {
    forall i :: 0 <= i < |s| ==> !IsLineTerminator(s[i])
  }

  /** Length of a leading `v<digits>/` version segment, 0 when there is none. */
  function VersionLength(t: string): (n: nat)
    ensures n <= |t|
  {
    if |t| >= 1 && t[0] == 'v' then
      var d := RadixRun(t[1..], 10);
      if d >= 1 && d + 1 < |t| && t[d + 1] == '/' then d + 2 else 0
    else 0
  }

  /** `(?:\.[^.]+)?$` matches `t` from index `k`. */
  predicate TailMatches(t: string, k: nat)
    requires k <= |t|
  {
    k == |t| || (t[k] == '.' && k + 1 < |t| && DotFree(t[k + 1..]))
  }

  /** `(.+?)(?:\.[^.]+)?$` can match `t` with the group ending at `k`. */
  predicate Candidate(t: string, k: int) {
    1 <= k <= |t| && LineFree(t[..k]) && TailMatches(t, k)
  }

  function LastDot(t: string): (r: Option<nat>)
    ensures r.Some? ==> r.value < |t| && t[r.value] == '.' && DotFree(t[r.value + 1..])
    ensures r.None? ==> DotFree(t)
  {
    if t == [] then None
    else if t[|t| - 1] == '.' then Some(|t| - 1)
    else
      var r := LastDot(t[..|t| - 1]);
      if r.Some? then
        assert t[r.value + 1..] == t[..|t| - 1][r.value + 1..] + [t[|t| - 1]];
        r
      else
        r
  }

  /** Where the lazy group stops: before the last dot when a non-empty suffix follows it, else at the end. */
  function CutPoint(t: string): (k: nat)
    ensures k <= |t|
  {
    match LastDot(t)
    case Some(j) => if j >= 1 && j + 1 < |t| then j else |t|
    case None => |t|
  }

  /**
   * The capture group when the rest of the pattern starts at `t`: the shortest
   * non-empty prefix after which an optional extension and the end of input
   * follow. `None` when no such prefix exists (empty input, or a line
   * terminator before the cut).
   */
  function Capture(t: string): (r: Option<string>)
    ensures r.Some? <==> exists k :: Candidate(t, k)
    ensures r.Some? ==>
      && Candidate(t, |r.value|)
      && r.value == t[..|r.value|]
      && forall k :: 1 <= k < |r.value| ==> !Candidate(t, k)
  {
    if t == [] then None
    else
      var k := CutPoint(t);
      CutPointIsLeast(t);
      if LineFree(t[..k]) then
        assert Candidate(t, k);
        Some(t[..k])
      else
        assert forall k' :: !Candidate(t, k');
        None
  }

  lemma CutPointIsLeast(t: string)
    requires t != []
    ensures 1 <= CutPoint(t) && TailMatches(t, CutPoint(t))
    ensures forall k :: 1 <= k < CutPoint(t) ==> !TailMatches(t, k)
    ensures forall k :: 1 <= k <= |t| && TailMatches(t, k) ==> CutPoint(t) <= k
  {
    var c := CutPoint(t);
    forall k | 1 <= k <= |t| && TailMatches(t, k) && k < c ensures false {
    }
  }

  /** The optional version segment is tried first, and skipped when the rest cannot match after it. */
  function MatchAfterMarker(rest: string): Option<string> {
    var v := VersionLength(rest);
    if v > 0 && Capture(rest[v..]).Some? then Capture(rest[v..]) else Capture(rest)
  }

  predicate MatchesAt(s: string, i: int) {
    0 <= i && i + |ImageMarker| <= |s| && MarkerAt(s, i) && MatchAfterMarker(s[i + |ImageMarker|..]).Some?
  }

  /** The regular-expression engine's scan: the leftmost start index where the whole pattern matches. */
  function Search(s: string, i: nat): (r: Option<string>)
    ensures r.Some? <==> exists j :: i <= j && MatchesAt(s, j)
    ensures r.Some? ==> exists j :: (i <= j && MatchesAt(s, j)
      && r == MatchAfterMarker(s[j + |ImageMarker|..])
      && forall j' :: i <= j' < j ==> !MatchesAt(s, j'))
    decreases |s| - i
  {
    if i + |ImageMarker| > |s| then None
    else if MatchesAt(s, i) then MatchAfterMarker(s[i + |ImageMarker|..])
    else Search(s, i + 1)
  }

  /**
   * `url.match(/\/(?:image|video)\/upload\/(?:v\d+\/)?(.+?)(?:\.[^.]+)?$/)?.[1] ?? null`.
   */
  function ExtractPublicIdFromUrl(url: string): Option<string> {
    Search(url, 0)
  }

  // ---------------------------------------------------------------------------
  // Properties of the extraction
  // ---------------------------------------------------------------------------

  lemma CaptureWhole(t: string)
    requires t != [] && LineFree(t)
    ensures Capture(t).Some?
  {
    assert t[..|t|] == t;
    assert Candidate(t, |t|);
  }

  /** Without line terminators, the URL yields no id exactly when no marker is followed by a character. */
  lemma ExtractNullIff(url: string)
    requires LineFree(url)
    ensures ExtractPublicIdFromUrl(url).None? <==>
      forall i :: !(MarkerAt(url, i) && i + |ImageMarker| < |url|)
  {
    forall i | MarkerAt(url, i) && i + |ImageMarker| < |url|
      ensures MatchesAt(url, i)
    {
      var rest := url[i + |ImageMarker|..];
      assert LineFree(rest) by {
        forall k | 0 <= k < |rest| ensures !IsLineTerminator(rest[k]) {
          assert rest[k] == url[i + |ImageMarker| + k];
        }
      }
      CaptureWhole(rest);
    }
  }

  /** A capture whose input has no dot is the whole input, folder segments included. */
  lemma CaptureDotless(t: string)
    requires t != [] && DotFree(t) && LineFree(t)
    ensures Capture(t) == Some(t)
  {
    CaptureWhole(t);
    assert t[..|t|] == t;
  }

  /** A dot-free name followed by a dot-free extension captures as the name. */
  lemma CaptureExtension(id: string, ext: string)
    requires id != [] && DotFree(id) && LineFree(id)
    requires ext != [] && DotFree(ext)
    ensures Capture(id + "." + ext) == Some(id)
  {
    var t := id + "." + ext;
    assert t[..|id|] == id;
    assert t[|id| + 1..] == ext;
    assert Candidate(t, |id|);
    forall k | 1 <= k < |id| ensures !TailMatches(t, k) {
      assert t[k] == id[k];
    }
  }

  lemma MarkerChars(m: string)
    requires m == ImageMarker || m == VideoMarker
    ensures |m| == 14 && m[0] == '/' && m[6] == '/' && m[7] == 'u' && (m[1] == 'i' || m[1] == 'v')
    ensures forall o :: 1 <= o <= 12 && m[o] == '/' ==> o == 6
  {
  }

  lemma MarkerAtAgree(s: string, p: string, j: nat)
    requires j + 14 <= |s| && j + 14 <= |p| && s[j..j + 14] == p[j..j + 14]
    ensures MarkerAt(s, j) == MarkerAt(p, j)
  {
  }

  lemma MismatchAt(s: string, sub: string, j: nat, d: nat)
    requires d < |sub| && j + d < |s| && s[j + d] != sub[d]
    ensures !OccursAt(s, sub, j)
  {
  }

  /** A marker cannot start inside `prefix` and run into the marker that follows it. */
  lemma NoStraddlingMarker(prefix: string, m: string, rest: string, j: int)
    requires m == ImageMarker || m == VideoMarker
    requires 0 <= j < |prefix| < j + 13
    ensures !MarkerAt(prefix + m + rest, j)
  {
    var s := prefix + m + rest;
    MarkerChars(m);
    MarkerChars(ImageMarker);
    MarkerChars(VideoMarker);
    var o := |prefix| - j;
    assert s[j + o] == '/' && s[j + o + 1] == m[1];
    var d := if o == 6 then 7 else o;
    MismatchAt(s, ImageMarker, j, d);
    MismatchAt(s, VideoMarker, j, d);
  }

  /** No marker starts inside `prefix` when `prefix + "/"` has none and a marker follows `prefix`. */
  lemma NoEarlierMarker(prefix: string, m: string, rest: string, j: int)
    requires m == ImageMarker || m == VideoMarker
    requires NoMarker(prefix + "/")
    requires 0 <= j < |prefix|
    ensures !MarkerAt(prefix + m + rest, j)
  {
    var s := prefix + m + rest;
    var p := prefix + "/";
    if j + 14 <= |p| {
      forall k | j <= k < j + 14 ensures s[k] == p[k] {
        if k == |prefix| {
          assert s[k] == m[0];
        }
      }
      assert s[j..j + 14] == p[j..j + 14];
      MarkerAtAgree(s, p, j);
    } else {
      NoStraddlingMarker(prefix, m, rest, j);
    }
  }

  /** When `prefix + "/"` holds no marker, extraction looks at the marker right after `prefix`. */
  lemma {:induction false} ExtractAtFirstMarker(prefix: string, m: string, rest: string)
    requires m == ImageMarker || m == VideoMarker
    requires NoMarker(prefix + "/")
    requires MatchAfterMarker(rest).Some?
    ensures ExtractPublicIdFromUrl(prefix + m + rest) == MatchAfterMarker(rest)
  {
    var s := prefix + m + rest;
    var p := |prefix|;
    assert s[p..p + 14] == m;
    assert s[p + 14..] == rest;
    assert MatchesAt(s, p);
    var r := Search(s, 0);
    var j :| 0 <= j && MatchesAt(s, j) && r == MatchAfterMarker(s[j + 14..])
      && forall j' :: 0 <= j' < j ==> !MatchesAt(s, j');
    if j < p {
      NoEarlierMarker(prefix, m, rest, j);
    }
    assert j == p;
  }

  lemma VersionOf(digits: string, tail: string)
    requires digits != [] && AllDigits(digits) && tail != []
    ensures VersionLength("v" + digits + "/" + tail) == |digits| + 2
    ensures ("v" + digits + "/" + tail)[|digits| + 2..] == tail
  {
    var t := "v" + digits + "/" + tail;
    assert t[1..] == digits + ("/" + tail);
    DecimalRun(digits, "/" + tail);
    assert t[|digits| + 1] == '/';
  }

  /**
   * Round trip with a version segment: the id comes back from
   * `prefix + "/image/upload/v<digits>/" + id + "." + ext` (or `/video/`).
   */
  lemma {:induction false} RoundTripVersioned(prefix: string, m: string, digits: string, id: string, ext: string)
    requires m == ImageMarker || m == VideoMarker
    requires NoMarker(prefix + "/")
    requires digits != [] && AllDigits(digits)
    requires id != [] && DotFree(id) && LineFree(id)
    requires ext != [] && DotFree(ext)
    ensures ExtractPublicIdFromUrl(prefix + m + "v" + digits + "/" + id + "." + ext) == Some(id)
  {
    var rest := "v" + digits + "/" + (id + "." + ext);
    VersionedAfterMarker(digits, id, ext);
    ExtractAtFirstMarker(prefix, m, rest);
    VersionedUrlShape(prefix, m, digits, id, ext);
  }

  lemma VersionedUrlShape(prefix: string, m: string, digits: string, id: string, ext: string)
    ensures prefix + m + "v" + digits + "/" + id + "." + ext
         == prefix + m + ("v" + digits + "/" + (id + "." + ext))
  {
  }

  lemma VersionedAfterMarker(digits: string, id: string, ext: string)
    requires digits != [] && AllDigits(digits)
    requires id != [] && DotFree(id) && LineFree(id)
    requires ext != [] && DotFree(ext)
    ensures MatchAfterMarker("v" + digits + "/" + (id + "." + ext)) == Some(id)
  {
    var t := id + "." + ext;
    VersionOf(digits, t);
    CaptureExtension(id, ext);
  }

  /** `t` does not itself begin with a `v<digits>/` segment. */
  predicate NoVersionPrefix(t: string) {
    VersionLength(t) == 0
  }

  lemma {:induction false} DigitRunConcat(a: string, b: string)
    requires RadixRun(a, 10) < |a|
    ensures RadixRun(a + b, 10) == RadixRun(a, 10)
  {
    if a != [] && IsRadixDigit(a[0], 10) {
      assert (a + b)[1..] == a[1..] + b;
      DigitRunConcat(a[1..], b);
    }
  }

  lemma VersionUnchangedByExtension(id: string, ext: string)
    requires NoVersionPrefix(id)
    ensures NoVersionPrefix(id + "." + ext)
  {
    var t := id + "." + ext;
    if |id| >= 1 && id[0] == 'v' {
      var d := RadixRun(id[1..], 10);
      assert t[1..] == id[1..] + ("." + ext);
      if d < |id| - 1 {
        DigitRunConcat(id[1..], "." + ext);
      } else {
        DecimalRun(id[1..], "." + ext);
      }
    }
  }

  /** Round trip without a version segment, for an id that does not look like one. */
  lemma {:induction false} RoundTripUnversioned(prefix: string, m: string, id: string, ext: string)
    requires m == ImageMarker || m == VideoMarker
    requires NoMarker(prefix + "/")
    requires id != [] && DotFree(id) && LineFree(id) && NoVersionPrefix(id)
    requires ext != [] && DotFree(ext)
    ensures ExtractPublicIdFromUrl(prefix + m + id + "." + ext) == Some(id)
  {
    var rest := id + "." + ext;
    VersionUnchangedByExtension(id, ext);
    CaptureExtension(id, ext);
    ExtractAtFirstMarker(prefix, m, rest);
    UnversionedUrlShape(prefix, m, id, ext);
  }

  lemma UnversionedUrlShape(prefix: string, m: string, id: string, ext: string)
    ensures prefix + m + id + "." + ext == prefix + m + (id + "." + ext)
  {
  }

  /** A dot-free remainder after the marker comes back whole, folder segments and all. */
  lemma {:induction false} ExtractDotless(prefix: string, m: string, path: string)
    requires m == ImageMarker || m == VideoMarker
    requires NoMarker(prefix + "/")
    requires path != [] && DotFree(path) && LineFree(path) && NoVersionPrefix(path)
    ensures ExtractPublicIdFromUrl(prefix + m + path) == Some(path)
  {
    CaptureDotless(path);
    ExtractAtFirstMarker(prefix, m, path);
  }

  /**
   * The straddling case: when the text before a marker ends in `/image/upload`,
   * that text and the marker together begin with a marker, so the capture
   * starts earlier and keeps the second `image/upload/`.
   */
  lemma {:induction false} StraddlingPrefix(id: string, ext: string)
    requires id != [] && DotFree(id) && LineFree(id)
    requires ext != [] && DotFree(ext)
    ensures ExtractPublicIdFromUrl("/image/upload" + ImageMarker + id + "." + ext)
         == Some("image/upload/" + id)
  {
    var name := "image/upload/" + id;
    var rest := name + "." + ext;
    FolderThenName("image/upload/", id);
    CaptureExtension(name, ext);
    assert rest[0] == 'i';
    ExtractAtFirstMarker("", ImageMarker, rest);
    StraddlingUrlShape(id, ext);
  }

  lemma FolderThenName(folder: string, id: string)
    requires DotFree(folder) && LineFree(folder) && DotFree(id) && LineFree(id)
    ensures DotFree(folder + id) && LineFree(folder + id)
  {
  }

  lemma StraddlingUrlShape(id: string, ext: string)
    ensures "/image/upload" + ImageMarker + id + "." + ext
         == "" + ImageMarker + ("image/upload/" + id + "." + ext)
  {
    assert "/image/upload" + ImageMarker == ImageMarker + "image/upload/";
  }

  // ---------------------------------------------------------------------------
  // Deleting through the upload route
  // ---------------------------------------------------------------------------

  /** An explicit resource type wins; otherwise the id is classified. */
  function ResolveResourceType(publicId: string, hint: Option<ResourceType>): (r: ResourceType)
    ensures hint.Some? ==> r == hint.value
    ensures hint.None? ==> (r == Video <==> DetermineResourceType(publicId) == Video)
  {
    match hint
    case Some(t) => t
    case None => DetermineResourceType(publicId)
  }

  /** `NEXTAUTH_URL || 'http://localhost:3000'`. */
  function ApiBase(nextAuthUrl: Option<string>): (r: string)
    ensures r != ""
    ensures nextAuthUrl.Some? && nextAuthUrl.value != "" ==> r == nextAuthUrl.value
  {
    match nextAuthUrl
    case Some(u) => if u != "" then u else "http://localhost:3000"
    case None => "http://localhost:3000"
  }

  /**
   * The `DELETE <base>/api/upload?publicId=…&resourceType=…` request, with the
   * query parameters as the route decodes them.
   */
  datatype DeleteRequest = DeleteRequest(base: string, publicId: string, resourceType: string)

  /**
   * What comes back from `fetch`: it rejected, or it answered with a status and
   * a body whose JSON `success` field is `Some` (absent fields read as
   * `undefined`), or `None` when the body is not JSON.
   */
  datatype FetchReply =
    | FetchRejected
    | Answered(status: int, success: Option<JsValue>)

  function RequestFor(publicId: string, hint: Option<ResourceType>, nextAuthUrl: Option<string>): (q: DeleteRequest)
    ensures q.publicId == publicId && q.base == ApiBase(nextAuthUrl)
    ensures q.resourceType == ResolveResourceType(publicId, hint).Name()
  {
    DeleteRequest(ApiBase(nextAuthUrl), publicId, ResolveResourceType(publicId, hint).Name())
  }

  /**
   * `deleteFromCloudinary`: the body's `success` field when the route answered
   * with a 2xx JSON body, `false` on every failure path.
   */
  function DeleteFromCloudinary(
    publicId: string, hint: Option<ResourceType>, nextAuthUrl: Option<string>,
    send: DeleteRequest -> FetchReply): (r: JsValue)
    ensures Truthy(r) <==>
      var reply := send(RequestFor(publicId, hint, nextAuthUrl));
      reply.Answered? && StatusOk(reply.status) && reply.success.Some? && Truthy(reply.success.value)
  {
    match send(RequestFor(publicId, hint, nextAuthUrl))
    case FetchRejected => Bool(false)
    case Answered(status, success) =>
      if !StatusOk(status) then Bool(false)
      else if success.None? then Bool(false)
      else success.value
  }

  /** `{ total, successes, failures, results }`, each settled result reduced to its value. */
  datatype BulkSummary = BulkSummary(total: nat, successes: nat, failures: nat, results: seq<JsValue>)

  /** How many of the values are truthy. */
  function CountTruthy(vs: seq<JsValue>): (n: nat)
    ensures n <= |vs|
    ensures n == |vs| <==> forall i :: 0 <= i < |vs| ==> Truthy(vs[i])
    ensures n == 0 <==> forall i :: 0 <= i < |vs| ==> !Truthy(vs[i])
  {
    if vs == [] then 0
    else
      var rest := CountTruthy(vs[..|vs| - 1]);
      assert forall i :: 0 <= i < |vs| - 1 ==> vs[..|vs| - 1][i] == vs[i];
      rest + (if Truthy(vs[|vs| - 1]) then 1 else 0)
  }

  /**
   * `bulkDeleteFromCloudinary`: every id is deleted with the same hint, and the
   * summary counts the truthy outcomes. Each deletion catches its own errors,
   * so every settled result is fulfilled with the helper's value.
   */
  function BulkDeleteFromCloudinary(
    publicIds: seq<string>, hint: Option<ResourceType>, nextAuthUrl: Option<string>,
    send: DeleteRequest -> FetchReply): (summary: BulkSummary)
    ensures summary.total == |publicIds| == |summary.results|
    ensures forall i :: 0 <= i < |publicIds| ==>
      summary.results[i] == DeleteFromCloudinary(publicIds[i], hint, nextAuthUrl, send)
    ensures summary.successes == CountTruthy(summary.results)
    ensures summary.successes + summary.failures == summary.total
  {
    var results := Map((id: string) => DeleteFromCloudinary(id, hint, nextAuthUrl, send), publicIds);
    var successes := CountTruthy(results);
    BulkSummary(|results|, successes, |results| - successes, results)
  }

  /** `results.filter(r => r.value).length` as a loop over the settled results. */
  method CountSuccesses(results: seq<JsValue>) returns (successes: nat)
    ensures successes == CountTruthy(results)
  {
    successes := 0;
    for i := 0 to |results|
      invariant successes == CountTruthy(results[..i])
    {
      assert results[..i + 1][..i] == results[..i];
      if Truthy(results[i]) {
        successes := successes + 1;
      }
    }
    assert results[..|results|] == results;
  }
}
