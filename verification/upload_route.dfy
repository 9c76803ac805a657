/**
 * `/api/upload`: `POST` validates the media host's configuration and the
 * uploaded file, then streams the file to the host with size and duration
 * limits; `DELETE` removes a stored asset by public id. The host's SDK calls
 * are parameters, and every handler reports the calls it made.
 */
module UploadRoute {
  import opened Base
  import opened Text
  import opened Js
  import opened Http
  import opened MediaIds

  // ---------------------------------------------------------------------------
  // Configuration
  // ---------------------------------------------------------------------------

  /** The environment variables the route reads; `None` when unset. */
  datatype Env = Env(
    cloudName: Option<string>,
    publicCloudName: Option<string>,
    apiKey: Option<string>,
    apiSecret: Option<string>)

  /** A setting counts only when it is present and non-empty (the `!value` test). */
  predicate IsSet(o: Option<string>) {
    o.Some? && o.value != ""
  }

  /** `CLOUDINARY_CLOUD_NAME || NEXT_PUBLIC_CLOUDINARY_CLOUD_NAME`. */
  function CloudName(env: Env): (r: Option<string>)
    ensures IsSet(r) <==> IsSet(env.cloudName) || IsSet(env.publicCloudName)
    ensures IsSet(env.cloudName) ==> r == env.cloudName
  {
    if IsSet(env.cloudName) then env.cloudName else env.publicCloudName
  }

  const RequiredNames: seq<string> := ["CLOUDINARY_CLOUD_NAME", "CLOUDINARY_API_KEY", "CLOUDINARY_API_SECRET"]

  /** The names of the unset settings, in the fixed order of `RequiredNames`. */
  function ValidateCloudinaryEnv(env: Env): (missing: seq<string>)
    ensures IsSubsequence(missing, RequiredNames)
    ensures "CLOUDINARY_CLOUD_NAME" in missing <==> !IsSet(CloudName(env))
    ensures "CLOUDINARY_API_KEY" in missing <==> !IsSet(env.apiKey)
    ensures "CLOUDINARY_API_SECRET" in missing <==> !IsSet(env.apiSecret)
    ensures missing == [] <==> IsSet(CloudName(env)) && IsSet(env.apiKey) && IsSet(env.apiSecret)
  {
    var a := if IsSet(CloudName(env)) then [] else [RequiredNames[0]];
    var b := if IsSet(env.apiKey) then [] else [RequiredNames[1]];
    var c := if IsSet(env.apiSecret) then [] else [RequiredNames[2]];
    SubsequenceOfPicks(RequiredNames, a, b, c);
    a + b + c
  }

  /** Keeping or dropping each of three elements leaves a subsequence. */
  lemma SubsequenceOfPicks<T>(s: seq<T>, a: seq<T>, b: seq<T>, c: seq<T>)
    requires |s| == 3
    requires a == [] || a == [s[0]]
    requires b == [] || b == [s[1]]
    requires c == [] || c == [s[2]]
    ensures IsSubsequence(a + b + c, s)
  {
    var t := s[1..];
    assert t[1..] == [s[2]];
    assert IsSubsequence(c, t[1..]) by {
      if c != [] {
        assert c[1..] == [] && t[1..][1..] == [];
      }
    }
    assert IsSubsequence(b + c, t) by {
      if b != [] {
        assert (b + c)[0] == t[0] && (b + c)[1..] == c;
      } else {
        assert b + c == c;
      }
    }
    if a != [] {
      assert (a + b + c)[0] == s[0] && (a + b + c)[1..] == b + c;
    } else {
      assert a + b + c == b + c;
    }
  }

  // ---------------------------------------------------------------------------
  // Replies and calls
  // ---------------------------------------------------------------------------

  /** What the host reports for a stored upload; the route copies it into its reply. */
  datatype UploadedMedia = UploadedMedia(
    secureUrl: string, publicId: string, resourceType: string, format: string,
    width: int, height: int, bytes: int)

  datatype UploadBody =
    | Failure(error: string)
    | Uploaded(media: UploadedMedia)
    | Deleted(publicId: string)
    | DeleteRefused(error: string, result: JsValue)

  /** The host-side transformation: fit inside the box, automatic quality, and for videos a duration cap. */
  datatype Transformation = Transformation(
    width: nat, height: nat, crop: string, quality: string, duration: Option<string>)

  datatype UploadOptions = UploadOptions(
    resourceType: ResourceType, folder: string, transformation: Transformation)

  datatype UploadCall =
    | HostUpload(options: UploadOptions, file: File)
    | HostDestroy(publicId: string, resourceType: string)

  /** How the host's upload stream ends: an error, no result, or the stored asset. */
  datatype HostUploadReply =
    | HostError(thrown: Thrown)
    | HostNoResult
    | HostResult(media: UploadedMedia)

  /** `uploader.destroy`: it throws, or answers with a `result` field (`"ok"`, `"not found"`, ...). */
  datatype DestroyReply =
    | DestroyThrew(thrown: Thrown)
    | DestroyAnswered(result: JsValue)

  const MaxVideoSize: nat := 50 * 1024 * 1024
  const Folder: string := "dolly-hotel"
  const UploadFailed: string := "Upload failed. Please check your Cloudinary configuration."
  const NoFile: string := "No file provided"
  const WrongKind: string := "Only image and video files are allowed"
  const VideoTooLarge: string := "Video file too large. Please ensure video is under 60 seconds."
  const PublicIdRequired: string := "Public ID is required"
  const DeleteFailed: string := "Delete failed. Please check your Cloudinary configuration."
  const DeleteRejected: string := "Failed to delete file from Cloudinary"

  /** Videos go up as `video` within 1280x720 and 60 seconds; images as `image` within 1200x800. */
  function OptionsFor(isVideo: bool): (o: UploadOptions)
    ensures o.folder == Folder
    ensures o.resourceType == Video <==> isVideo
    ensures o.transformation.duration.Some? <==> isVideo
    ensures o.transformation.crop == "limit" && o.transformation.quality == "auto"
    ensures o.transformation.width == (if isVideo then 1280 else 1200)
    ensures o.transformation.height == (if isVideo then 720 else 800)
    ensures isVideo ==> o.transformation.duration == Some("60")
  {
    if isVideo then
      UploadOptions(Video, Folder, Transformation(1280, 720, "limit", "auto", Some("60")))
    else
      UploadOptions(Image, Folder, Transformation(1200, 800, "limit", "auto", None))
  }

  // ---------------------------------------------------------------------------
  // POST
  // ---------------------------------------------------------------------------

  function Fail(status: int, message: string): Handled<UploadBody, UploadCall> {
    Handled(Reply(status, Failure(message)), [])
  }

  /** A file the route accepts: an image, or a video of at most `MaxVideoSize` bytes. */
  predicate Acceptable(f: File) {
    var isImage := StartsWith(f.mime, "image/");
    var isVideo := StartsWith(f.mime, "video/");
    (isImage || isVideo) && !(isVideo && f.size > MaxVideoSize)
  }

  /**
   * `POST`: configuration first, then the `file` field (a non-empty text value
   * has no `type`, so reading it throws), the MIME family, the video size, and
   * finally the upload, whose failure and whose missing result both end in 500.
   */
  function Post(env: Env, body: FormBody, host: (UploadOptions, File) -> HostUploadReply): (h: Handled<UploadBody, UploadCall>)
    ensures h.reply.status == 200 || h.reply.status == 400 || h.reply.status == 500
    ensures h.reply.status == 200 <==> h.reply.body.Uploaded?
    ensures h.calls == [] || (|h.calls| == 1 && h.calls[0].HostUpload? && Acceptable(h.calls[0].file))
    ensures h.reply.status == 200 ==>
      |h.calls| == 1 && host(h.calls[0].options, h.calls[0].file) == HostResult(h.reply.body.media)
  {
    var missing := ValidateCloudinaryEnv(env);
    if missing != [] then
      Fail(500, "Cloudinary configuration missing: " + Join(missing, ", "))
    else
      match body
      case FormRejected(_) => Fail(500, UploadFailed)
      case Form(fields) =>
        match Field(fields, "file")
        case Absent => Fail(400, NoFile)
        case TextValue(t) => if t == "" then Fail(400, NoFile) else Fail(500, UploadFailed)
        case FileValue(f) =>
          var isImage := StartsWith(f.mime, "image/");
          var isVideo := StartsWith(f.mime, "video/");
          if !isImage && !isVideo then Fail(400, WrongKind)
          else if isVideo && f.size > MaxVideoSize then Fail(400, VideoTooLarge)
          else
            var options := OptionsFor(isVideo);
            var calls := [HostUpload(options, f)];
            match host(options, f)
            case HostResult(media) => Handled(Reply(200, Uploaded(media)), calls)
            case _ => Handled(Reply(500, Failure(UploadFailed)), calls)
  }

  /** A form whose `file` field holds `f`. */
  function FormWithFile(f: File): FormBody {
    Form(map["file" := FileValue(f)])
  }

  /** With any setting missing the reply is the same 500 whatever the request, and nothing is uploaded. */
  lemma ConfigurationCheckedFirst(env: Env, b1: FormBody, b2: FormBody,
                                  h1: (UploadOptions, File) -> HostUploadReply, h2: (UploadOptions, File) -> HostUploadReply)
    requires !IsSet(CloudName(env)) || !IsSet(env.apiKey) || !IsSet(env.apiSecret)
    ensures Post(env, b1, h1) == Post(env, b2, h2)
    ensures Post(env, b1, h1).reply.status == 500 && Post(env, b1, h1).calls == []
  {
  }

  /** A missing secret is named in the message (it is the last name listed). */
  lemma MissingNamesInMessage(env: Env, body: FormBody, host: (UploadOptions, File) -> HostUploadReply)
    requires !IsSet(env.apiSecret)
    ensures Post(env, body, host).reply.body.Failure?
    ensures Contains(Post(env, body, host).reply.body.error, "CLOUDINARY_API_SECRET")
  {
    var missing := ValidateCloudinaryEnv(env);
    assert missing[|missing| - 1] == "CLOUDINARY_API_SECRET";
    ContainsLastPart("Cloudinary configuration missing: ", missing, ", ");
  }

  lemma ContainsLastPart(prefix: string, parts: seq<string>, sep: string)
    requires parts != []
    ensures Contains(prefix + Join(parts, sep), parts[|parts| - 1])
  {
    JoinEndsWithLast(parts, sep);
    var j := Join(parts, sep);
    var l := parts[|parts| - 1];
    assert prefix + j == (prefix + j[..|j| - |l|]) + l;
    ContainsSuffix(prefix + j[..|j| - |l|], l);
  }

  lemma {:induction false} JoinEndsWithLast(parts: seq<string>, sep: string)
    requires parts != []
    ensures |parts[|parts| - 1]| <= |Join(parts, sep)|
    ensures EndsWith(Join(parts, sep), parts[|parts| - 1])
  {
    if |parts| > 1 {
      JoinEndsWithLast(parts[1..], sep);
      var j := Join(parts[1..], sep);
      var l := parts[|parts| - 1];
      assert (parts[0] + sep + j)[|parts[0] + sep + j| - |l|..] == j[|j| - |l|..];
    }
  }

  /**
   * Exactly the acceptable files reach the host, and the reply is 200 exactly
   * when the host returns a result for them.
   */
  lemma PostSucceedsIff(env: Env, body: FormBody, host: (UploadOptions, File) -> HostUploadReply)
    ensures Post(env, body, host).reply.status == 200 <==>
      && ValidateCloudinaryEnv(env) == []
      && body.Form? && Field(body.fields, "file").FileValue?
      && Acceptable(Field(body.fields, "file").file)
      && host(OptionsFor(StartsWith(Field(body.fields, "file").file.mime, "video/")),
              Field(body.fields, "file").file).HostResult?
  {
  }

  /** Every 400 is decided before any upload. */
  lemma BadRequestsUploadNothing(env: Env, body: FormBody, host: (UploadOptions, File) -> HostUploadReply)
    requires Post(env, body, host).reply.status == 400
    ensures Post(env, body, host).calls == []
    ensures Post(env, body, host).reply.body.Failure?
    ensures Post(env, body, host).reply.body.error in {NoFile, WrongKind, VideoTooLarge}
  {
  }

  /**
   * The three refusals, stated forwards: with the configuration complete, a
   * missing or empty `file` field, a file that is neither an image nor a video,
   * and a video over the size limit each get their 400, and nothing is uploaded.
   */
  lemma BadRequestRules(env: Env, fields: map<string, FormField>, host: (UploadOptions, File) -> HostUploadReply)
    requires ValidateCloudinaryEnv(env) == []
    ensures Field(fields, "file") == Absent || Field(fields, "file") == TextValue("") ==>
      Post(env, Form(fields), host) == Fail(400, NoFile)
    ensures (Field(fields, "file").FileValue?
             && !StartsWith(Field(fields, "file").file.mime, "image/")
             && !StartsWith(Field(fields, "file").file.mime, "video/")) ==>
      Post(env, Form(fields), host) == Fail(400, WrongKind)
    ensures (Field(fields, "file").FileValue?
             && StartsWith(Field(fields, "file").file.mime, "video/")
             && Field(fields, "file").file.size > MaxVideoSize) ==>
      Post(env, Form(fields), host) == Fail(400, VideoTooLarge)
  {
  }

  /**
   * An acceptable file is handed to the host exactly once, with the video
   * options when its MIME type is `video/…` and the image options otherwise.
   */
  lemma AcceptedFileUpload(env: Env, f: File, host: (UploadOptions, File) -> HostUploadReply)
    requires ValidateCloudinaryEnv(env) == [] && Acceptable(f)
    ensures Post(env, FormWithFile(f), host).calls == [HostUpload(OptionsFor(StartsWith(f.mime, "video/")), f)]
    ensures Post(env, FormWithFile(f), host).calls[0].options.resourceType == Video <==> StartsWith(f.mime, "video/")
  {
    assert Field(FormWithFile(f).fields, "file") == FileValue(f);
  }

  /** A video of exactly the limit is uploaded with the video options; one byte more is refused. */
  lemma VideoSizeBoundary(env: Env, mime: string, host: (UploadOptions, File) -> HostUploadReply)
    requires ValidateCloudinaryEnv(env) == [] && StartsWith(mime, "video/")
    ensures Post(env, FormWithFile(File(mime, MaxVideoSize)), host).calls
         == [HostUpload(OptionsFor(true), File(mime, MaxVideoSize))]
    ensures Post(env, FormWithFile(File(mime, MaxVideoSize + 1)), host)
         == Fail(400, VideoTooLarge)
  {
    assert Field(FormWithFile(File(mime, MaxVideoSize)).fields, "file") == FileValue(File(mime, MaxVideoSize));
    assert Field(FormWithFile(File(mime, MaxVideoSize + 1)).fields, "file") == FileValue(File(mime, MaxVideoSize + 1));
  }

  /** Images are not size-checked. */
  lemma LargeImagesAccepted(env: Env, mime: string, size: nat, host: (UploadOptions, File) -> HostUploadReply)
    requires ValidateCloudinaryEnv(env) == [] && StartsWith(mime, "image/")
    ensures Post(env, FormWithFile(File(mime, size)), host).calls
         == [HostUpload(OptionsFor(false), File(mime, size))]
  {
    assert Field(FormWithFile(File(mime, size)).fields, "file") == FileValue(File(mime, size));
    assert !StartsWith(mime, "video/") by {
      assert mime[0] == 'i';
    }
  }

  // ---------------------------------------------------------------------------
  // DELETE
  // ---------------------------------------------------------------------------

  /** `searchParams.get('resourceType') || 'image'`. */
  function ResourceTypeParam(param: Option<string>): (r: string)
    ensures r != ""
    ensures IsSet(param) ==> r == param.value
    ensures !IsSet(param) ==> r == "image"
  {
    if IsSet(param) then param.value else "image"
  }

  /**
   * `DELETE ?publicId=…&resourceType=…`: a missing or empty id is refused
   * before the host is asked; the host's `"ok"` is a 200, any other answer a
   * 400 carrying it, and a throw a 500.
   */
  function Delete(publicIdParam: Option<string>, resourceTypeParam: Option<string>,
                  destroy: (string, string) -> DestroyReply): (h: Handled<UploadBody, UploadCall>)
    ensures h.reply.status == 200 || h.reply.status == 400 || h.reply.status == 500
    ensures h.reply.status == 200 <==> h.reply.body.Deleted?
  {
    var resourceType := ResourceTypeParam(resourceTypeParam);
    if !IsSet(publicIdParam) then
      Fail(400, PublicIdRequired)
    else
      var id := publicIdParam.value;
      var calls := [HostDestroy(id, resourceType)];
      match destroy(id, resourceType)
      case DestroyThrew(_) => Handled(Reply(500, Failure(DeleteFailed)), calls)
      case DestroyAnswered(r) =>
        if r == Str("ok") then Handled(Reply(200, Deleted(id)), calls)
        else Handled(Reply(400, DeleteRefused(DeleteRejected, r)), calls)
  }

  /** The reply is 200 exactly when an id was given and the host answered `"ok"` for it. */
  lemma DeleteSucceedsIff(publicIdParam: Option<string>, resourceTypeParam: Option<string>,
                          destroy: (string, string) -> DestroyReply)
    ensures Delete(publicIdParam, resourceTypeParam, destroy).reply.status == 200 <==>
      IsSet(publicIdParam)
      && destroy(publicIdParam.value, ResourceTypeParam(resourceTypeParam)) == DestroyAnswered(Str("ok"))
    ensures Delete(publicIdParam, resourceTypeParam, destroy).reply.status == 200 ==>
      Delete(publicIdParam, resourceTypeParam, destroy).reply.body == Deleted(publicIdParam.value)
  {
  }

  /** Without an id the host is never called; with one, it is called exactly once with that id. */
  lemma DeleteCalls(publicIdParam: Option<string>, resourceTypeParam: Option<string>,
                    destroy: (string, string) -> DestroyReply)
    ensures !IsSet(publicIdParam) ==>
      Delete(publicIdParam, resourceTypeParam, destroy) == Fail(400, PublicIdRequired)
    ensures IsSet(publicIdParam) ==>
      Delete(publicIdParam, resourceTypeParam, destroy).calls
        == [HostDestroy(publicIdParam.value, ResourceTypeParam(resourceTypeParam))]
  {
  }

  /** An absent or empty `resourceType` means `image`. */
  lemma ResourceTypeDefaultsToImage(publicIdParam: Option<string>, destroy: (string, string) -> DestroyReply)
    ensures Delete(publicIdParam, None, destroy) == Delete(publicIdParam, Some("image"), destroy)
    ensures Delete(publicIdParam, Some(""), destroy) == Delete(publicIdParam, Some("image"), destroy)
  {
  }

  // ---------------------------------------------------------------------------
  // The delete helper talking to this route
  // ---------------------------------------------------------------------------

  /** The reply as `fetch` hands it to the helper: the status and the body's `success` field. */
  function AsFetchReply(reply: Reply<UploadBody>): (f: FetchReply)
    ensures f.Answered? && f.status == reply.status && f.success.Some?
    ensures Truthy(f.success.value) <==> reply.body.Uploaded? || reply.body.Deleted?
  {
    var success := if reply.body.Uploaded? || reply.body.Deleted? then Bool(true) else Undefined;
    Answered(reply.status, Some(success))
  }

  /** The transport that hands the helper's request straight to `Delete`. */
  function RouteTransport(destroy: (string, string) -> DestroyReply): DeleteRequest -> FetchReply {
    (q: DeleteRequest) => AsFetchReply(Delete(Some(q.publicId), Some(q.resourceType), destroy).reply)
  }

  /**
   * Against this route, `deleteFromCloudinary` reports success exactly when the
   * id is non-empty and the host answers `"ok"` for the resolved resource type.
   */
  lemma HelperAgainstRoute(publicId: string, hint: Option<ResourceType>, nextAuthUrl: Option<string>,
                           destroy: (string, string) -> DestroyReply)
    ensures Truthy(DeleteFromCloudinary(publicId, hint, nextAuthUrl, RouteTransport(destroy))) <==>
      publicId != ""
      && destroy(publicId, ResolveResourceType(publicId, hint).Name()) == DestroyAnswered(Str("ok"))
  {
    var q := RequestFor(publicId, hint, nextAuthUrl);
    var h := Delete(Some(q.publicId), Some(q.resourceType), destroy);
    DeleteSucceedsIff(Some(q.publicId), Some(q.resourceType), destroy);
    assert RouteTransport(destroy)(q) == AsFetchReply(h.reply);
    assert ResourceTypeParam(Some(q.resourceType)) == q.resourceType;
  }
}
