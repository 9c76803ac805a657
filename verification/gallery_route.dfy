/**
 * `/api/admin/gallery`: an administrator lists the gallery (`GET`) or adds an
 * image (`POST`), either as JSON naming a file already uploaded or as a form
 * carrying the file, which is then uploaded through `/api/upload`. The admin
 * check, the validation schema, the database and the upload are parameters.
 */
module GalleryRoute {
  import opened Base
  import opened Text
  import opened Js
  import opened Http
  import opened Numerals

  // ---------------------------------------------------------------------------
  // Collaborators and records
  // ---------------------------------------------------------------------------

  /** `await requireAdmin()`: it returns, or throws (with an `Unauthorized` message when nobody is signed in). */
  datatype AdminCheck =
    | Admitted
    | Refused(thrown: Thrown)

  /** The object handed to `galleryImageSchema.parse`. */
  datatype SchemaInput = SchemaInput(category: JsValue, caption: JsValue, categoryId: JsValue)

  /** What the schema returns, or what it throws. */
  datatype SchemaOutcome =
    | Valid(category: JsValue, caption: JsValue, categoryId: JsValue)
    | Invalid(thrown: Thrown)

  /** The `data` of `prisma.galleryImage.create`. */
  datatype GalleryRecord = GalleryRecord(
    category: JsValue, url: JsValue, publicId: JsValue, caption: JsValue, categoryId: JsValue)

  /** A stored row as the database returns it, with its category summary joined in. */
  datatype StoredImage = StoredImage(id: int, record: GalleryRecord, hotelCategory: Option<string>)

  /** A database call: its result, or what it threw. */
  datatype Db<T> =
    | DbOk(value: T)
    | DbThrew(thrown: Thrown)

  /** `await request.json()`, destructured: the five fields (absent ones are `undefined`). */
  datatype JsonBody =
    | JsonRejected(thrown: Thrown)
    | JsonNull
    | JsonObject(category: JsValue, caption: JsValue, url: JsValue, publicId: JsValue, categoryId: JsValue)

  /** The JSON body of `/api/upload`'s reply, as far as this route reads it. */
  datatype UploadJson =
    | NotJson(thrown: Thrown)
    | UploadFields(error: JsValue, secureUrl: JsValue, publicId: JsValue)

  /** `fetch('/api/upload', { method: 'POST', body })`: it rejects, or answers. */
  datatype UploadAnswer =
    | UploadUnreachable(thrown: Thrown)
    | UploadAnswered(status: int, body: UploadJson)

  datatype GalleryBody =
    | Failure(error: string)
    | One(image: StoredImage)
    | Many(images: seq<StoredImage>)

  datatype GalleryCall =
    | FindImages
    | UploadFile(file: File)
    | CreateImage(record: GalleryRecord)

  type Outcome = Handled<GalleryBody, GalleryCall>

  /** The collaborators of `POST`. */
  datatype PostDeps = PostDeps(
    schema: SchemaInput -> SchemaOutcome,
    upload: File -> UploadAnswer,
    create: GalleryRecord -> Db<StoredImage>)

  // ---------------------------------------------------------------------------
  // The catch clause
  // ---------------------------------------------------------------------------

  predicate IsUnauthorized(t: Thrown) {
    t.ErrorThrown? && Contains(t.message, "Unauthorized")
  }

  /** Both handlers' `catch`: an `Error` whose message mentions `Unauthorized` is a 401, anything else a 500. */
  function Caught(t: Thrown, fallback: string, calls: seq<GalleryCall>): (h: Outcome)
    ensures h.calls == calls
    ensures h.reply.status == (if IsUnauthorized(t) then 401 else 500)
    ensures h.reply.body == Failure(if IsUnauthorized(t) then "Unauthorized" else fallback)
  {
    if IsUnauthorized(t) then Handled(Reply(401, Failure("Unauthorized")), calls)
    else Handled(Reply(500, Failure(fallback)), calls)
  }

  const FetchFailed: string := "Failed to fetch gallery images"
  const UploadFailed: string := "Failed to upload image"

  // ---------------------------------------------------------------------------
  // GET
  // ---------------------------------------------------------------------------

  /** `GET`: the admin check, then every row, newest first as the database orders them. */
  function Get(admin: AdminCheck, findMany: Db<seq<StoredImage>>): (h: Outcome)
    ensures admin.Refused? ==> h.calls == []
    ensures h.reply.status == 200 <==> admin.Admitted? && findMany.DbOk?
    ensures h.reply.status == 200 ==> h.reply.body == Many(findMany.value)
  {
    match admin
    case Refused(t) => Caught(t, FetchFailed, [])
    case Admitted =>
      match findMany
      case DbOk(rows) => Handled(Reply(200, Many(rows)), [FindImages])
      case DbThrew(t) => Caught(t, FetchFailed, [FindImages])
  }

  // ---------------------------------------------------------------------------
  // POST
  // ---------------------------------------------------------------------------

  /** `caption || undefined`. */
  function NormalizeCaption(caption: JsValue): (r: JsValue)
    ensures Truthy(caption) ==> r == caption
    ensures !Truthy(caption) ==> r == Undefined
  {
    if Truthy(caption) then caption else Undefined
  }

  /** `categoryId ? parseInt(categoryId) : undefined`. */
  function NormalizeCategoryId(categoryId: JsValue): (r: JsValue)
    ensures !Truthy(categoryId) ==> r == Undefined
    ensures Truthy(categoryId) ==> r.Num? || r.NaN?
  {
    if Truthy(categoryId) then ParseIntValue(categoryId) else Undefined
  }

  function SchemaInputOf(category: JsValue, caption: JsValue, categoryId: JsValue): SchemaInput {
    SchemaInput(category, NormalizeCaption(caption), NormalizeCategoryId(categoryId))
  }

  /** Saves the validated record and replies with the stored row. */
  function Save(record: GalleryRecord, deps: PostDeps, earlier: seq<GalleryCall>): (h: Outcome)
    ensures h.calls == earlier + [CreateImage(record)]
    ensures h.reply.status == 200 <==> deps.create(record).DbOk?
    ensures deps.create(record).DbOk? ==> h.reply.body == One(deps.create(record).value)
  {
    var calls := earlier + [CreateImage(record)];
    match deps.create(record)
    case DbOk(row) => Handled(Reply(200, One(row)), calls)
    case DbThrew(t) => Caught(t, UploadFailed, calls)
  }

  /** The JSON branch: the file is already on the host, so only the record is saved. */
  function PostJson(json: JsonBody, deps: PostDeps): (h: Outcome)
    ensures h.calls == [] || (|h.calls| == 1 && h.calls[0].CreateImage?)
  {
    match json
    case JsonRejected(t) => Caught(t, UploadFailed, [])
    case JsonNull => Caught(ErrorThrown("Cannot destructure 'null' as it is null."), UploadFailed, [])
    case JsonObject(category, caption, url, publicId, categoryId) =>
      if !Truthy(url) || !Truthy(publicId) then
        Handled(Reply(400, Failure("URL and public ID are required")), [])
      else
        match deps.schema(SchemaInputOf(category, caption, categoryId))
        case Invalid(t) => Caught(t, UploadFailed, [])
        case Valid(vCategory, vCaption, vCategoryId) =>
          Save(GalleryRecord(vCategory, url, publicId, vCaption, vCategoryId), deps, [])
  }

  /** `throw new Error(errorData.error || 'Upload failed')`, or what reading the body threw. */
  function UploadError(body: UploadJson): (t: Thrown)
    ensures body.UploadFields? && Truthy(body.error) ==> t == ErrorThrown(ToStr(body.error))
    ensures body.UploadFields? && !Truthy(body.error) ==> t == ErrorThrown("Upload failed")
  {
    match body
    case NotJson(t) => t
    case UploadFields(error, _, _) => ErrorThrown(ToStr(Or(error, Str("Upload failed"))))
  }

  /** The form branch: checks the file, validates, uploads through `/api/upload`, then saves. */
  function PostForm(form: FormBody, deps: PostDeps): (h: Outcome)
    ensures h.calls == []
         || (|h.calls| == 1 && h.calls[0].UploadFile?)
         || (|h.calls| == 2 && h.calls[0].UploadFile? && h.calls[1].CreateImage?)
    ensures h.calls != [] ==> StartsWith(h.calls[0].file.mime, "image/")
  {
    match form
    case FormRejected(t) => Caught(t, UploadFailed, [])
    case Form(fields) =>
      var category := FieldValue(Field(fields, "category"));
      var caption := FieldValue(Field(fields, "caption"));
      var categoryId := FieldValue(Field(fields, "categoryId"));
      match Field(fields, "file")
      case Absent => Handled(Reply(400, Failure("No file provided")), [])
      case TextValue(text) =>
        if text == "" then Handled(Reply(400, Failure("No file provided")), [])
        else Caught(ErrorThrown("Cannot read properties of undefined (reading 'startsWith')"), UploadFailed, [])
      case FileValue(f) =>
        if !StartsWith(f.mime, "image/") then
          Handled(Reply(400, Failure("Only image files are allowed")), [])
        else
          match deps.schema(SchemaInputOf(category, caption, categoryId))
          case Invalid(t) => Caught(t, UploadFailed, [])
          case Valid(vCategory, vCaption, vCategoryId) =>
            var calls := [UploadFile(f)];
            match deps.upload(f)
            case UploadUnreachable(t) => Caught(t, UploadFailed, calls)
            case UploadAnswered(status, body) =>
              if !StatusOk(status) then Caught(UploadError(body), UploadFailed, calls)
              else
                match body
                case NotJson(t) => Caught(t, UploadFailed, calls)
                case UploadFields(_, secureUrl, publicId) =>
                  Save(GalleryRecord(vCategory, secureUrl, publicId, vCaption, vCategoryId), deps, calls)
  }

  /** `POST`: the admin check, then the branch the `content-type` header selects. */
  function Post(admin: AdminCheck, contentType: Option<string>, json: JsonBody, form: FormBody,
                deps: PostDeps): (h: Outcome)
    ensures admin.Refused? ==> h.calls == []
  {
    match admin
    case Refused(t) => Caught(t, UploadFailed, [])
    case Admitted =>
      if contentType.Some? && Contains(contentType.value, "application/json") then PostJson(json, deps)
      else PostForm(form, deps)
  }

  // ---------------------------------------------------------------------------
  // Properties
  // ---------------------------------------------------------------------------

  /**
   * The admin gate: a refusal decides the reply on its own, whatever the
   * request, and nothing is read, uploaded or written.
   */
  lemma AdminGate(t: Thrown, c1: Option<string>, j1: JsonBody, f1: FormBody, d1: PostDeps,
                  c2: Option<string>, j2: JsonBody, f2: FormBody, d2: PostDeps)
    ensures Post(Refused(t), c1, j1, f1, d1) == Post(Refused(t), c2, j2, f2, d2)
    ensures Post(Refused(t), c1, j1, f1, d1).calls == []
    ensures Post(Refused(t), c1, j1, f1, d1).reply.status == (if IsUnauthorized(t) then 401 else 500)
    ensures Get(Refused(t), DbOk([])) == Handled(Post(Refused(t), c1, j1, f1, d1).reply.(body := Failure(
      if IsUnauthorized(t) then "Unauthorized" else FetchFailed)), [])
  {
  }

  /** The header alone picks the branch: the JSON branch never reads the form, and the form branch never reads the JSON. */
  lemma BranchIndependence(contentType: Option<string>, j1: JsonBody, j2: JsonBody,
                           f1: FormBody, f2: FormBody, deps: PostDeps)
    ensures contentType.Some? && Contains(contentType.value, "application/json") ==>
      Post(Admitted, contentType, j1, f1, deps) == Post(Admitted, contentType, j1, f2, deps)
    ensures !(contentType.Some? && Contains(contentType.value, "application/json")) ==>
      Post(Admitted, contentType, j1, f1, deps) == Post(Admitted, contentType, j2, f1, deps)
  {
  }

  /** Every 400 comes from the request's own shape, before validation, upload or storage. */
  lemma BadRequestsTouchNothing(admin: AdminCheck, contentType: Option<string>, json: JsonBody,
                                form: FormBody, deps: PostDeps)
    requires Post(admin, contentType, json, form, deps).reply.status == 400
    ensures Post(admin, contentType, json, form, deps).calls == []
    ensures Post(admin, contentType, json, form, deps).reply.body.error in
      {"URL and public ID are required", "No file provided", "Only image files are allowed"}
  {
  }

  /**
   * A schema rejection stores and uploads nothing, and is reported as 401 or
   * 500, never as a 400: the only 400s are the request-shape checks made before
   * validation.
   */
  lemma SchemaRejectionStoresNothing(contentType: Option<string>, json: JsonBody, form: FormBody,
                                     deps: PostDeps, t: Thrown)
    requires forall input :: deps.schema(input) == Invalid(t)
    ensures Post(Admitted, contentType, json, form, deps).calls == []
    ensures Post(Admitted, contentType, json, form, deps).reply.status in {400, 401, 500}
    ensures Post(Admitted, contentType, json, form, deps).reply.status == 400 ==>
      Post(Admitted, contentType, json, form, deps).reply.body.error in
        {"URL and public ID are required", "No file provided", "Only image files are allowed"}
  {
    if contentType.Some? && Contains(contentType.value, "application/json") {
      SchemaRejectionJson(json, deps, t);
    } else {
      SchemaRejectionForm(form, deps, t);
    }
  }

  lemma SchemaRejectionJson(json: JsonBody, deps: PostDeps, t: Thrown)
    requires forall input :: deps.schema(input) == Invalid(t)
    ensures PostJson(json, deps).calls == []
    ensures PostJson(json, deps).reply.status in {400, 401, 500}
    ensures PostJson(json, deps).reply.status == 400 ==>
      PostJson(json, deps).reply.body == Failure("URL and public ID are required")
  {
  }

  lemma SchemaRejectionForm(form: FormBody, deps: PostDeps, t: Thrown)
    requires forall input :: deps.schema(input) == Invalid(t)
    ensures PostForm(form, deps).calls == []
    ensures PostForm(form, deps).reply.status in {400, 401, 500}
    ensures PostForm(form, deps).reply.status == 400 ==>
      PostForm(form, deps).reply.body.error in {"No file provided", "Only image files are allowed"}
  {
  }

  /**
   * The JSON branch's required fields, stated forwards: a falsy `url` or
   * `publicId` is a 400 before the schema is consulted, and nothing is stored.
   */
  lemma JsonRequiresUrlAndId(contentType: Option<string>, category: JsValue, caption: JsValue,
                             url: JsValue, publicId: JsValue, categoryId: JsValue,
                             form: FormBody, deps: PostDeps)
    requires contentType.Some? && Contains(contentType.value, "application/json")
    requires !Truthy(url) || !Truthy(publicId)
    ensures Post(Admitted, contentType, JsonObject(category, caption, url, publicId, categoryId), form, deps)
         == Handled(Reply(400, Failure("URL and public ID are required")), [])
  {
  }

  /**
   * The form branch's file checks, stated forwards: a missing or empty `file`
   * field, and a file whose type is not `image/…`, are each a 400 before the
   * schema, the upload or the database are reached.
   */
  lemma FormFileRules(contentType: Option<string>, json: JsonBody, fields: map<string, FormField>, deps: PostDeps)
    requires !(contentType.Some? && Contains(contentType.value, "application/json"))
    ensures Field(fields, "file") == Absent || Field(fields, "file") == TextValue("") ==>
      Post(Admitted, contentType, json, Form(fields), deps) == Handled(Reply(400, Failure("No file provided")), [])
    ensures (Field(fields, "file").FileValue? && !StartsWith(Field(fields, "file").file.mime, "image/")) ==>
      Post(Admitted, contentType, json, Form(fields), deps) == Handled(Reply(400, Failure("Only image files are allowed")), [])
  {
  }

  /** The form branch refuses videos, which `/api/upload` itself would accept. */
  lemma FormRejectsVideo(fields: map<string, FormField>, deps: PostDeps)
    requires Field(fields, "file").FileValue? && StartsWith(Field(fields, "file").file.mime, "video/")
    ensures PostForm(Form(fields), deps) == Handled(Reply(400, Failure("Only image files are allowed")), [])
  {
    var m := Field(fields, "file").file.mime;
    assert !StartsWith(m, "image/") by {
      assert m[0] == 'v';
    }
  }

  /**
   * The JSON branch stores exactly the given URL and public id, with the
   * caption and category id as the schema returned them; an empty caption is
   * passed to the schema as `undefined`, and a category id as the number
   * `parseInt` reads from it.
   */
  lemma JsonRecordContents(category: JsValue, caption: JsValue, url: JsValue, publicId: JsValue,
                           categoryId: JsValue, deps: PostDeps)
    requires Truthy(url) && Truthy(publicId)
    requires deps.schema(SchemaInputOf(category, caption, categoryId)).Valid?
    ensures var v := deps.schema(SchemaInputOf(category, caption, categoryId));
      PostJson(JsonObject(category, caption, url, publicId, categoryId), deps).calls
        == [CreateImage(GalleryRecord(v.category, url, publicId, v.caption, v.categoryId))]
  {
  }

  /**
   * A 200 from `POST` always carries the row the database returned for the
   * record it has just created, and that create is the last call made.
   */
  lemma SuccessCarriesCreatedRow(admin: AdminCheck, contentType: Option<string>, json: JsonBody,
                                 form: FormBody, deps: PostDeps)
    requires Post(admin, contentType, json, form, deps).reply.status == 200
    ensures var h := Post(admin, contentType, json, form, deps);
      && h.calls != []
      && h.calls[|h.calls| - 1].CreateImage?
      && deps.create(h.calls[|h.calls| - 1].record).DbOk?
      && h.reply.body == One(deps.create(h.calls[|h.calls| - 1].record).value)
  {
  }

  /** Normalisation: an empty caption becomes `undefined`, and a numeric category id is kept as that number. */
  lemma NormalizationExamples(n: int)
    requires n != 0 && IsSafeInteger(n)
    ensures NormalizeCaption(Str("")) == Undefined
    ensures NormalizeCategoryId(Num(n)) == Num(n)
    ensures NormalizeCategoryId(Str(IntToString(n))) == Num(n)
    ensures NormalizeCategoryId(Num(0)) == Undefined
  {
    ParseIntOfNumber(n);
  }

  /**
   * In the form branch, a saved record holds the upload's `secure_url` and
   * `public_id`, and it is saved only after a 2xx upload reply.
   */
  lemma FormSavesUploadedIds(fields: map<string, FormField>, deps: PostDeps)
    requires |PostForm(Form(fields), deps).calls| == 2
    ensures var f := Field(fields, "file").file;
      && Field(fields, "file").FileValue?
      && deps.upload(f).UploadAnswered?
      && StatusOk(deps.upload(f).status)
      && deps.upload(f).body.UploadFields?
      && PostForm(Form(fields), deps).calls[1].record.url == deps.upload(f).body.secureUrl
      && PostForm(Form(fields), deps).calls[1].record.publicId == deps.upload(f).body.publicId
  {
  }

  /** A failed upload whose error text mentions `Unauthorized` is reported as 401, not 500. */
  lemma UploadErrorCanLookUnauthorized(fields: map<string, FormField>, deps: PostDeps, status: int)
    requires Field(fields, "file").FileValue? && StartsWith(Field(fields, "file").file.mime, "image/")
    requires forall input :: deps.schema(input).Valid?
    requires !StatusOk(status)
    requires deps.upload(Field(fields, "file").file) == UploadAnswered(status, UploadFields(Str("Unauthorized"), Undefined, Undefined))
    ensures PostForm(Form(fields), deps).reply.status == 401
  {
    assert Contains("Unauthorized", "Unauthorized") by {
      assert OccursAt("Unauthorized", "Unauthorized", 0);
    }
  }
}
