/**
 * What the route handlers exchange with the framework: multipart form data,
 * thrown values, JSON replies, and the record of outbound calls a handler
 * made on its way to the reply.
 */
module Http {
  import opened Js

  /** A value caught by a `catch` clause: an `Error` carries a message, anything else does not. */
  datatype Thrown =
    | ErrorThrown(message: string)
    | OtherThrown

  /** An uploaded file: its MIME type (`""` when the browser did not say) and size in bytes. */
  datatype File = File(mime: string, size: nat)

  /** What `formData.get(name)` returns: `null`, a text value, or a file. */
  datatype FormField =
    | Absent
    | TextValue(text: string)
    | FileValue(file: File)

  /** `await request.formData()`: it rejects on a malformed body, else maps each name to its first value. */
  datatype FormBody =
    | FormRejected(thrown: Thrown)
    | Form(fields: map<string, FormField>)

  function Field(fields: map<string, FormField>, name: string): (f: FormField)
    ensures name !in fields ==> f == Absent
  {
    if name in fields then fields[name] else Absent
  }

  /** A form field as a script sees it after `as string`: `null`, the text, or the file object. */
  function FieldValue(f: FormField): (v: JsValue)
    ensures Truthy(v) <==> (f.TextValue? && f.text != "") || f.FileValue?
  {
    match f
    case Absent => Null
    case TextValue(t) => Str(t)
    case FileValue(_) => Obj("[object File]")
  }

  /** `NextResponse.json(body, { status })`. */
  datatype Reply<B> = Reply(status: int, body: B)

  /** A handler's reply together with the outbound calls it made, in order. */
  datatype Handled<B, C> = Handled(reply: Reply<B>, calls: seq<C>)

  /** `Response.ok`. */
  predicate StatusOk(status: int) {
    200 <= status <= 299
  }
}
