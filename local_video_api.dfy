/**
 * The local-processing API route (pages/api/process-local-video.ts): the
 * method check, the form and file steps as opaque outcomes, and the reading
 * of the Lambda's response envelope. `JSON.parse` of a text is a parameter
 * `parse` (None when it throws `SyntaxError`).
 */
module LocalVideoApi {
  import opened Base
  import opened JsonValue
  import AutoCropper

  const S3Bucket := "local-test-bucket"
  const LambdaFallback := "Unknown error occurred in Lambda function"
  const InvalidVideos := "Invalid or missing cropped videos data from Lambda function"
  const FormErrorText := "Error parsing form data"
  const ProcessingErrorText := "Error processing video"

  /** What the `try` block threw; its `message` becomes the response's `details`. */
  datatype Thrown =
    | ErrorWith(message: Json)  // `new Error(x)`: the message is `x`, converted to a string
    | SyntaxError               // `JSON.parse` rejected its input
    | TypeError                 // a property read on `undefined` or `null`
    | IoError(reason: string)   // a file-system call or the `sam local invoke` command rejected

  /** One uploaded file as the form parser describes it. */
  datatype FileInfo = FileInfo(filepath: string, originalFilename: string)

  /**
   * The outcomes of the steps the model does not perform: creating the
   * temporary directory, and then copying the upload, writing the event
   * file, running the Lambda and removing the event file, which give the
   * command's standard output or the reason of the first step that rejects.
   */
  datatype IoOutcomes = IoOutcomes(mkdirFailure: Option<string>, stdout: Result<string, string>)

  /** A request: its HTTP method, the form parser's outcome (the `video` files, if any) and the I/O outcomes. */
  datatype Request = Request(verb: string, form: Result<Option<seq<FileInfo>>, string>, io: IoOutcomes)

  datatype Response =
    | NotAllowed(allow: seq<string>, text: string)                    // 405
    | FormError(error: string)                                        // 500
    | Processed(originalVideoUrl: string, croppedVideos: seq<Json>)   // 200
    | Failed(error: string, details: Thrown)                          // 500

  function Status(r: Response): (code: nat)
    ensures code == 200 <==> r.Processed?
  {
    match r
    case NotAllowed(_, _) => 405
    case FormError(_) => 500
    case Processed(_, _) => 200
    case Failed(_, _) => 500
  }

  function S3Key(originalFilename: string): string {
    "uploads/" + originalFilename
  }

  function OriginalVideoUrl(originalFilename: string): string {
    "s3://" + S3Bucket + "/" + S3Key(originalFilename)
  }

  /** `result.prop` on the parsed output: a `TypeError` on `null`. */
  function Read(v: Json, key: string): Result<Option<Json>, Thrown> {
    if v.JNull? then Err(TypeError) else Ok(Field(v, key))
  }

  /** The `statusCode` check: only the number 200 passes. */
  predicate Status200(status: Option<Json>) {
    status == Some(JNumber(200.0))
  }

  /** The error thrown for a non-200 status: `body?.error` when truthy, else the fallback text. */
  function LambdaFailure(result: Json): Thrown
    requires !result.JNull?
  {
    var error := OptionalField(Field(result, "body"), "error");
    if Truthy(error) then ErrorWith(error.value) else ErrorWith(JString(LambdaFallback))
  }

  /**
   * `JSON.parse(result.body)`: the argument is first converted to a string.
   * A string is parsed as it is; `null`, booleans and numbers come back as
   * themselves; `undefined` and objects render as text that is not JSON.
   */
  function ParseBody(body: Option<Json>, parse: string -> Option<Json>): Result<Json, Thrown> {
    match body
    case None => Err(SyntaxError)
    case Some(b) =>
      match b
      case JString(s) => if parse(s).Some? then Ok(parse(s).value) else Err(SyntaxError)
      case JNull => Ok(JNull)
      case JBool(_) => Ok(b)
      case JNumber(_) => Ok(b)
      case JArray(_) => Err(SyntaxError)
      case JObject(_) => Err(SyntaxError)
  }

  /** The cropped-videos check: accepted exactly when the field is an array. */
  function CroppedVideos(body: Json): Result<seq<Json>, Thrown> {
    match Read(body, "cropped_videos")
    case Err(t) => Err(t)
    case Ok(videos) =>
      if !Truthy(videos) || !(videos.Some? && videos.value.JArray?) then Err(ErrorWith(JString(InvalidVideos)))
      else Ok(videos.value.items)
  }

  /** Reading the Lambda's standard output: parse, status check, body parse, cropped-videos check. */
  function Interpret(stdout: string, parse: string -> Option<Json>): Result<seq<Json>, Thrown> {
    match parse(stdout)
    case None => Err(SyntaxError)
    case Some(result) =>
      match Read(result, "statusCode")
      case Err(t) => Err(t)
      case Ok(status) =>
        if !Status200(status) then Err(LambdaFailure(result))
        else
          match ParseBody(Field(result, "body"), parse)
          case Err(t) => Err(t)
          case Ok(body) => CroppedVideos(body)
  }

  /** The work inside the `try` block, in its order: the file list, the directory, the file, the I/O, the output. */
  function Process(video: Option<seq<FileInfo>>, io: IoOutcomes, parse: string -> Option<Json>)
    : Result<(string, seq<Json>), Thrown>
  {
    if video.None? then Err(TypeError)
    else if io.mkdirFailure.Some? then Err(IoError(io.mkdirFailure.value))
    else if |video.value| == 0 then Err(TypeError)
    else
      match io.stdout
      case Err(reason) => Err(IoError(reason))
      case Ok(stdout) =>
        match Interpret(stdout, parse)
        case Err(t) => Err(t)
        case Ok(videos) => Ok((OriginalVideoUrl(video.value[0].originalFilename), videos))
  }

  /** The route handler. */
  function Handle(req: Request, parse: string -> Option<Json>): Response {
    if req.verb != "POST" then NotAllowed(["POST"], "Method " + req.verb + " Not Allowed")
    else
      match req.form
      case Err(_) => FormError(FormErrorText)
      case Ok(video) =>
        match Process(video, req.io, parse)
        case Err(t) => Failed(ProcessingErrorText, t)
        case Ok(done) => Processed(done.0, done.1)
  }

  // ---------------------------------------------------------------------------
  // Properties
  // ---------------------------------------------------------------------------

  /** A request with any other method gets 405 with `Allow: POST`, whatever its form and I/O would have been. */
  lemma NonPostRejected(req: Request, other: Request, parse: string -> Option<Json>)
    requires req.verb != "POST" && other.verb == req.verb
    ensures Handle(req, parse) == Handle(other, parse)
    ensures Handle(req, parse).NotAllowed? && Handle(req, parse).allow == ["POST"] && Status(Handle(req, parse)) == 405
  {
  }

  /** A form-parse error gives 500 "Error parsing form data" before any file step. */
  lemma FormErrorFirst(req: Request, parse: string -> Option<Json>)
    requires req.verb == "POST" && req.form.Err?
    ensures Handle(req, parse) == FormError("Error parsing form data") && Status(Handle(req, parse)) == 500
  {
  }

  /** Only an output that parses to a value whose `statusCode` is the number 200 can succeed. */
  lemma OnlyNumber200Succeeds(stdout: string, parse: string -> Option<Json>)
    ensures Interpret(stdout, parse).Ok? ==>
              parse(stdout).Some? && parse(stdout).value.JObject? &&
              parse(stdout).value.fields.Keys >= {"statusCode"} &&
              parse(stdout).value.fields["statusCode"] == JNumber(200.0)
  {
  }

  /** A `statusCode` that is the string "200" fails like any other non-200 status. */
  lemma StringStatusFails(stdout: string, parse: string -> Option<Json>, result: map<string, Json>)
    requires parse(stdout) == Some(JObject(result)) && "statusCode" in result && result["statusCode"] == JString("200")
    ensures Interpret(stdout, parse).Err? && Interpret(stdout, parse).error.ErrorWith?
  {
  }

  /** On a non-200 status, a truthy `body.error` of an object body becomes the error message. */
  lemma LambdaErrorKept(stdout: string, parse: string -> Option<Json>, result: map<string, Json>)
    requires parse(stdout) == Some(JObject(result)) && !Status200(Field(JObject(result), "statusCode"))
    requires "body" in result && result["body"].JObject? && "error" in result["body"].fields
    requires Truthy(Some(result["body"].fields["error"]))
    ensures Interpret(stdout, parse) == Err(ErrorWith(result["body"].fields["error"]))
  {
  }

  /** On a non-200 status without an object body holding a truthy `error`, the message is the fallback text. */
  lemma LambdaErrorLost(stdout: string, parse: string -> Option<Json>, result: map<string, Json>)
    requires parse(stdout) == Some(JObject(result)) && !Status200(Field(JObject(result), "statusCode"))
    requires !("body" in result && result["body"].JObject? && "error" in result["body"].fields &&
               Truthy(Some(result["body"].fields["error"])))
    ensures Interpret(stdout, parse) == Err(ErrorWith(JString("Unknown error occurred in Lambda function")))
  {
  }

  /**
   * A 200 output whose body text parses is accepted exactly when the parsed
   * body has a `cropped_videos` field that is an array, even an empty one,
   * and then yields its elements unchanged; a body without the field, or one
   * that is not an object, is rejected.
   */
  lemma AcceptedIffArray(stdout: string, parse: string -> Option<Json>, bodyText: string, parsed: Json)
    requires parse(stdout).Some? && parse(stdout).value.JObject?
    requires var result := parse(stdout).value.fields;
             "statusCode" in result && result["statusCode"] == JNumber(200.0) &&
             "body" in result && result["body"] == JString(bodyText)
    requires parse(bodyText) == Some(parsed)
    ensures Interpret(stdout, parse).Ok? <==>
              Field(parsed, "cropped_videos").Some? && Field(parsed, "cropped_videos").value.JArray?
    ensures Interpret(stdout, parse).Ok? ==> Interpret(stdout, parse) == Ok(parsed.fields["cropped_videos"].items)
  {
  }

  /**
   * The response is 200 exactly when the request is a POST whose form parsed
   * with a file, every I/O step succeeded and the output was accepted; it then
   * carries the original's S3 URL and the Lambda's cropped videos unchanged.
   */
  lemma ProcessedExactly(req: Request, parse: string -> Option<Json>)
    ensures Handle(req, parse).Processed? <==>
              req.verb == "POST" && req.form.Ok? && req.form.value.Some? && |req.form.value.value| > 0 &&
              req.io.mkdirFailure.None? && req.io.stdout.Ok? && Interpret(req.io.stdout.value, parse).Ok?
    ensures Handle(req, parse).Processed? ==>
              Handle(req, parse).originalVideoUrl == "s3://local-test-bucket/uploads/" + req.form.value.value[0].originalFilename &&
              Handle(req, parse).croppedVideos == Interpret(req.io.stdout.value, parse).value
  {
    if Handle(req, parse).Processed? {
      OriginalVideoUrlShape(req.form.value.value[0].originalFilename);
    }
  }

  /** The URL is the fixed bucket-and-folder prefix followed by the uploaded file's name. */
  lemma OriginalVideoUrlShape(name: string)
    ensures OriginalVideoUrl(name) == "s3://local-test-bucket/uploads/" + name
  {
    var prefix := "s3://" + S3Bucket + "/";
    assert prefix + "uploads/" == "s3://local-test-bucket/uploads/";
    assert prefix + ("uploads/" + name) == (prefix + "uploads/") + name;
  }

  /** Every other POST with a parsed form gets 500 "Error processing video" with the thrown error as details. */
  lemma FailureReported(req: Request, parse: string -> Option<Json>)
    requires req.verb == "POST" && req.form.Ok?
    requires Process(req.form.value, req.io, parse).Err?
    ensures Handle(req, parse) == Failed("Error processing video", Process(req.form.value, req.io, parse).error)
    ensures Status(Handle(req, parse)) == 500
  {
  }

  /**
   * The Lambda's return value as `sam local invoke` prints it: the status code
   * and the body, which the handler already rendered to text with `json.dumps`.
   */
  function AsPrinted(env: AutoCropper.Envelope, bodyText: string): Json {
    JObject(map["statusCode" := JNumber(AutoCropper.StatusCode(env) as real), "body" := JString(bodyText)])
  }

  /**
   * The cropper reports its failures with a text body, so whatever the
   * exception was, the route's error message is the fallback text.
   */
  lemma CropperErrorLost(stdout: string, parse: string -> Option<Json>, e: AutoCropper.PyError, bodyText: string)
    requires parse(stdout) == Some(AsPrinted(AutoCropper.Failure(e), bodyText))
    ensures Interpret(stdout, parse) == Err(ErrorWith(JString("Unknown error occurred in Lambda function")))
  {
    var result := AsPrinted(AutoCropper.Failure(e), bodyText);
    assert Field(result, "statusCode") == Some(JNumber(500.0));
    assert Field(result, "body") == Some(JString(bodyText));
  }

  /** A cropper success whose body text parses back to its videos is accepted with those videos. */
  lemma CropperSuccessAccepted(stdout: string, parse: string -> Option<Json>, videos: seq<Json>, bodyText: string)
    requires parse(stdout) == Some(AsPrinted(AutoCropper.Success(videos), bodyText))
    requires parse(bodyText) == Some(JObject(map["cropped_videos" := JArray(videos)]))
    ensures Interpret(stdout, parse) == Ok(videos)
  {
    var result := AsPrinted(AutoCropper.Success(videos), bodyText);
    assert Field(result, "statusCode") == Some(JNumber(200.0));
    assert Field(result, "body") == Some(JString(bodyText));
  }
}
