/**
 * The coach-configuration endpoint: `POST` with a JSON body naming the job
 * title, an optional job description and the resume text. A body that is
 * not JSON or breaks the request schema is answered with status 400; a
 * valid one is always served a configuration, the model-built one when the
 * builder succeeds and the fallback otherwise.
 */
module CoachRoute {
  import opened Wrappers
  import opened CoachConfig

  const MaxTitleChars: nat := 120
  const MaxRequestJobDescriptionChars: nat := 50000
  const MinResumeChars: nat := 10
  const MaxRequestResumeChars: nat := 200000

  const InvalidJsonError: string := "Invalid JSON request body"
  const InvalidPayloadError: string := "Invalid request payload"

  /** One member of the parsed JSON object: missing, a string, or any other JSON value. */
  datatype Field = Absent | Str(s: string) | NotAString

  /** What `request.json()` gives: a parse failure, a non-object value, or an object's three relevant members. */
  datatype Body = Unparseable | NotAnObject | Object(jobTitle: Field, jobDescription: Field, resumeText: Field)

  /** A request that passed the schema. */
  datatype Payload = Payload(jobTitle: string, jobDescription: Option<string>, resumeText: string)

  /** The limits the request schema puts on a payload. */
  predicate InBounds(p: Payload) {
    && 1 <= |p.jobTitle| <= MaxTitleChars
    && (p.jobDescription.Some? ==> |p.jobDescription.value| <= MaxRequestJobDescriptionChars)
    && MinResumeChars <= |p.resumeText| <= MaxRequestResumeChars
  }

  /** `coachConfigRequestSchema.safeParse`: the payload, or `None` when the body breaks the schema. */
  function ParsePayload(body: Body): (r: Option<Payload>)
    ensures r.Some? ==> InBounds(r.value)
    ensures r.Some? ==> body.Object? && body.jobTitle.Str? && body.resumeText.Str?
    ensures body.Unparseable? || body.NotAnObject? ==> r.None?
  {
    match body
    case Object(Str(title), jd, Str(resume)) =>
      var description := match jd
        case Absent => Some(None)
        case Str(d) => Some(Some(d))
        case NotAString => None;
      if description.None? then None
      else
        var p := Payload(title, description.value, resume);
        if InBounds(p) then Some(p) else None
    case _ => None
  }

  /** The JSON object a client sends for a payload. */
  function ToBody(p: Payload): (b: Body)
    ensures b.Object?
  {
    Object(Str(p.jobTitle),
           if p.jobDescription.None? then Absent else Str(p.jobDescription.value),
           Str(p.resumeText))
  }

  /** Every payload within the limits is accepted back exactly. */
  lemma ParseToBody(p: Payload)
    requires InBounds(p)
    ensures ParsePayload(ToBody(p)) == Some(p)
  {
  }

  /** An accepted body is exactly the one its payload describes, and nothing outside the limits is accepted. */
  lemma ParsedBodyIsToBody(body: Body)
    requires ParsePayload(body).Some?
    ensures ToBody(ParsePayload(body).value) == body
  {
  }

  /** Which builder produced the served configuration. */
  datatype Source = Langchain | FallbackConfig

  datatype Response =
    | Rejected(status: nat, error: string)
    | Served(source: Source, data: Config)

  /**
   * The answer to a valid request, given the builder's outcome and the
   * fallback computed before the builder ran: the builder's configuration
   * when it succeeded, the fallback on any failure.
   */
  function Serve(built: Result<Config, BuildError>, fallback: Config): (r: Response)
    ensures r.Served?
    ensures r.source == Langchain <==> built.Success?
    ensures r.data == if built.Success? then built.value else fallback
  {
    match built
    case Success(c) => Served(Langchain, c)
    case Failure(_) => Served(FallbackConfig, fallback)
  }

  /**
   * `POST`: 400 with "Invalid JSON request body" for a body that is not
   * JSON, 400 with "Invalid request payload" when the schema rejects it;
   * otherwise the builder's configuration, or on any failure of the
   * builder the fallback built from the raw fields.
   */
  function Post(body: Body, apiKey: Option<string>,
                model: (string, string, string) -> ModelReply): (r: Response)
    ensures body.Unparseable? ==> r == Rejected(400, InvalidJsonError)
    ensures !body.Unparseable? && ParsePayload(body).None? ==> r == Rejected(400, InvalidPayloadError)
    ensures r.Served? <==> ParsePayload(body).Some?
    ensures r.Served? ==>
      var p := ParsePayload(body).value;
      r == Serve(BuildCoachConfig(p.jobTitle, p.jobDescription, p.resumeText, apiKey, model),
                 Fallback(p.jobTitle, p.resumeText, p.jobDescription))
  {
    if body.Unparseable? then Rejected(400, InvalidJsonError)
    else
      match ParsePayload(body)
      case None => Rejected(400, InvalidPayloadError)
      case Some(p) =>
        var fallback := Fallback(p.jobTitle, p.resumeText, p.jobDescription);
        Serve(BuildCoachConfig(p.jobTitle, p.jobDescription, p.resumeText, apiKey, model), fallback)
  }

  /** Every configuration the endpoint serves satisfies the configuration schema, whichever builder made it. */
  lemma ServedMeetsSchema(body: Body, apiKey: Option<string>,
                          model: (string, string, string) -> ModelReply)
    ensures Post(body, apiKey, model).Served? ==> SchemaValid(Post(body, apiKey, model).data)
  {
    match ParsePayload(body)
    case None =>
    case Some(p) =>
      FallbackMeetsSchema(p.jobTitle, p.resumeText, p.jobDescription);
  }

  /** Without a key every valid request is served the fallback, whatever the model would answer. */
  lemma NoKeyServesFallback(p: Payload, model: (string, string, string) -> ModelReply)
    requires InBounds(p)
    ensures Post(ToBody(p), None, model) ==
            Served(FallbackConfig, Fallback(p.jobTitle, p.resumeText, p.jobDescription))
  {
    ParseToBody(p);
  }

  /** A failing model never turns a valid request into an error response. */
  lemma FailingModelServesFallback(p: Payload, apiKey: Option<string>)
    requires InBounds(p)
    ensures Post(ToBody(p), apiKey, (t, j, r) => CallFailed) ==
            Served(FallbackConfig, Fallback(p.jobTitle, p.resumeText, p.jobDescription))
  {
    ParseToBody(p);
  }
}
