/**
 * pkg/apiout: the service's error values, the translation of an error into
 * an HTTP status and JSON error body (Error), and the classification of
 * request-body decoding failures (DecodeJSONBody).
 */
module ApiOut {
  import opened Wrappers
  import opened Text

  /**
   * The errors that reach apiout.Error. Plain stands for every error value
   * that is neither of the package's own types (errors.New, fmt.Errorf,
   * a JSON decoding or storage error), identified by its message.
   */
  datatype Error =
    | Plain(msg: string)
      /** *APIError: an error with the HTTP status to answer with. */
    | ApiError(err: Error, status: int)
      /** *BadRequestErr */
    | BadRequest(msg: string)

  /** err.Error(): an APIError reports the message of the error it carries. */
  function Message(e: Error): string
  {
    match e
    case Plain(m) => m
    case ApiError(inner, _) => Message(inner)
    case BadRequest(m) => m
  }

  /** NewRequestError(errors.New(msg), status) */
  function RequestError(msg: string, status: int): (e: Error)
    ensures Message(e) == msg
  {
    ApiError(Plain(msg), status)
  }

  /**
   * IsBadRequest: errors.As for *BadRequestErr. errors.As follows Unwrap,
   * but neither of the package's types has an Unwrap method and no error
   * reaching apiout.Error wraps another, so only the outermost error is
   * looked at.
   */
  predicate IsBadRequest(e: Error)
  {
    e.BadRequest?
  }

  /** errors.As for *APIError: the status of the APIError found, if any. */
  function AsApiError(e: Error): Option<int>
  {
    if e.ApiError? then Some(e.status) else None
  }

  /** The JSON body apiout.Error writes: ErrorResponse with its `error` field. */
  datatype ErrorBody = ErrorBody(error: string)

  datatype Reply = Reply(status: int, body: ErrorBody)

  const StatusBadRequest := 400
  const StatusNotFound := 404
  const StatusUnsupportedMediaType := 415
  const StatusRequestEntityTooLarge := 413
  const StatusInternalServerError := 500

  /**
   * apiout.Error: a BadRequestErr answers 400 and leaves the body's error
   * field empty; otherwise an APIError answers its own status with the
   * error's message; anything else answers 500 "Internal Server Error".
   */
  function ErrorReply(e: Error): (r: Reply)
    ensures e.BadRequest? ==> r == Reply(400, ErrorBody(""))
    ensures e.ApiError? ==> r == Reply(e.status, ErrorBody(Message(e.err)))
    ensures e.Plain? ==> r == Reply(500, ErrorBody("Internal Server Error"))
  {
    if IsBadRequest(e) then Reply(StatusBadRequest, ErrorBody(""))
    else if AsApiError(e).Some? then Reply(AsApiError(e).value, ErrorBody(Message(e)))
    else Reply(StatusInternalServerError, ErrorBody("Internal Server Error"))
  }

  // --------------------------------------------------------- DecodeJSONBody

  /**
   * What one call of json.Decoder.Decode reports. The decoder itself is not
   * modelled: each failure kind carries what the classification reads from
   * it, and Other carries the message of any other error (among them the
   * unknown-field error and http.MaxBytesReader's size error, which the
   * code recognises by their text).
   */
  datatype DecodeFailure =
    | SyntaxError(offset: int)
    | UnexpectedEof
    | UnmarshalTypeError(field: string, offset: int)
    | Eof
    | Other(msg: string)

  datatype Decoded<T> = Value(value: T) | Failed(failure: DecodeFailure)

  const UnknownFieldPrefix := "json: unknown field "
  const BodyTooLarge := "http: request body too large"

  predicate HasPrefix(s: string, prefix: string)
  {
    |prefix| <= |s| && s[..|prefix|] == prefix
  }

  /**
   * The error the code returns for a failed first Decode: every failure of
   * the decoder's own kinds is the client's, an APIError with status 400,
   * and an error it does not recognise is returned unchanged.
   */
  function ClassifyFailure(f: DecodeFailure): (e: Error)
    ensures !f.Other? ==> e.ApiError? && e.status == 400
    ensures !e.BadRequest?
    ensures e.Plain? ==> f.Other? && e == Plain(f.msg)
  {
    match f
    case SyntaxError(offset) =>
      RequestError("request body contains badly-formed JSON (at position " + IntToString(offset) + ")", StatusBadRequest)
    case UnexpectedEof =>
      RequestError("request body contains badly-formed JSON", StatusBadRequest)
    case UnmarshalTypeError(field, offset) =>
      RequestError("request body contains an invalid value for the \"" + field + "\" field (at position "
                    + IntToString(offset) + ")", StatusBadRequest)
    case Eof =>
      RequestError("request body must not be empty", StatusBadRequest)
    case Other(msg) =>
      if HasPrefix(msg, UnknownFieldPrefix) then
        RequestError("request body contains unknown field " + msg[|UnknownFieldPrefix|..], StatusBadRequest)
      else if msg == BodyTooLarge then
        RequestError("request body must not be larger than 1MB", StatusRequestEntityTooLarge)
      else Plain(msg)
  }

  /**
   * DecodeJSONBody: the Content-Type header must be exactly
   * "application/json"; the first Decode must yield a value (a failure is
   * classified); the second Decode must report io.EOF, or the body held
   * more than one JSON value.
   */
  function DecodeJSONBody<T>(contentType: string, first: Decoded<T>, second: Decoded<()>): (r: Result<T, Error>)
    ensures r.Err? ==> !IsBadRequest(r.error)
    ensures r.Err? && r.error.Plain? ==> first.Failed? && first.failure.Other?
  {
    if contentType != "application/json" then
      Err(RequestError("Content-Type header is not application/json", StatusUnsupportedMediaType))
    else if first.Failed? then Err(ClassifyFailure(first.failure))
    else if second != Failed(Eof) then
      Err(RequestError("request body must only contain a single JSON object", StatusBadRequest))
    else Ok(first.value)
  }

  /** A wrong Content-Type is answered 415 whatever the body holds. */
  lemma WrongContentType<T>(contentType: string, first: Decoded<T>, second: Decoded<()>)
    requires contentType != "application/json"
    ensures var r := DecodeJSONBody(contentType, first, second);
            r.Err? && ErrorReply(r.error) == Reply(415, ErrorBody("Content-Type header is not application/json"))
  {
  }

  /** Decoding succeeds exactly when the header is right, one value decodes and nothing follows it. */
  lemma DecodeSucceeds<T>(contentType: string, first: Decoded<T>, second: Decoded<()>)
    ensures DecodeJSONBody(contentType, first, second).Ok?
        <==> contentType == "application/json" && first.Value? && second == Failed(Eof)
    ensures DecodeJSONBody(contentType, first, second).Ok? ==> DecodeJSONBody(contentType, first, second).value == first.value
  {
  }

  /**
   * The status a decoding failure is answered with: 400 for the recognised
   * client mistakes, 413 for an oversized body, and 500 for an error the
   * classification does not recognise (returned unchanged, it is a Plain
   * error to apiout.Error).
   */
  lemma FailureStatus(f: DecodeFailure)
    ensures var status := ErrorReply(ClassifyFailure(f)).status;
            status == (if f.Other? && f.msg == BodyTooLarge then 413
                       else if f.Other? && !HasPrefix(f.msg, UnknownFieldPrefix) then 500
                       else 400)
    ensures f.Other? && !HasPrefix(f.msg, UnknownFieldPrefix) && f.msg != BodyTooLarge
            ==> ClassifyFailure(f) == Plain(f.msg)
  {
    if f.Other? && f.msg == BodyTooLarge {
      assert !HasPrefix(f.msg, UnknownFieldPrefix) by {
        assert f.msg[..|UnknownFieldPrefix|][0] != UnknownFieldPrefix[0];
      }
    }
  }

  /** A second JSON value after the first is answered 400 with the single-object message. */
  lemma TrailingValue<T>(first: T, second: Decoded<()>)
    requires second != Failed(Eof)
    ensures var r := DecodeJSONBody("application/json", Value(first), second);
            r.Err? && ErrorReply(r.error) == Reply(400, ErrorBody("request body must only contain a single JSON object"))
  {
  }
}
