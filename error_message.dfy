/**
 * `extractErrorMessage` of the web client: the text shown for a failed
 * request, chosen from the error's sources in a fixed order of priority.
 */
module ErrorMessage {
  import opened Wrappers

  /** The JSON body of an error response: `message` and the validation `errors` map. */
  datatype ErrorBody = ErrorBody(message: Option<string>, errors: Option<seq<(string, seq<string>)>>)

  /**
   * What was thrown. An HTTP-client error is also an `Error` with its own
   * `message`; `responseData` is `None` when there was no response or its
   * body was not an object.
   */
  datatype Thrown =
    | HttpClientError(message: string, responseData: Option<ErrorBody>)
    | PlainError(message: string)
    | NotAnError

  const DefaultFallback := "Something went wrong."

  /** JavaScript truthiness of a string. */
  predicate Truthy(s: string) {
    s != ""
  }

  /** `Object.values(errors)[0]?.[0]`: the first message of the first field, if any. */
  function FirstValidationError(errors: seq<(string, seq<string>)>): (m: Option<string>)
    ensures m.Some? <==> |errors| > 0 && |errors[0].1| > 0
    ensures m.Some? ==> m.value == errors[0].1[0]
  {
    if |errors| > 0 && |errors[0].1| > 0 then Some(errors[0].1[0]) else None
  }

  /** `extractErrorMessage(error, fallback)`, a chain of early returns. */
  function ExtractErrorMessage(error: Thrown, fallback: string := DefaultFallback): (m: string)
    ensures Truthy(fallback) ==> Truthy(m)
  {
    if error.HttpClientError? && error.responseData.Some? && error.responseData.value.message.Some?
       && Truthy(error.responseData.value.message.value) then
      error.responseData.value.message.value
    else if error.HttpClientError? && error.responseData.Some? && error.responseData.value.errors.Some?
       && FirstValidationError(error.responseData.value.errors.value).Some?
       && Truthy(FirstValidationError(error.responseData.value.errors.value).value) then
      FirstValidationError(error.responseData.value.errors.value).value
    else if (error.HttpClientError? || error.PlainError?) && Truthy(error.message) then
      error.message
    else
      fallback
  }

  /** The message sources of `error`, highest priority first, each only where it exists. */
  function Sources(error: Thrown): seq<string> {
    match error
    case HttpClientError(message, data) =>
      var body := if data.Some? && data.value.message.Some? then [data.value.message.value] else [];
      var first := if data.Some? && data.value.errors.Some? && FirstValidationError(data.value.errors.value).Some?
                   then [FirstValidationError(data.value.errors.value).value] else [];
      body + first + [message]
    case PlainError(message) => [message]
    case NotAnError => []
  }

  /** The first non-empty string of `s`, else `fallback`. */
  function FirstTruthy(s: seq<string>, fallback: string): (m: string)
    ensures m == fallback || m in s
    ensures m != fallback ==> Truthy(m)
    ensures (forall i :: 0 <= i < |s| ==> !Truthy(s[i])) ==> m == fallback
  {
    if s == [] then fallback
    else if Truthy(s[0]) then s[0]
    else FirstTruthy(s[1..], fallback)
  }

  /** The chain of early returns picks the first non-empty source, else the fallback. */
  lemma ExtractIsFirstTruthySource(error: Thrown, fallback: string)
    ensures ExtractErrorMessage(error, fallback) == FirstTruthy(Sources(error), fallback)
  {
    match error
    case HttpClientError(message, data) =>
      var body := if data.Some? && data.value.message.Some? then [data.value.message.value] else [];
      var first := if data.Some? && data.value.errors.Some? && FirstValidationError(data.value.errors.value).Some?
                   then [FirstValidationError(data.value.errors.value).value] else [];
      assert Sources(error) == body + first + [message];
      var rest := first + [message];
      if body != [] {
        assert (body + rest)[0] == body[0] && (body + rest)[1..] == rest;
      }
      assert FirstTruthy([message], fallback) == if Truthy(message) then message else fallback by {
        assert [message][1..] == [];
      }
      if first != [] {
        assert rest[0] == first[0] && rest[1..] == [message];
      } else {
        assert rest == [message];
      }
    case PlainError(_) =>
    case NotAnError =>
  }

  /** Every answer is one of the error's own messages or the fallback. */
  lemma ResultComesFromASource(error: Thrown, fallback: string)
    ensures var m := ExtractErrorMessage(error, fallback);
      m == fallback || (m in Sources(error) && Truthy(m))
  {
    ExtractIsFirstTruthySource(error, fallback);
  }

  /** A non-empty body `message` wins over everything else. */
  lemma BodyMessageFirst(message: string, body: string, errors: Option<seq<(string, seq<string>)>>, fallback: string)
    requires Truthy(body)
    ensures ExtractErrorMessage(HttpClientError(message, Some(ErrorBody(Some(body), errors))), fallback) == body
  {
  }

  /** An empty body `message` counts as absent: the first validation message is next. */
  lemma EmptyBodyMessageFallsThrough(message: string, errors: seq<(string, seq<string>)>, fallback: string)
    requires |errors| > 0 && |errors[0].1| > 0 && Truthy(errors[0].1[0])
    ensures ExtractErrorMessage(HttpClientError(message, Some(ErrorBody(Some(""), Some(errors)))), fallback)
            == errors[0].1[0]
  {
  }

  /**
   * An HTTP-client error whose body has neither source answers with its own
   * `message`, not the fallback, since it is an `Error` too.
   */
  lemma HttpClientErrorUsesOwnMessage(message: string, data: Option<ErrorBody>, fallback: string)
    requires Truthy(message)
    requires data.Some? ==> data.value.message.None? && data.value.errors.None?
    ensures ExtractErrorMessage(HttpClientError(message, data), fallback) == message
  {
  }

  /** Something that is not an `Error` always gets the fallback, by default "Something went wrong.". */
  lemma NonErrorGetsFallback(fallback: string)
    ensures ExtractErrorMessage(NotAnError, fallback) == fallback
    ensures ExtractErrorMessage(NotAnError) == "Something went wrong."
  {
  }

  /** The four cases of the client's own unit tests for this helper. */
  lemma DocumentedCases()
    ensures ExtractErrorMessage(HttpClientError("Axios error", Some(ErrorBody(Some("Forbidden"), None))), "Fallback")
            == "Forbidden"
    ensures ExtractErrorMessage(HttpClientError("Axios error", Some(ErrorBody(None,
              Some([("email", ["Email invalid"]), ("name", ["Name required"])])))), "Fallback")
            == "Email invalid"
    ensures ExtractErrorMessage(PlainError("Unexpected failure"), "Fallback") == "Unexpected failure"
    ensures ExtractErrorMessage(NotAnError, "Fallback message") == "Fallback message"
  {
  }
}
