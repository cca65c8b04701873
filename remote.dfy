/** The Google Apps Script endpoint as the scripts see it. `fetch` is not
    modelled: each call is given the reply it receives. */
module Remote {
  import opened Wrappers
  import opened Text
  import opened Records

  /** How a POST of a record ends: `fetch` rejects, the status is not ok,
      the body does not parse as JSON, or it parses to `body`. */
  datatype PostReply =
    | NetworkFailure(message: string)
    | HttpError(status: nat)
    | MalformedBody(message: string)
    | Parsed(body: string)

  /** How the GET `?action=getAll` of script.js ends: any failure (rejected
      `fetch`, status not ok, unparsable body) or the parsed object's
      `students` property, when it has one. */
  datatype GetReply = GetFailed | GetParsed(students: Option<seq<Entry>>)

  /** What `sendToGoogleSheets` resolves to: the server's parsed reply;
      script.js's `{success: true, method: 'local'}`, with the caught error's
      message when there was one; or js/script.js's `{success: false, error}`. */
  datatype SendResult =
    | ServerResult(body: string)
    | SavedLocally(caught: Option<string>)
    | Failed(message: string)

  /** How `processRegistration` ends: the record was handed to
      `sendToGoogleSheets`, or the email check threw before that. */
  datatype Registration = Registered(result: SendResult) | Rejected(message: string)

  const HttpErrorPrefix: string := "HTTP error! status: "
  const InvalidJsonMessage: string := "Invalid JSON response from server"

  /** The message of `new Error(`HTTP error! status: ${response.status}`)`. */
  function HttpErrorMessage(status: nat): (m: string)
    ensures |m| > |HttpErrorPrefix| && m[..|HttpErrorPrefix|] == HttpErrorPrefix
    ensures AllDigits(m[|HttpErrorPrefix|..]) && DigitsValue(m[|HttpErrorPrefix|..]) == status
  {
    var digits := Decimal(status);
    assert (HttpErrorPrefix + digits)[|HttpErrorPrefix|..] == digits;
    HttpErrorPrefix + digits
  }

  /** The status code can be read back from the message, so distinct
      statuses give distinct messages. */
  lemma HttpErrorMessageInjective(s1: nat, s2: nat)
    requires HttpErrorMessage(s1) == HttpErrorMessage(s2)
    ensures s1 == s2
  {
    var n := |HttpErrorPrefix|;
    assert HttpErrorMessage(s1)[n..] == HttpErrorMessage(s2)[n..];
  }

  /** `error.message` in the `catch` of script.js's `sendToGoogleSheets`. */
  function CaughtMessage(reply: PostReply): (m: string)
    requires !reply.Parsed?
    ensures reply.HttpError? ==> m == HttpErrorMessage(reply.status)
    ensures !reply.HttpError? ==> m == reply.message
  {
    match reply
    case NetworkFailure(message) => message
    case HttpError(status) => HttpErrorMessage(status)
    case MalformedBody(message) => message
  }
}
