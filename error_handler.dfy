/** The application-wide error handler: the status it answers with, the
    message for that status and the optional details. */
module ErrorHandler {
  import opened Values

  /** What the handler inspects of an error: its `code` and `description`
      attributes, each of which it may lack. */
  datatype RaisedError = RaisedError(code: Option<int>, description: Option<string>)

  /** The body's `error` object and the HTTP status it is sent with.
      `errorId` is the clock reading formatted as a compact timestamp. */
  datatype ErrorResponse = ErrorResponse(
    httpStatus: int,
    code: int,
    message: string,
    errorId: string,
    timestamp: int,
    details: Option<string>)

  /** The fixed message table. */
  const Messages: map<int, string> := map[
    400 := "\U{8BF7}\U{6C42}\U{53C2}\U{6570}\U{9519}\U{8BEF}",
    401 := "\U{672A}\U{6388}\U{6743}\U{8BBF}\U{95EE}",
    403 := "\U{6743}\U{9650}\U{4E0D}\U{8DB3}",
    404 := "\U{8D44}\U{6E90}\U{4E0D}\U{5B58}\U{5728}",
    405 := "\U{65B9}\U{6CD5}\U{4E0D}\U{5141}\U{8BB8}",
    500 := "\U{670D}\U{52A1}\U{5668}\U{5185}\U{90E8}\U{9519}\U{8BEF}"]

  /** The message for any other status. */
  const UnknownMessage: string := "\U{672A}\U{77E5}\U{9519}\U{8BEF}"

  function StatusOf(e: RaisedError): (s: int)
    ensures e.code.Some? ==> s == e.code.value
    ensures e.code.None? ==> s == 500
  {
    GetOr(e.code, 500)
  }

  /** `handle_error` for `e` at time `now`. */
  function HandleError(e: RaisedError, errorId: string, now: int): (r: ErrorResponse)
    ensures r.httpStatus == r.code == StatusOf(e)
    ensures r.code in Messages ==> r.message == Messages[r.code]
    ensures r.code !in Messages ==> r.message == UnknownMessage
    ensures r.details.Some? <==> e.code.Some? && e.description.Some?
    ensures r.details.Some? ==> r.details.value == e.description.value
    ensures r.errorId == errorId && r.timestamp == now
  {
    var status := StatusOf(e);
    var message := if status in Messages then Messages[status] else UnknownMessage;
    var details := if e.code.Some? && e.description.Some? then e.description else None;
    ErrorResponse(status, status, message, errorId, now, details)
  }

  /** Every message differs from the fallback, so a client can tell a known
      status from an unknown one by the message alone. */
  lemma MessageIdentifiesKnownStatus(e: RaisedError, errorId: string, now: int)
    ensures HandleError(e, errorId, now).message == UnknownMessage <==> StatusOf(e) !in Messages
  {
    var status := StatusOf(e);
    if status in Messages {
      assert Messages[status] != UnknownMessage by {
        assert Messages[status][2] != UnknownMessage[2] || Messages[status][0] != UnknownMessage[0];
      }
    }
  }

  /** An unexpected exception, which has neither attribute, is a 500 with
      the internal-error message and no details. */
  lemma UnexpectedIsInternal(errorId: string, now: int)
    ensures var r := HandleError(RaisedError(None, None), errorId, now);
      r.httpStatus == 500 && r.message == Messages[500] && r.details.None?
  {
  }
}
