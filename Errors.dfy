/** The classified error every layer of the service returns: a message, a
    transport status and a tag, built by one constructor per kind. */
module Errors {

  const StatusBadRequest := 400
  const StatusNotFound := 404
  const StatusUnprocessableEntity := 422
  const StatusInternalServerError := 500

  /** The error value: `Message()` is the human-readable text, `Status()` the
      HTTP status and `Error()` the tag. */
  datatype MessageErr = MessageErr(errMessage: string, errStatus: int, errError: string)
  {
    function Error(): string { errError }
    function Message(): string { errMessage }
    function Status(): int { errStatus }
  }

  /** The four kinds of error the constructors below produce. */
  datatype Kind = NotFound | BadRequest | UnprocessableEntity | InternalServer

  /** Either a value or a classified error, as the Go code's `(T, error)` pairs. */
  datatype Result<+T> = Ok(value: T) | Err(error: MessageErr)

  function NotFoundError(message: string): (e: MessageErr)
    ensures e.Message() == message && e.Status() == 404 && e.Error() == "not_found"
  {
    MessageErr(message, StatusNotFound, "not_found")
  }

  function BadRequestError(message: string): (e: MessageErr)
    ensures e.Message() == message && e.Status() == 400 && e.Error() == "bad_request"
  {
    MessageErr(message, StatusBadRequest, "bad_request")
  }

  function UnprocessibleEntityError(message: string): (e: MessageErr)
    ensures e.Message() == message && e.Status() == 422 && e.Error() == "invalid_request"
  {
    MessageErr(message, StatusUnprocessableEntity, "invalid_request")
  }

  function InternalServerError(message: string): (e: MessageErr)
    ensures e.Message() == message && e.Status() == 500 && e.Error() == "server_error"
  {
    MessageErr(message, StatusInternalServerError, "server_error")
  }

  /** The constructor of a kind. */
  function Construct(k: Kind, message: string): MessageErr
  {
    match k
    case NotFound => NotFoundError(message)
    case BadRequest => BadRequestError(message)
    case UnprocessableEntity => UnprocessibleEntityError(message)
    case InternalServer => InternalServerError(message)
  }

  /** The kind an error was built as, recovered from its status and tag alone;
      None for an error no constructor builds. */
  function Classify(e: MessageErr): (k: Option<Kind>)
    ensures k.Some? ==> e == Construct(k.value, e.Message())
  {
    if e.Status() == 404 && e.Error() == "not_found" then Some(NotFound)
    else if e.Status() == 400 && e.Error() == "bad_request" then Some(BadRequest)
    else if e.Status() == 422 && e.Error() == "invalid_request" then Some(UnprocessableEntity)
    else if e.Status() == 500 && e.Error() == "server_error" then Some(InternalServer)
    else None
  }

  datatype Option<+T> = None | Some(value: T)

  /** Classifying what a constructor built gives back its kind, and the message
      is carried unchanged. */
  lemma ClassifyConstruct(k: Kind, message: string)
    ensures Classify(Construct(k, message)) == Some(k)
    ensures Construct(k, message).Message() == message
  {
    match k
    case NotFound =>
    case BadRequest =>
      assert "bad_request" != "not_found";
    case UnprocessableEntity =>
      assert "invalid_request" != "not_found";
    case InternalServer =>
      assert "server_error" != "not_found";
  }

  /** Different kinds never share a status nor a tag, so either one alone
      identifies the constructor. */
  lemma KindsDistinct(k1: Kind, k2: Kind, m1: string, m2: string)
    requires k1 != k2
    ensures Construct(k1, m1).Status() != Construct(k2, m2).Status()
    ensures Construct(k1, m1).Error() != Construct(k2, m2).Error()
  {
    var e1, e2 := Construct(k1, m1), Construct(k2, m2);
    assert e1.Error()[0] != e2.Error()[0];
  }

  /** Two errors built by constructors are equal exactly when kind and message
      are. */
  lemma ConstructInjective(k1: Kind, k2: Kind, m1: string, m2: string)
    ensures Construct(k1, m1) == Construct(k2, m2) <==> k1 == k2 && m1 == m2
  {
    if k1 != k2 {
      KindsDistinct(k1, k2, m1, m2);
    }
  }
}
