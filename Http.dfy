/** The status branch of `DatahubDataContext.executeRequest`: the transport's
    answer is accepted only with status 200; every other outcome is an error. */
module Http {
  import opened Outcomes

  /** The failures of the data context. Java throws an exception for each; the
      comment names its class. */
  datatype Error =
    | NotAuthorized             // AccessControlException: "You are not authorized to access the service"
    | NotFound                  // AccessControlException: "Could not connect to Datahub: not found"
    | UnexpectedStatus(code: int) // IllegalStateException: "Unexpected response status code: " + code
    | TransportFailed           // IllegalStateException wrapping the HTTP client's exception
    | ParseFailed               // IllegalStateException wrapping the JSON parser's exception
    | NoFromItem                // the query's from clause has no item 0
  {
    /** Thrown as an AccessControlException (otherwise as a runtime exception
        of another class). */
    predicate IsAccessDenied()
    {
      NotAuthorized? || NotFound?
    }
  }

  /** A response: its status code and its body, left uninterpreted. */
  datatype Response = Response(status: int, body: string)

  /** What the HTTP client gives back for a request: a response, or an
      exception of its own. */
  datatype Reply = Delivered(response: Response) | Broken

  /** `executeRequest` after the client has answered
      (DatahubDataContext.java:156-175). */
  function ExecuteRequest(reply: Reply): (r: Result<Response, Error>)
    ensures r.Success? <==> reply.Delivered? && reply.response.status == 200
    ensures r.Success? ==> r.value == reply.response
    ensures reply.Broken? ==> r == Failure(TransportFailed)
    ensures reply.Delivered? ==>
      var code := reply.response.status;
      && (code == 403 <==> r == Failure(NotAuthorized))
      && (code == 404 <==> r == Failure(NotFound))
      && (code != 200 && code != 403 && code != 404 <==> r == Failure(UnexpectedStatus(code)))
  {
    match reply
    case Broken => Failure(TransportFailed)
    case Delivered(response) =>
      if response.status == 403 then Failure(NotAuthorized)
      else if response.status == 404 then Failure(NotFound)
      else if response.status != 200 then Failure(UnexpectedStatus(response.status))
      else Success(response)
  }

  /** The status code a delivered reply's failure reports. */
  function StatusOf(e: Error): Option<int>
  {
    match e
    case NotAuthorized => Some(403)
    case NotFound => Some(404)
    case UnexpectedStatus(code) => Some(code)
    case _ => None
  }

  /** An error from a delivered reply identifies its status code, and it is an
      access-denied error exactly for 403 and 404; a broken transport reports
      no status. */
  lemma ErrorIdentifiesStatus(reply: Reply)
    requires ExecuteRequest(reply).Failure?
    ensures reply.Delivered? ==> StatusOf(ExecuteRequest(reply).error) == Some(reply.response.status)
    ensures reply.Delivered? ==>
      (ExecuteRequest(reply).error.IsAccessDenied() <==> reply.response.status in {403, 404})
    ensures reply.Broken? <==> StatusOf(ExecuteRequest(reply).error).None?
  {
  }

  /** Two delivered replies fail alike only when their status codes agree. */
  lemma SameFailureSameStatus(a: Response, b: Response)
    requires ExecuteRequest(Delivered(a)).Failure?
    requires ExecuteRequest(Delivered(a)) == ExecuteRequest(Delivered(b))
    ensures a.status == b.status
  {
    ErrorIdentifiesStatus(Delivered(a));
    ErrorIdentifiesStatus(Delivered(b));
  }
}
