/** Schema discovery, `getDataStoreNames` and `getDatahubSchemas`
    (DatahubDataContext.java:87-107, 134-146): one request lists the
    datastores, then one request per datastore fetches its schema; the schemas
    are collected in a map keyed by the schema's own name. */
module Catalog {
  import opened Outcomes
  import opened UrlEncoding
  import opened Http

  /** A parsed schema, stamped with the datastore it was fetched from. Its
      tables and columns are not modelled. */
  datatype Schema = Schema(name: string, datastoreName: string)

  /** The part of DatahubConnection the core uses: the base URL of the
      repository's REST endpoints. */
  datatype Connection = Connection(repositoryUrl: string)

  /** The remote side, as functions: the HTTP client answering a GET of an
      encoded URI, and the two JsonSchemasResponseParser operations, which
      give the datastore names, or the name of the schema a document
      describes, or nothing when the body does not parse. */
  datatype Remote = Remote(
    transport: string -> Reply,
    parseDataStoreArray: string -> Option<seq<string>>,
    parseJsonSchema: string -> Option<string>)

  function DatastoresUri(conn: Connection): string
  {
    EncodeUrl(conn.repositoryUrl + "/datastores")
  }

  function SchemaUri(conn: Connection, datastoreName: string): string
  {
    EncodeUrl(conn.repositoryUrl + "/datastores" + "/" + datastoreName + ".schemas")
  }

  /** One iteration's request: the URI requested and the datastore the schema
      is stamped with. */
  datatype Request = Request(uri: string, datastoreName: string)

  function SchemaRequest(conn: Connection, datastoreName: string): Request
  {
    Request(SchemaUri(conn, datastoreName), datastoreName)
  }

  /** The requests of the loop, one per datastore in list order. */
  function SchemaRequests(conn: Connection, names: seq<string>): (requests: seq<Request>)
    ensures |requests| == |names|
    decreases |names|
  {
    if names == [] then []
    else SchemaRequests(conn, names[..|names| - 1]) + [SchemaRequest(conn, names[|names| - 1])]
  }

  /** The URIs of requests, in order. */
  function Uris(requests: seq<Request>): (uris: seq<string>)
    ensures |uris| == |requests|
    ensures forall k :: 0 <= k < |requests| ==> uris[k] == requests[k].uri
  {
    seq(|requests|, k requires 0 <= k < |requests| => requests[k].uri)
  }

  /** `getDataStoreNames`: the request's failure, or a parse failure, or the
      list of names. */
  function GetDataStoreNames(conn: Connection, remote: Remote): Result<seq<string>, Error>
  {
    match ExecuteRequest(remote.transport(DatastoresUri(conn)))
    case Failure(e) => Failure(e)
    case Success(response) =>
      match remote.parseDataStoreArray(response.body)
      case None => Failure(ParseFailed)
      case Some(names) => Success(names)
  }

  /** One iteration of the discovery loop: request, parse, stamp. */
  function FetchSchema(remote: Remote, request: Request): (r: Result<Schema, Error>)
    ensures r.Success? ==> r.value.datastoreName == request.datastoreName
    ensures r.Success? <==>
      && ExecuteRequest(remote.transport(request.uri)).Success?
      && remote.parseJsonSchema(ExecuteRequest(remote.transport(request.uri)).value.body).Some?
    ensures r.Success? ==>
      r.value.name == remote.parseJsonSchema(ExecuteRequest(remote.transport(request.uri)).value.body).value
    ensures ExecuteRequest(remote.transport(request.uri)).Failure? ==>
      r == Failure(ExecuteRequest(remote.transport(request.uri)).error)
    ensures && ExecuteRequest(remote.transport(request.uri)).Success?
            && remote.parseJsonSchema(ExecuteRequest(remote.transport(request.uri)).value.body).None? ==>
      r == Failure(ParseFailed)
  {
    match ExecuteRequest(remote.transport(request.uri))
    case Failure(e) => Failure(e)
    case Success(response) =>
      match remote.parseJsonSchema(response.body)
      case None => Failure(ParseFailed)
      case Some(name) => Success(Schema(name, request.datastoreName))
  }

  /** The schemas the requests give, in order; the first failure wins. */
  function FetchAll(remote: Remote, requests: seq<Request>): Result<seq<Schema>, Error>
    decreases |requests|
  {
    if requests == [] then Success([])
    else
      match FetchAll(remote, requests[..|requests| - 1])
      case Failure(e) => Failure(e)
      case Success(prefix) =>
        match FetchSchema(remote, requests[|requests| - 1])
        case Failure(e) => Failure(e)
        case Success(schema) => Success(prefix + [schema])
  }

  /** The map the loop's `put` calls build: later schemas overwrite earlier
      ones of the same name. */
  function CatalogOf(schemas: seq<Schema>): map<string, Schema>
  {
    if schemas == [] then map[]
    else
      var last := schemas[|schemas| - 1];
      CatalogOf(schemas[..|schemas| - 1])[last.name := last]
  }

  /** The map the loop over `requests` builds, or the first failure. */
  function CatalogFrom(remote: Remote, requests: seq<Request>): Result<map<string, Schema>, Error>
  {
    match FetchAll(remote, requests)
    case Failure(e) => Failure(e)
    case Success(schemas) => Success(CatalogOf(schemas))
  }

  /** The result of discovery. */
  function BuildCatalog(conn: Connection, remote: Remote): Result<map<string, Schema>, Error>
  {
    match GetDataStoreNames(conn, remote)
    case Failure(e) => Failure(e)
    case Success(names) => CatalogFrom(remote, SchemaRequests(conn, names))
  }

  /** How many of the requests are issued: all of them, or up to and
      including the first that fails. */
  function Attempted(remote: Remote, requests: seq<Request>): (n: nat)
    ensures n <= |requests|
    decreases |requests|
  {
    if requests == [] then 0
    else if FetchAll(remote, requests[..|requests| - 1]).Failure? then Attempted(remote, requests[..|requests| - 1])
    else |requests|
  }

  /** The URIs discovery requests, in order. */
  function IssuedRequests(conn: Connection, remote: Remote): seq<string>
  {
    match GetDataStoreNames(conn, remote)
    case Failure(_) => [DatastoresUri(conn)]
    case Success(names) =>
      var requests := SchemaRequests(conn, names);
      [DatastoresUri(conn)] + Uris(requests[..Attempted(remote, requests)])
  }

  // ----- the steps of the loop -----

  lemma {:induction false} SchemaRequestsAt(conn: Connection, names: seq<string>, k: nat)
    requires k < |names|
    ensures SchemaRequests(conn, names)[k] == SchemaRequest(conn, names[k])
    decreases |names|
  {
    if k < |names| - 1 {
      var init := names[..|names| - 1];
      SchemaRequestsAt(conn, init, k);
    }
  }

  lemma Prefix<T>(s: seq<T>, i: nat)
    requires i < |s|
    ensures s[..i + 1][..i] == s[..i]
    ensures s[..i + 1][i] == s[i]
  {
  }

  lemma AttemptedAll(remote: Remote, requests: seq<Request>)
    requires FetchAll(remote, requests).Success?
    ensures Attempted(remote, requests) == |requests|
    ensures requests[..Attempted(remote, requests)] == requests
  {
  }

  /** Once the request at index i fails, discovery fails with its error and
      issues no request after it. */
  lemma {:induction false} FailureStops(remote: Remote, requests: seq<Request>, i: nat)
    requires i < |requests|
    requires FetchAll(remote, requests[..i]).Success?
    requires FetchSchema(remote, requests[i]).Failure?
    ensures FetchAll(remote, requests) == Failure(FetchSchema(remote, requests[i]).error)
    ensures Attempted(remote, requests) == i + 1
    decreases |requests|
  {
    if |requests| == i + 1 {
      assert requests[..|requests| - 1] == requests[..i];
    } else {
      var init := requests[..|requests| - 1];
      assert init[..i] == requests[..i];
      FailureStops(remote, init, i);
    }
  }

  lemma FetchStep(remote: Remote, requests: seq<Request>, i: nat, fetched: seq<Schema>)
    requires i < |requests|
    requires FetchAll(remote, requests[..i]) == Success(fetched)
    requires FetchSchema(remote, requests[i]).Success?
    ensures FetchAll(remote, requests[..i + 1]) == Success(fetched + [FetchSchema(remote, requests[i]).value])
  {
    Prefix(requests, i);
  }

  lemma IssueStep(requests: seq<Request>, i: nat)
    requires i < |requests|
    ensures Uris(requests[..i]) + [requests[i].uri] == Uris(requests[..i + 1])
  {
    Prefix(requests, i);
  }

  lemma CatalogStep(fetched: seq<Schema>, schema: Schema)
    ensures CatalogOf(fetched + [schema]) == CatalogOf(fetched)[schema.name := schema]
  {
    assert (fetched + [schema])[..|fetched|] == fetched;
  }

  /** The loop of `getDatahubSchemas` over the datastores' requests: each
      iteration requests one schema, parses it, stamps it with its datastore
      and puts it into the map under its own name; the first failure ends the
      loop. It also reports the URIs it requested. */
  method FetchSchemas(remote: Remote, requests: seq<Request>)
    returns (r: Result<map<string, Schema>, Error>, issued: seq<string>)
    ensures r == CatalogFrom(remote, requests)
    ensures issued == Uris(requests[..Attempted(remote, requests)])
  {
    issued := [];
    var schemas: map<string, Schema> := map[];
    ghost var fetched: seq<Schema> := [];
    for i := 0 to |requests|
      invariant FetchAll(remote, requests[..i]) == Success(fetched)
      invariant schemas == CatalogOf(fetched)
      invariant issued == Uris(requests[..i])
    {
      var request := requests[i];
      IssueStep(requests, i);
      issued := issued + [request.uri];
      var response := ExecuteRequest(remote.transport(request.uri));
      if response.Failure? {
        FailureStops(remote, requests, i);
        return Failure(response.error), issued;
      }
      var parsed := remote.parseJsonSchema(response.value.body);
      if parsed.None? {
        FailureStops(remote, requests, i);
        return Failure(ParseFailed), issued;
      }
      var schema := Schema(parsed.value, request.datastoreName);
      FetchStep(remote, requests, i, fetched);
      CatalogStep(fetched, schema);
      schemas := schemas[schema.name := schema];
      fetched := fetched + [schema];
    }
    assert requests[..|requests|] == requests;
    AttemptedAll(remote, requests);
    return Success(schemas), issued;
  }

  /** `getDatahubSchemas` run against `remote`: list the datastores, then run
      the loop over one request per datastore. It also reports the URIs it
      requested. */
  method GetDatahubSchemas(conn: Connection, remote: Remote)
    returns (r: Result<map<string, Schema>, Error>, issued: seq<string>)
    ensures r == BuildCatalog(conn, remote)
    ensures issued == IssuedRequests(conn, remote)
  {
    issued := [DatastoresUri(conn)];
    var listed := GetDataStoreNames(conn, remote);
    if listed.Failure? {
      return Failure(listed.error), issued;
    }
    var more;
    r, more := FetchSchemas(remote, SchemaRequests(conn, listed.value));
    issued := issued + more;
  }
}
