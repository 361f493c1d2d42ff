/** What discovery guarantees about the catalog it builds. */
module CatalogProperties {
  import opened Outcomes
  import opened Http
  import opened UrlEncoding
  import opened Catalog

  // ----- the map built by the `put` calls -----

  /** The catalog's keys are exactly the names of the schemas put into it. */
  lemma {:induction false} CatalogOfKeys(schemas: seq<Schema>)
    ensures CatalogOf(schemas).Keys == set k | 0 <= k < |schemas| :: schemas[k].name
    decreases |schemas|
  {
    if schemas != [] {
      var init := schemas[..|schemas| - 1];
      CatalogOfKeys(init);
      var last := schemas[|schemas| - 1];
      var names := set k | 0 <= k < |schemas| :: schemas[k].name;
      assert names == (set k | 0 <= k < |init| :: init[k].name) + {last.name} by {
        forall n | n in names ensures n in (set k | 0 <= k < |init| :: init[k].name) + {last.name} {
          var k :| 0 <= k < |schemas| && schemas[k].name == n;
          if k < |init| { assert init[k] == schemas[k]; }
        }
        forall k | 0 <= k < |init| ensures init[k].name in names {
          assert init[k] == schemas[k];
        }
      }
    }
  }

  /** Every value is a schema put under its own name, and no later schema of
      that name was put after it: the last writer wins. */
  lemma {:induction false} CatalogOfEntry(schemas: seq<Schema>, name: string) returns (i: nat)
    requires name in CatalogOf(schemas)
    ensures i < |schemas| && schemas[i] == CatalogOf(schemas)[name] && schemas[i].name == name
    ensures forall j :: i < j < |schemas| ==> schemas[j].name != name
    decreases |schemas|
  {
    var init := schemas[..|schemas| - 1];
    var last := schemas[|schemas| - 1];
    if last.name == name {
      i := |schemas| - 1;
    } else {
      i := CatalogOfEntry(init, name);
      assert schemas[i] == init[i];
    }
  }

  /** Conversely every schema that no later one shadows is in the catalog. */
  lemma {:induction false} CatalogOfLatest(schemas: seq<Schema>, i: nat)
    requires i < |schemas|
    requires forall j :: i < j < |schemas| ==> schemas[j].name != schemas[i].name
    ensures schemas[i].name in CatalogOf(schemas) && CatalogOf(schemas)[schemas[i].name] == schemas[i]
    decreases |schemas|
  {
    if i < |schemas| - 1 {
      var init := schemas[..|schemas| - 1];
      assert init[i] == schemas[i];
      CatalogOfLatest(init, i);
    }
  }

  // ----- the per-datastore requests -----

  /** All schemas are fetched exactly when every request and parse succeeds,
      and then the k-th schema comes from the k-th request. */
  lemma {:induction false} FetchAllSuccess(remote: Remote, requests: seq<Request>)
    ensures FetchAll(remote, requests).Success? <==>
      forall k :: 0 <= k < |requests| ==> FetchSchema(remote, requests[k]).Success?
    ensures FetchAll(remote, requests).Success? ==>
      && |FetchAll(remote, requests).value| == |requests|
      && forall k :: 0 <= k < |requests| ==>
           FetchSchema(remote, requests[k]) == Success(FetchAll(remote, requests).value[k])
    decreases |requests|
  {
    if requests != [] {
      var init := requests[..|requests| - 1];
      FetchAllSuccess(remote, init);
      assert forall k :: 0 <= k < |init| ==> init[k] == requests[k];
    }
  }

  /** A failure is the error of the first request that fails. */
  lemma {:induction false} FetchAllFailure(remote: Remote, requests: seq<Request>) returns (i: nat)
    requires FetchAll(remote, requests).Failure?
    ensures i < |requests| && FetchSchema(remote, requests[i]).Failure?
    ensures FetchAll(remote, requests).error == FetchSchema(remote, requests[i]).error
    ensures forall k :: 0 <= k < i ==> FetchSchema(remote, requests[k]).Success?
    decreases |requests|
  {
    var init := requests[..|requests| - 1];
    if FetchAll(remote, init).Failure? {
      i := FetchAllFailure(remote, init);
      assert forall k :: 0 <= k <= i ==> init[k] == requests[k];
    } else {
      i := |requests| - 1;
      FetchAllSuccess(remote, init);
      assert forall k :: 0 <= k < i ==> init[k] == requests[k];
    }
  }

  /** Every request of the loop is the one for its datastore. */
  lemma AllSchemaRequests(conn: Connection, names: seq<string>)
    ensures forall k :: 0 <= k < |names| ==> SchemaRequests(conn, names)[k] == SchemaRequest(conn, names[k])
  {
    forall k | 0 <= k < |names| ensures SchemaRequests(conn, names)[k] == SchemaRequest(conn, names[k]) {
      SchemaRequestsAt(conn, names, k);
    }
  }

  // ----- discovery as a whole -----

  /** The listing succeeds exactly when the reply to the datastores request is
      delivered with status 200 and its body parses as a datastore array, and
      then gives the parsed names; a broken transport, each other status code
      and an unparseable body give their own errors. */
  lemma GetDataStoreNamesOutcome(conn: Connection, remote: Remote)
    ensures var reply := remote.transport(DatastoresUri(conn));
      GetDataStoreNames(conn, remote).Success? <==>
        && reply.Delivered? && reply.response.status == 200
        && remote.parseDataStoreArray(reply.response.body).Some?
    ensures var reply := remote.transport(DatastoresUri(conn));
      GetDataStoreNames(conn, remote).Success? ==>
        GetDataStoreNames(conn, remote).value == remote.parseDataStoreArray(reply.response.body).value
    ensures var reply := remote.transport(DatastoresUri(conn));
      reply.Broken? ==> GetDataStoreNames(conn, remote) == Failure(TransportFailed)
    ensures var reply := remote.transport(DatastoresUri(conn));
      reply.Delivered? ==>
        var code := reply.response.status;
        && (code == 403 ==> GetDataStoreNames(conn, remote) == Failure(NotAuthorized))
        && (code == 404 ==> GetDataStoreNames(conn, remote) == Failure(NotFound))
        && (code != 200 && code != 403 && code != 404 ==>
              GetDataStoreNames(conn, remote) == Failure(UnexpectedStatus(code)))
        && (code == 200 && remote.parseDataStoreArray(reply.response.body).None? ==>
              GetDataStoreNames(conn, remote) == Failure(ParseFailed))
  {
  }

  /** An empty datastore list gives an empty catalog, not an error. */
  lemma NoDatastoresEmptyCatalog(conn: Connection, remote: Remote)
    requires GetDataStoreNames(conn, remote) == Success([])
    ensures BuildCatalog(conn, remote) == Success(map[])
    ensures IssuedRequests(conn, remote) == [DatastoresUri(conn)]
  {
    assert Uris([]) == [];
  }

  /** A failed listing request aborts discovery with the request's error after
      that single request; 403 and 404 give the access-denied errors. */
  lemma ListingStatusFails(conn: Connection, remote: Remote, status: int, body: string)
    requires remote.transport(DatastoresUri(conn)) == Delivered(Response(status, body))
    requires status != 200
    ensures BuildCatalog(conn, remote).Failure?
    ensures status == 403 ==> BuildCatalog(conn, remote).error == NotAuthorized
    ensures status == 404 ==> BuildCatalog(conn, remote).error == NotFound
    ensures status != 403 && status != 404 ==> BuildCatalog(conn, remote).error == UnexpectedStatus(status)
    ensures IssuedRequests(conn, remote) == [DatastoresUri(conn)]
  {
  }

  /** Discovery fails exactly when listing fails or some datastore fails, and
      then with the first error in request order. */
  lemma BuildCatalogFailure(conn: Connection, remote: Remote, names: seq<string>)
    requires GetDataStoreNames(conn, remote) == Success(names)
    ensures BuildCatalog(conn, remote).Failure? <==>
      exists k :: 0 <= k < |names| && FetchSchema(remote, SchemaRequest(conn, names[k])).Failure?
    ensures BuildCatalog(conn, remote).Failure? ==>
      exists k :: && 0 <= k < |names|
                  && FetchSchema(remote, SchemaRequest(conn, names[k])) == Failure(BuildCatalog(conn, remote).error)
                  && forall j :: 0 <= j < k ==> FetchSchema(remote, SchemaRequest(conn, names[j])).Success?
  {
    var requests := SchemaRequests(conn, names);
    FetchAllSuccess(remote, requests);
    forall k | 0 <= k < |names|
      ensures FetchSchema(remote, SchemaRequest(conn, names[k])) == FetchSchema(remote, requests[k])
    {
      SchemaRequestsAt(conn, names, k);
    }
    if FetchAll(remote, requests).Failure? {
      var i := FetchAllFailure(remote, requests);
      assert FetchSchema(remote, SchemaRequest(conn, names[i])) == Failure(BuildCatalog(conn, remote).error);
    }
  }

  /** Every datastore's schema was fetched, and the catalog's keys are
      exactly the names of those schemas. */
  lemma BuildCatalogKeys(conn: Connection, remote: Remote, names: seq<string>)
    requires GetDataStoreNames(conn, remote) == Success(names)
    requires BuildCatalog(conn, remote).Success?
    ensures forall k :: 0 <= k < |names| ==> FetchSchema(remote, SchemaRequest(conn, names[k])).Success?
    ensures forall n :: n in BuildCatalog(conn, remote).value <==>
      exists k :: 0 <= k < |names| && FetchSchema(remote, SchemaRequest(conn, names[k])) == Success(Schema(n, names[k]))
  {
    var requests := SchemaRequests(conn, names);
    FetchAllSuccess(remote, requests);
    var schemas := FetchAll(remote, requests).value;
    CatalogOfKeys(schemas);
    forall k | 0 <= k < |names|
      ensures FetchSchema(remote, SchemaRequest(conn, names[k])) == Success(schemas[k])
      ensures schemas[k] == Schema(schemas[k].name, names[k])
    {
      SchemaRequestsAt(conn, names, k);
    }
  }

  /** Each catalog entry is keyed by its own name and records the datastore it
      was fetched from; that datastore is the last in list order whose schema
      has this name. */
  lemma BuildCatalogEntry(conn: Connection, remote: Remote, names: seq<string>, name: string) returns (i: nat)
    requires GetDataStoreNames(conn, remote) == Success(names)
    requires BuildCatalog(conn, remote).Success? && name in BuildCatalog(conn, remote).value
    ensures i < |names|
    ensures BuildCatalog(conn, remote).value[name] == Schema(name, names[i])
    ensures FetchSchema(remote, SchemaRequest(conn, names[i])) == Success(Schema(name, names[i]))
    ensures forall j :: i < j < |names| ==>
      && FetchSchema(remote, SchemaRequest(conn, names[j])).Success?
      && FetchSchema(remote, SchemaRequest(conn, names[j])).value.name != name
  {
    var requests := SchemaRequests(conn, names);
    FetchAllSuccess(remote, requests);
    var schemas := FetchAll(remote, requests).value;
    i := CatalogOfEntry(schemas, name);
    forall j | i <= j < |names|
      ensures FetchSchema(remote, SchemaRequest(conn, names[j])) == Success(schemas[j])
    {
      SchemaRequestsAt(conn, names, j);
    }
  }

  /** Every catalog entry is stored under its own name. */
  lemma CatalogKeyedByName(conn: Connection, remote: Remote)
    requires BuildCatalog(conn, remote).Success?
    ensures forall n :: n in BuildCatalog(conn, remote).value ==> BuildCatalog(conn, remote).value[n].name == n
  {
    var schemas := FetchAll(remote, SchemaRequests(conn, GetDataStoreNames(conn, remote).value)).value;
    forall n | n in CatalogOf(schemas) ensures CatalogOf(schemas)[n].name == n {
      var i := CatalogOfEntry(schemas, n);
    }
  }

  /** A successful discovery issues every one of the loop's requests. */
  lemma IssuedAll(conn: Connection, remote: Remote, names: seq<string>)
    requires GetDataStoreNames(conn, remote) == Success(names)
    requires BuildCatalog(conn, remote).Success?
    ensures IssuedRequests(conn, remote) == [DatastoresUri(conn)] + Uris(SchemaRequests(conn, names))
  {
    AttemptedAll(remote, SchemaRequests(conn, names));
  }

  /** A successful discovery requests the datastore list and then each
      datastore's schema once, in list order. */
  lemma OneRequestPerDatastore(conn: Connection, remote: Remote, names: seq<string>)
    requires GetDataStoreNames(conn, remote) == Success(names)
    requires BuildCatalog(conn, remote).Success?
    ensures |IssuedRequests(conn, remote)| == |names| + 1
    ensures IssuedRequests(conn, remote)[0] == DatastoresUri(conn)
    ensures forall k :: 0 <= k < |names| ==> IssuedRequests(conn, remote)[k + 1] == SchemaUri(conn, names[k])
  {
    var issued, requests := IssuedRequests(conn, remote), SchemaRequests(conn, names);
    IssuedAll(conn, remote, names);
    ListedInOrder(issued, DatastoresUri(conn), requests);
    forall k | 0 <= k < |names| ensures issued[k + 1] == SchemaUri(conn, names[k]) {
      SchemaRequestsAt(conn, names, k);
    }
  }

  lemma ListedInOrder(issued: seq<string>, first: string, requests: seq<Request>)
    requires issued == [first] + Uris(requests)
    ensures |issued| == |requests| + 1 && issued[0] == first
    ensures forall k :: 0 <= k < |requests| ==> issued[k + 1] == requests[k].uri
  {
  }

  /** The schema request of a datastore keeps the path structure literal. */
  lemma SchemaUriShape(conn: Connection, datastoreName: string)
    ensures SchemaUri(conn, datastoreName)
      == EncodeUrl(conn.repositoryUrl) + "/datastores/" + EncodeUrl(datastoreName) + ".schemas"
  {
    var repo := conn.repositoryUrl;
    assert repo + "/datastores" + "/" + datastoreName + ".schemas"
        == repo + "/datastores/" + datastoreName + ".schemas";
    EncodeUrlAround(repo, "/datastores/", datastoreName, ".schemas");
  }

  lemma TwoFetches(remote: Remote, r1: Request, r2: Request, a: Schema, b: Schema)
    requires FetchSchema(remote, r1) == Success(a)
    requires FetchSchema(remote, r2) == Success(b)
    ensures FetchAll(remote, [r1, r2]) == Success([a, b])
  {
    var requests := [r1, r2];
    assert requests[..1][..0] == [];
    assert FetchAll(remote, requests[..1]) == Success([] + [a]);
    assert [] + [a] == [a];
    assert requests[..|requests| - 1] == requests[..1];
    assert [a] + [b] == [a, b];
  }

  lemma TwoRequests(conn: Connection, d1: string, d2: string)
    ensures SchemaRequests(conn, [d1, d2]) == [SchemaRequest(conn, d1), SchemaRequest(conn, d2)]
  {
    SchemaRequestsAt(conn, [d1, d2], 0);
    SchemaRequestsAt(conn, [d1, d2], 1);
  }

  /** Two datastores with differently named schemas give a two-entry catalog. */
  lemma TwoDatastoresExample(conn: Connection, remote: Remote, d1: string, d2: string)
    requires GetDataStoreNames(conn, remote) == Success([d1, d2])
    requires FetchSchema(remote, SchemaRequest(conn, d1)) == Success(Schema("A", d1))
    requires FetchSchema(remote, SchemaRequest(conn, d2)) == Success(Schema("B", d2))
    ensures BuildCatalog(conn, remote) == Success(map["A" := Schema("A", d1), "B" := Schema("B", d2)])
  {
    var a, b := Schema("A", d1), Schema("B", d2);
    TwoDatastores(conn, remote, d1, d2, a, b);
    TwoPuts(a, b);
  }

  /** Discovery over two datastores collects both fetched schemas in order. */
  lemma TwoDatastores(conn: Connection, remote: Remote, d1: string, d2: string, a: Schema, b: Schema)
    requires GetDataStoreNames(conn, remote) == Success([d1, d2])
    requires FetchSchema(remote, SchemaRequest(conn, d1)) == Success(a)
    requires FetchSchema(remote, SchemaRequest(conn, d2)) == Success(b)
    ensures BuildCatalog(conn, remote) == Success(CatalogOf([a, b]))
  {
    TwoRequests(conn, d1, d2);
    TwoFetches(remote, SchemaRequest(conn, d1), SchemaRequest(conn, d2), a, b);
  }

  lemma TwoPuts(a: Schema, b: Schema)
    ensures CatalogOf([a, b]) == map[a.name := a][b.name := b]
  {
    assert [a, b][..1] == [a];
    assert [a][..0] == [];
    assert CatalogOf([a]) == CatalogOf([])[a.name := a];
    assert CatalogOf([a, b]) == CatalogOf([a])[b.name := b];
  }

  /** When two datastores report the same schema name, the later one wins. */
  lemma DuplicateNameExample(conn: Connection, remote: Remote, d1: string, d2: string)
    requires GetDataStoreNames(conn, remote) == Success([d1, d2])
    requires FetchSchema(remote, SchemaRequest(conn, d1)) == Success(Schema("A", d1))
    requires FetchSchema(remote, SchemaRequest(conn, d2)) == Success(Schema("A", d2))
    ensures BuildCatalog(conn, remote) == Success(map["A" := Schema("A", d2)])
  {
    var a, b := Schema("A", d1), Schema("A", d2);
    TwoDatastores(conn, remote, d1, d2, a, b);
    SameNamePuts(a, b);
  }

  lemma SameNamePuts(a: Schema, b: Schema)
    requires a.name == b.name
    ensures CatalogOf([a, b]) == map[b.name := b]
  {
    TwoPuts(a, b);
    assert map[a.name := a][b.name := b] == map[b.name := b];
  }
}
