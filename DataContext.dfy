/** `DatahubDataContext` itself: the connection and the schema catalog built
    once at construction, the catalog accessors, query dispatch and the no-op
    update. */
module DataContext {
  import opened Outcomes
  import opened Http
  import opened Catalog
  import opened CatalogProperties
  import Dispatch

  /** An update script; `executeUpdate` never looks at it. */
  datatype UpdateScript = UpdateScript(statements: seq<string>)

  class DatahubDataContext {
    const connection: Connection
    const schemas: map<string, Schema>

    /** Every schema is stored under its own name. */
    ghost predicate Valid()
      reads this
    {
      forall n :: n in schemas ==> schemas[n].name == n
    }

    /** The object of a successful discovery; `Open` is the Java constructor. */
    constructor (connection: Connection, schemas: map<string, Schema>)
      requires forall n :: n in schemas ==> schemas[n].name == n
      ensures this.connection == connection && this.schemas == schemas && Valid()
    {
      this.connection := connection;
      this.schemas := schemas;
    }

    /** `getSchemaNamesInternal`: the catalog's keys (as a set; HashMap order is
        not modelled). */
    function SchemaNames(): (names: set<string>)
      reads this
      ensures forall n :: n in names <==> n in schemas
    {
      schemas.Keys
    }

    /** `getSchemaByNameInternal`: the stored schema, or nothing (null). */
    function GetSchemaByName(name: string): (r: Option<Schema>)
      reads this
      requires Valid()
      ensures r.Some? <==> name in schemas
      ensures r.Some? ==> r.value == schemas[name] && r.value.name == name
    {
      if name in schemas then Some(schemas[name]) else None
    }

    /** `getDefaultSchemaName`: a constant, whatever the catalog holds. */
    function DefaultSchemaName(): (name: string)
      ensures name == "MDM"
    {
      "MDM"
    }

    /** The names listed are exactly the names that look up a schema, and each
        lookup gives the schema of that name. */
    lemma NamesAgreeWithLookup(name: string)
      requires Valid()
      ensures name in SchemaNames() <==> GetSchemaByName(name).Some?
      ensures GetSchemaByName(name).Some? ==> GetSchemaByName(name).value.name == name
    {
    }

    /** `executeQuery` on this context's connection. */
    function ExecuteQuery(query: Dispatch.Query): (r: Result<Dispatch.DatahubDataSet, Error>)
      ensures r.Success? <==> |query.fromTables| > 0
      ensures r.Success? ==> r.value.connection == connection && r.value.query == query
    {
      Dispatch.ExecuteQuery(connection, query)
    }

    /** `executeUpdate`: accepted, no effect, no error. */
    method ExecuteUpdate(script: UpdateScript)
      ensures unchanged(this)
    {
    }
  }

  /** The constructor: build the catalog by discovery, failing as discovery
      fails; `issued` lists the requests made. */
  method Open(connection: Connection, remote: Remote)
    returns (r: Result<DatahubDataContext, Error>, issued: seq<string>)
    ensures issued == IssuedRequests(connection, remote)
    ensures r.Success? <==> BuildCatalog(connection, remote).Success?
    ensures r.Failure? ==> r.error == BuildCatalog(connection, remote).error
    ensures r.Success? ==>
      && fresh(r.value) && r.value.Valid()
      && r.value.connection == connection
      && r.value.schemas == BuildCatalog(connection, remote).value
  {
    var built;
    built, issued := GetDatahubSchemas(connection, remote);
    if built.Failure? {
      return Failure(built.error), issued;
    }
    CatalogKeyedByName(connection, remote);
    var context := new DatahubDataContext(connection, built.value);
    return Success(context), issued;
  }
}
