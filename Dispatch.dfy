/** Query dispatch, `executeQuery` and `getQueryString`
    (DatahubDataContext.java:115-132): the first from-clause table decides the
    datastore, the table prefix is cut out of the SQL text, and the request URI
    for the datastore's query endpoint is built. No request is made here: the
    result is the handle a DatahubDataSet is constructed from. */
module Dispatch {
  import opened Outcomes
  import opened Text
  import opened UrlEncoding
  import opened Http
  import opened Catalog

  /** A table, with the schema it belongs to. */
  datatype Table = Table(name: string, schema: Schema)

  /** A query: the tables of its from clause, in order, and the text its
      `toSql()` renders. */
  datatype Query = Query(fromTables: seq<Table>, sql: string)

  /** The arguments `new DatahubDataSet(uri, query, queryString, connection)`
      receives; the row streaming it does is not modelled. */
  datatype DatahubDataSet = DatahubDataSet(uri: string, query: Query, queryString: string, connection: Connection)

  function TablePrefix(table: Table): (p: string)
    ensures |p| == |table.name| + 1 && p[|table.name|] == '.'
    ensures p[..|table.name|] == table.name
  {
    table.name + "."
  }

  /** `getQueryString`: every occurrence of the table name followed by a dot is
      removed from the SQL text (String.replace). */
  function GetQueryString(table: Table, query: Query): string
  {
    ReplaceAll(query.sql, TablePrefix(table), "")
  }

  function QueryUri(conn: Connection, datastoreName: string): string
  {
    EncodeUrl(conn.repositoryUrl + "/datastores" + "/" + datastoreName + ".query?")
  }

  /** `executeQuery`. `getItem(0)` on an empty from clause throws; that is the
      NoFromItem error. */
  function ExecuteQuery(conn: Connection, query: Query): (r: Result<DatahubDataSet, Error>)
    ensures r.Success? <==> |query.fromTables| > 0
    ensures r.Failure? ==> r.error == NoFromItem
    ensures r.Success? ==> r.value.query == query && r.value.connection == conn
  {
    if |query.fromTables| == 0 then Failure(NoFromItem)
    else
      var table := query.fromTables[0];
      var dataStoreName := table.schema.datastoreName;
      var queryString := GetQueryString(table, query);
      var uri := QueryUri(conn, dataStoreName);
      Success(DatahubDataSet(uri, query, queryString, conn))
  }

  // ----- properties -----

  /** The rewritten text: the SQL text with each removed occurrence taking
      |table name| + 1 characters away, unchanged when the prefix does not
      occur, shorter when it does, and the remaining characters kept in
      order. */
  lemma QueryStringRewrite(table: Table, query: Query) returns (kept: seq<nat>)
    ensures |GetQueryString(table, query)|
      == |query.sql| - MatchCount(query.sql, TablePrefix(table)) * (|table.name| + 1)
    ensures !Occurs(query.sql, TablePrefix(table)) ==> GetQueryString(table, query) == query.sql
    ensures Occurs(query.sql, TablePrefix(table)) ==> |GetQueryString(table, query)| < |query.sql|
    ensures Embedding(kept, GetQueryString(table, query), query.sql)
  {
    var p := TablePrefix(table);
    var r := ReplaceAll(query.sql, p, "");
    var n := MatchCount(query.sql, p);
    RemovalLength(query.sql, p);
    MatchCountPositive(query.sql, p);
    if Occurs(query.sql, p) {
      Shrinks(|query.sql|, n, |p|);
    } else {
      ReplaceAllWithoutOccurrence(query.sql, p, "");
    }
    kept := RemovalKeepsOrder(query.sql, p);
  }

  lemma Shrinks(len: int, count: int, width: int)
    requires count > 0 && width > 0
    ensures len - count * width < len
  {
  }

  /** The rewritten text may still hold the prefix: with table `t`, the text
      `tt..` becomes `t.`. */
  lemma RewriteMayLeavePrefix(query: Query)
    requires query.sql == "tt.."
    ensures GetQueryString(Table("t", Schema("S", "ds")), query) == "t."
  {
    assert TablePrefix(Table("t", Schema("S", "ds"))) == "t.";
    RemovalCanCreateOccurrence();
  }

  /** The structural parts of the query URI stay literal: only the repository
      URL and the datastore name are encoded. */
  lemma QueryUriShape(conn: Connection, datastoreName: string)
    ensures QueryUri(conn, datastoreName)
      == EncodeUrl(conn.repositoryUrl) + "/datastores/" + EncodeUrl(datastoreName) + ".query?"
  {
    var repo := conn.repositoryUrl;
    assert repo + "/datastores" + "/" + datastoreName + ".query?"
        == repo + "/datastores/" + datastoreName + ".query?";
    EncodeUrlAround(repo, "/datastores/", datastoreName, ".query?");
  }

  /** The handle addresses the query endpoint of the first table's datastore and
      carries the rewritten text. */
  lemma ExecuteQueryHandle(conn: Connection, query: Query)
    requires |query.fromTables| > 0
    ensures
      var table := query.fromTables[0];
      var ds := table.schema.datastoreName;
      && ExecuteQuery(conn, query).value.uri
           == EncodeUrl(conn.repositoryUrl) + "/datastores/" + EncodeUrl(ds) + ".query?"
      && ExecuteQuery(conn, query).value.queryString == ReplaceAll(query.sql, table.name + ".", "")
  {
    QueryUriShape(conn, query.fromTables[0].schema.datastoreName);
  }

  /** Only the first from-clause table matters: queries that agree on it and
      on their text are sent to the same URI with the same query string,
      whatever other tables they join. */
  lemma RoutesByFirstTable(conn: Connection, q1: Query, q2: Query)
    requires |q1.fromTables| > 0 && |q2.fromTables| > 0
    requires q1.fromTables[0] == q2.fromTables[0] && q1.sql == q2.sql
    ensures ExecuteQuery(conn, q1).value.uri == ExecuteQuery(conn, q2).value.uri
    ensures ExecuteQuery(conn, q1).value.queryString == ExecuteQuery(conn, q2).value.queryString
  {
  }

  /** A datastore name made of letters, digits and `. - * _` appears in the
      URI as it is: a table of datastore `ds1` is queried at
      `<encoded repository URL>/datastores/ds1.query?`. */
  lemma PlainDatastoreName(conn: Connection, query: Query)
    requires |query.fromTables| > 0 && KeptLiteral(query.fromTables[0].schema.datastoreName)
    ensures ExecuteQuery(conn, query).value.uri
      == EncodeUrl(conn.repositoryUrl) + "/datastores/" + query.fromTables[0].schema.datastoreName + ".query?"
  {
    QueryUriShape(conn, query.fromTables[0].schema.datastoreName);
    EncodeUrlFixedPoint(query.fromTables[0].schema.datastoreName);
  }
}
