# DatahubDataContext, modelled in Dafny

DataCleaner's `DatahubDataContext` presents a remote Datahub repository as a
MetaModel data context. When it is constructed it asks the repository for its
datastores (`GET <repo>/datastores`), then fetches each datastore's schema
(`GET <repo>/datastores/<name>.schemas`). It keeps the schemas in a map
keyed by schema name. A query is sent to the query endpoint of the datastore
its first table belongs to, with the table prefix removed from the SQL text.
Every request URI goes through `encodeUrl`. That function form-urlencodes the
whole URI (`application/x-www-form-urlencoded`, section 17.13.4.1 of HTML 4.01,
UTF-8, upper-case hex as in section 2.1 of RFC 3986). It then restores the five
structural characters `: / ? = &`.

The model has these modules:

- `Outcomes`: the `Option` and `Result` types.
- `Text`: literal replace-all, which is `Matcher.replaceAll` with a
  `Pattern.LITERAL` pattern and also `String.replace`. It proves facts about
  occurrences and length, and that the characters removal keeps stay in order.
- `UrlEncoding`: `encodeUrl`, built exactly as the code builds it. First comes
  `URLEncoder.encode` on Unicode scalar values with full UTF-8, then the five
  literal replacements in order. It is proved equal to a per-character
  reference encoding. Fixed points, escapes, the output alphabet, length, and
  idempotence are proved as well.
- `UrlDecoding`: the inverse of `encodeUrl`. Decoding an encoded text gives
  back the input, so `encodeUrl` is injective.
- `Http`: the status classification in `executeRequest`.
- `Catalog`: `getDataStoreNames` and `getDatahubSchemas`. The remote side is a
  value (`Remote`) that holds the HTTP client and the JSON parser as functions.
  `FetchSchemas` is the loop, with its map invariant, proved against the
  specification function `CatalogFrom`. `GetDatahubSchemas` lists the
  datastores and runs the loop. It is proved against `BuildCatalog` and the
  request trace `IssuedRequests`.
- `CatalogProperties`: what discovery guarantees about the catalog.
- `Dispatch`: `executeQuery` and `getQueryString`.
- `DataContext`: the `DatahubDataContext` class, with its connection, its
  schema map, the accessors and `executeUpdate`. `Open` is the constructor.

Java exceptions are modelled as `Error` values. The constructor, which
throws when discovery fails, becomes `Open`, which returns a `Result`.

`encodeUrl` is idempotent exactly on inputs made only of letters, digits,
`. - * _` and the structural characters `: / ? = &`. A literal structural
character, such as `&`, keeps it idempotent:

- An input whose characters are all letters, digits, `. - * _` or structural
  characters is a fixed point, so encoding it twice changes nothing.
- Any other character makes the second application change the text. A space
  becomes `+` and then `%2B`. A `%` becomes `%25` and then `%2525`.
- `UrlEncoding.EncodeUrlIdempotentIff` states the exact condition.

## Model

| member | source | states |
|---|---|---|
| Text.ReplaceAll | engine/core/src/main/java/org/datacleaner/metamodel/datahub/DatahubDataContext.java:80-84 | the definition of a literal, left-to-right, non-overlapping replace-all; it has no contract of its own and is characterised by ReplaceAllWithoutOccurrence, MatchCountPositive, ReplaceAllLength, RemovalLength and RemovalKeepsOrder |
| Text.ReplaceAllWithoutOccurrence | engine/core/src/main/java/org/datacleaner/metamodel/datahub/DatahubDataContext.java:80-84 | a literal replace-all leaves a text in which the pattern does not occur unchanged |
| Text.MatchCountPositive | engine/core/src/main/java/org/datacleaner/metamodel/datahub/DatahubDataContext.java:80-84 | the left-to-right scan finds a match exactly when the pattern occurs somewhere in the text |
| Text.ReplaceAllLength | engine/core/src/main/java/org/datacleaner/metamodel/datahub/DatahubDataContext.java:130 | the result's length is the original length plus, per non-overlapping match, the difference between replacement and pattern lengths |
| Text.RemovalLength | engine/core/src/main/java/org/datacleaner/metamodel/datahub/DatahubDataContext.java:130 | removing every occurrence shortens the text by the pattern's length per non-overlapping match |
| Text.RemovalKeepsOrder | engine/core/src/main/java/org/datacleaner/metamodel/datahub/DatahubDataContext.java:130 | removing every occurrence keeps the remaining characters in their original order (an increasing index map into the original text) |
| Text.RemovalCanCreateOccurrence | engine/core/src/main/java/org/datacleaner/metamodel/datahub/DatahubDataContext.java:130 | removing `t.` from `tt..` gives `t.`, so the result can still contain the removed pattern |
| UrlEncoding.HexDigit | engine/core/src/main/java/org/datacleaner/metamodel/datahub/DatahubDataContext.java:76 | the hex digit written for a nibble is an upper-case hex digit and a character URLEncoder keeps |
| UrlEncoding.HexRoundTrip | engine/core/src/main/java/org/datacleaner/metamodel/datahub/DatahubDataContext.java:76 | reading a written hex digit gives back its nibble |
| UrlEncoding.Utf8 | engine/core/src/main/java/org/datacleaner/metamodel/datahub/DatahubDataContext.java:76 | the UTF-8 encoding of a character is 1 to 4 bytes, one byte exactly for ASCII, two bytes exactly below 0x800, three exactly below 0x10000 and four above (the shortest form), with the lead-byte ranges of each length and continuation bytes in 0x80-0xBF |
| UrlEncoding.Utf8RoundTrip | engine/core/src/main/java/org/datacleaner/metamodel/datahub/DatahubDataContext.java:76 | decoding the UTF-8 bytes of a character gives back its code point |
| UrlEncoding.FormEncode | engine/core/src/main/java/org/datacleaner/metamodel/datahub/DatahubDataContext.java:76 | the definition of `URLEncoder.encode(url, "UTF-8")`, character by character; it has no contract of its own and is characterised by FormEncodeRendersUnits (the unit view) and, through EncodeUrlIsCharwise, UrlCharCases and AsciiEscape |
| UrlEncoding.FormEncodeRendersUnits | engine/core/src/main/java/org/datacleaner/metamodel/datahub/DatahubDataContext.java:76 | the form-encoded text is the rendering of each character's units: kept characters literal, space as `+`, every other character as the escapes of its UTF-8 bytes |
| UrlEncoding.EncodeUrl | engine/core/src/main/java/org/datacleaner/metamodel/datahub/DatahubDataContext.java:72-85 | the definition of `encodeUrl` as the code writes it, form-encoding then the five literal replacements in order; it has no contract of its own and is characterised by EncodeUrlIsCharwise, DecodeEncode, EncodeUrlAlphabet, EncodeUrlLength and EncodeUrlIdempotentIff |
| UrlEncoding.EncodeUrlRendersUnits | engine/core/src/main/java/org/datacleaner/metamodel/datahub/DatahubDataContext.java:76-84 | the five literal replacements act on the form-encoded text as a substitution of the five structural escapes |
| UrlEncoding.EncodeUrlIsCharwise | engine/core/src/main/java/org/datacleaner/metamodel/datahub/DatahubDataContext.java:72-85 | encodeUrl equals the per-character encoding: structural characters literal, letters, digits and `. - * _` unchanged, space as `+`, every other character as the %XY escapes of its UTF-8 bytes |
| UrlEncoding.UrlCharCases | engine/core/src/main/java/org/datacleaner/metamodel/datahub/DatahubDataContext.java:76-84 | what one character becomes: itself when kept or structural, `+` for space, otherwise three characters per UTF-8 byte, each `%` followed by the byte's two upper-case hex digits |
| UrlEncoding.AsciiEscape | engine/core/src/main/java/org/datacleaner/metamodel/datahub/DatahubDataContext.java:76 | an ASCII character that is neither kept, structural nor space becomes `%` and its two hex digits |
| UrlEncoding.EncodeUrlEmpty | engine/core/src/main/java/org/datacleaner/metamodel/datahub/DatahubDataContext.java:72-85 | the empty text encodes to the empty text |
| UrlEncoding.EncodeUrlConcat | engine/core/src/main/java/org/datacleaner/metamodel/datahub/DatahubDataContext.java:72-85 | encoding distributes over concatenation |
| UrlEncoding.EncodeUrlCons | engine/core/src/main/java/org/datacleaner/metamodel/datahub/DatahubDataContext.java:72-85 | the first character is encoded on its own, in front of the encoding of the rest |
| UrlEncoding.EncodeUrlAt | engine/core/src/main/java/org/datacleaner/metamodel/datahub/DatahubDataContext.java:72-85 | the encoding of a text is the encoding of the part before position k, the character at k, and the part after |
| UrlEncoding.EncodeUrlFixedPoint | engine/core/src/main/java/org/datacleaner/metamodel/datahub/DatahubDataContext.java:76-84 | a text made only of letters, digits, `. - * _` and the five structural characters is unchanged |
| UrlEncoding.EncodeUrlAround | engine/core/src/main/java/org/datacleaner/metamodel/datahub/DatahubDataContext.java:91-92 | literal segments such as `/datastores/` pass through unchanged, so only the parts between them are encoded |
| UrlEncoding.EncodeUrlInfix | engine/core/src/main/java/org/datacleaner/metamodel/datahub/DatahubDataContext.java:76-84 | one character between two plain texts is the only part that changes |
| UrlEncoding.EncodeUrlWellEscaped | engine/core/src/main/java/org/datacleaner/metamodel/datahub/DatahubDataContext.java:76-84 | every `%` in the output starts a three-character escape with two upper-case hex digits |
| UrlEncoding.EncodeUrlAlphabet | engine/core/src/main/java/org/datacleaner/metamodel/datahub/DatahubDataContext.java:76-84 | the output holds only letters, digits, `. - * _`, the five structural characters, `+` and `%` |
| UrlEncoding.EncodeUrlLength | engine/core/src/main/java/org/datacleaner/metamodel/datahub/DatahubDataContext.java:76-84 | the output is never shorter than the input, and strictly longer when the input holds `%` or `+` |
| UrlEncoding.PercentEscaped | engine/core/src/main/java/org/datacleaner/metamodel/datahub/DatahubDataContext.java:76-84 | a literal `%` becomes `%25` and is not turned back into a structural character |
| UrlEncoding.EscapedPercentExample | engine/core/src/main/java/org/datacleaner/metamodel/datahub/DatahubDataContext.java:76-84 | `%3A` encodes to `%253A` |
| UrlEncoding.SpaceEncodedTwice | engine/core/src/main/java/org/datacleaner/metamodel/datahub/DatahubDataContext.java:76-84 | a space between plain texts becomes `+`, and encoding again turns it into `%2B` |
| UrlEncoding.EncodeUrlNotIdempotent | engine/core/src/main/java/org/datacleaner/metamodel/datahub/DatahubDataContext.java:76-84 | a text holding a character that is neither kept nor structural changes when encoded a second time |
| UrlEncoding.EncodeUrlIdempotentIff | engine/core/src/main/java/org/datacleaner/metamodel/datahub/DatahubDataContext.java:76-84 | encoding twice equals encoding once exactly when every character is kept or structural |
| UrlDecoding.DecodeUrlChar | engine/core/src/main/java/org/datacleaner/metamodel/datahub/DatahubDataContext.java:76-84 | decoding a character's encoding followed by more text gives the character followed by the decoding of that text |
| UrlDecoding.DecodeEncode | engine/core/src/main/java/org/datacleaner/metamodel/datahub/DatahubDataContext.java:72-85 | decoding the output of encodeUrl gives back its input |
| UrlDecoding.EncodeUrlInjective | engine/core/src/main/java/org/datacleaner/metamodel/datahub/DatahubDataContext.java:72-85 | two texts with the same encoding are equal |
| Http.ExecuteRequest | engine/core/src/main/java/org/datacleaner/metamodel/datahub/DatahubDataContext.java:156-175 | a transport exception gives TransportFailed; 403 gives NotAuthorized and 404 gives NotFound, each if and only if; any other non-200 code gives UnexpectedStatus with that code; only 200 succeeds, returning the response |
| Http.ErrorIdentifiesStatus | engine/core/src/main/java/org/datacleaner/metamodel/datahub/DatahubDataContext.java:162-175 | the error of a delivered reply reports its status code, and is an access-denied error exactly for 403 and 404; a broken transport reports no status |
| Http.SameFailureSameStatus | engine/core/src/main/java/org/datacleaner/metamodel/datahub/DatahubDataContext.java:162-175 | two delivered replies that fail alike have the same status code |
| Catalog.SchemaRequestsAt | engine/core/src/main/java/org/datacleaner/metamodel/datahub/DatahubDataContext.java:89-94 | the loop's k-th request goes to the encoded `repo/datastores/<name>.schemas` of the k-th datastore name and stamps its schema with that name |
| Catalog.FetchSchema | engine/core/src/main/java/org/datacleaner/metamodel/datahub/DatahubDataContext.java:95-102 | one loop step succeeds exactly when the request returns 200 and the body parses; the schema has the name the parser read and is stamped with the request's datastore name; a failed request fails the step with its error, and a 200 whose body does not parse fails it with ParseFailed |
| Catalog.FailureStops | engine/core/src/main/java/org/datacleaner/metamodel/datahub/DatahubDataContext.java:95-105 | once the request at index i fails, the loop fails with that error and request i is the last one issued |
| Catalog.FetchAll | engine/core/src/main/java/org/datacleaner/metamodel/datahub/DatahubDataContext.java:90-105 | the definition of the loop's schemas in request order, the first failure winning; it has no contract of its own and is characterised by FetchAllSuccess, FetchAllFailure and FailureStops |
| Catalog.CatalogOf | engine/core/src/main/java/org/datacleaner/metamodel/datahub/DatahubDataContext.java:88-102 | the definition of the map the `put` calls build, later schemas overwriting earlier ones of the same name; it has no contract of its own and is characterised by CatalogOfKeys, CatalogOfEntry and CatalogOfLatest |
| Catalog.FetchSchemas | engine/core/src/main/java/org/datacleaner/metamodel/datahub/DatahubDataContext.java:90-106 | the loop's result is the map CatalogFrom specifies (one put per fetched schema under its own name, aborting on the first failure), and the URIs it requests are exactly those of the requests up to the first failure |
| Catalog.GetDataStoreNames | engine/core/src/main/java/org/datacleaner/metamodel/datahub/DatahubDataContext.java:134-146 | the definition of the listing step; it has no contract of its own and is characterised by CatalogProperties.GetDataStoreNamesOutcome |
| Catalog.BuildCatalog | engine/core/src/main/java/org/datacleaner/metamodel/datahub/DatahubDataContext.java:87-107 | the definition of discovery's result, the listing followed by the loop; it has no contract of its own and is characterised by BuildCatalogFailure, BuildCatalogKeys, BuildCatalogEntry, CatalogKeyedByName and ListingStatusFails, and GetDatahubSchemas is proved against it |
| Catalog.GetDatahubSchemas | engine/core/src/main/java/org/datacleaner/metamodel/datahub/DatahubDataContext.java:87-107 | discovery's result is BuildCatalog (the listing's failure, or the loop's result over one request per listed datastore), and the URIs requested are exactly IssuedRequests |
| CatalogProperties.GetDataStoreNamesOutcome | engine/core/src/main/java/org/datacleaner/metamodel/datahub/DatahubDataContext.java:134-146 | the listing succeeds exactly when the reply to the datastores request is delivered with status 200 and its body parses, and then gives the parsed names; a broken transport gives TransportFailed, 403 NotAuthorized, 404 NotFound, any other non-200 code UnexpectedStatus with that code, and a 200 whose body does not parse ParseFailed |
| CatalogProperties.CatalogOfKeys | engine/core/src/main/java/org/datacleaner/metamodel/datahub/DatahubDataContext.java:88-102 | the map's keys are exactly the names of the schemas put into it |
| CatalogProperties.CatalogOfEntry | engine/core/src/main/java/org/datacleaner/metamodel/datahub/DatahubDataContext.java:102 | the entry for a name is the last schema of that name put into the map |
| CatalogProperties.CatalogOfLatest | engine/core/src/main/java/org/datacleaner/metamodel/datahub/DatahubDataContext.java:102 | a schema with no later schema of the same name is the one stored under its name |
| CatalogProperties.FetchAllSuccess | engine/core/src/main/java/org/datacleaner/metamodel/datahub/DatahubDataContext.java:90-105 | all fetches succeed exactly when every datastore's fetch succeeds, and then the k-th schema is the k-th datastore's |
| CatalogProperties.FetchAllFailure | engine/core/src/main/java/org/datacleaner/metamodel/datahub/DatahubDataContext.java:95-105 | a failed run fails with the error of the first datastore whose fetch fails, and all earlier fetches succeeded |
| CatalogProperties.NoDatastoresEmptyCatalog | engine/core/src/main/java/org/datacleaner/metamodel/datahub/DatahubDataContext.java:88-107 | an empty datastore list gives an empty catalog after the single listing request |
| CatalogProperties.ListingStatusFails | engine/core/src/main/java/org/datacleaner/metamodel/datahub/DatahubDataContext.java:134-146 | a non-200 answer to the listing aborts discovery with NotAuthorized, NotFound or UnexpectedStatus by code, and no schema is requested |
| CatalogProperties.BuildCatalogFailure | engine/core/src/main/java/org/datacleaner/metamodel/datahub/DatahubDataContext.java:90-105 | discovery fails exactly when some datastore's fetch fails, and then with the error of the first such datastore |
| CatalogProperties.BuildCatalogKeys | engine/core/src/main/java/org/datacleaner/metamodel/datahub/DatahubDataContext.java:88-102 | on success every datastore was fetched, and the key set is exactly the set of fetched schema names |
| CatalogProperties.BuildCatalogEntry | engine/core/src/main/java/org/datacleaner/metamodel/datahub/DatahubDataContext.java:99-102 | each entry is the schema fetched from some datastore, stamped with that datastore, and no later datastore yields the same name |
| CatalogProperties.CatalogKeyedByName | engine/core/src/main/java/org/datacleaner/metamodel/datahub/DatahubDataContext.java:102 | every schema is stored under its own name |
| CatalogProperties.IssuedAll | engine/core/src/main/java/org/datacleaner/metamodel/datahub/DatahubDataContext.java:89-106 | a successful discovery issues the listing request and then every datastore's schema request |
| CatalogProperties.OneRequestPerDatastore | engine/core/src/main/java/org/datacleaner/metamodel/datahub/DatahubDataContext.java:89-95 | a successful discovery issues the listing request and then exactly one schema request per datastore, in list order |
| CatalogProperties.SchemaUriShape | engine/core/src/main/java/org/datacleaner/metamodel/datahub/DatahubDataContext.java:91-94 | the schema URI is the encoded repository URL, `/datastores/`, the encoded datastore name, then `.schemas` |
| CatalogProperties.TwoDatastoresExample | engine/core/src/main/java/org/datacleaner/metamodel/datahub/DatahubDataContext.java:88-107 | two datastores with distinct schema names give a two-entry catalog |
| CatalogProperties.TwoFetches | engine/core/src/main/java/org/datacleaner/metamodel/datahub/DatahubDataContext.java:90-106 | two successful fetches give the two schemas in order |
| CatalogProperties.TwoPuts | engine/core/src/main/java/org/datacleaner/metamodel/datahub/DatahubDataContext.java:102 | two puts give the map with the first schema's entry, then the second schema's entry over it |
| CatalogProperties.SameNamePuts | engine/core/src/main/java/org/datacleaner/metamodel/datahub/DatahubDataContext.java:102 | two puts under the same name leave only the second schema |
| CatalogProperties.DuplicateNameExample | engine/core/src/main/java/org/datacleaner/metamodel/datahub/DatahubDataContext.java:102 | when two datastores yield the same schema name, the later datastore's schema is kept |
| Dispatch.TablePrefix | engine/core/src/main/java/org/datacleaner/metamodel/datahub/DatahubDataContext.java:130 | the removed prefix is the table name followed by a dot: it is one longer than the name, starts with the name and ends with `.` |
| Dispatch.GetQueryString | engine/core/src/main/java/org/datacleaner/metamodel/datahub/DatahubDataContext.java:128-132 | the definition of the query text with every `<table>.` removed; it has no contract of its own and is characterised by QueryStringRewrite and RewriteMayLeavePrefix |
| Dispatch.ExecuteQuery | engine/core/src/main/java/org/datacleaner/metamodel/datahub/DatahubDataContext.java:115-126 | a query with no from item fails with NoFromItem; otherwise the handle carries the query and the connection |
| Dispatch.QueryStringRewrite | engine/core/src/main/java/org/datacleaner/metamodel/datahub/DatahubDataContext.java:128-132 | the rewritten text loses the table name plus one character per removed occurrence, is unchanged when the prefix does not occur, is shorter when it does, and keeps the remaining characters in order |
| Dispatch.RewriteMayLeavePrefix | engine/core/src/main/java/org/datacleaner/metamodel/datahub/DatahubDataContext.java:130 | for table `t`, the text `tt..` is rewritten to `t.` |
| Dispatch.QueryUriShape | engine/core/src/main/java/org/datacleaner/metamodel/datahub/DatahubDataContext.java:122-123 | the query URI is the encoded repository URL, `/datastores/`, the encoded datastore name, then `.query?` |
| Dispatch.ExecuteQueryHandle | engine/core/src/main/java/org/datacleaner/metamodel/datahub/DatahubDataContext.java:117-125 | the handle addresses the query endpoint of the first table's datastore and carries the text with that table's prefix removed |
| Dispatch.RoutesByFirstTable | engine/core/src/main/java/org/datacleaner/metamodel/datahub/DatahubDataContext.java:117-123 | queries that agree on their first table and on their text get the same URI and query string, whatever else they join |
| Dispatch.PlainDatastoreName | engine/core/src/main/java/org/datacleaner/metamodel/datahub/DatahubDataContext.java:122-123 | a datastore name made of kept characters appears in the query URI as it is |
| DataContext.DatahubDataContext.constructor | engine/core/src/main/java/org/datacleaner/metamodel/datahub/DatahubDataContext.java:54-60 | the context holds the given connection and a schema map keyed by schema name |
| DataContext.DatahubDataContext.SchemaNames | engine/core/src/main/java/org/datacleaner/metamodel/datahub/DatahubDataContext.java:178-181 | the schema names are exactly the catalog's keys |
| DataContext.DatahubDataContext.GetSchemaByName | engine/core/src/main/java/org/datacleaner/metamodel/datahub/DatahubDataContext.java:188-191 | lookup gives the stored schema, which has the requested name, and nothing when the name is absent |
| DataContext.DatahubDataContext.DefaultSchemaName | engine/core/src/main/java/org/datacleaner/metamodel/datahub/DatahubDataContext.java:183-186 | the default schema name is always `MDM` |
| DataContext.DatahubDataContext.NamesAgreeWithLookup | engine/core/src/main/java/org/datacleaner/metamodel/datahub/DatahubDataContext.java:178-191 | a name is listed exactly when it looks up a schema, and that schema has that name |
| DataContext.DatahubDataContext.ExecuteQuery | engine/core/src/main/java/org/datacleaner/metamodel/datahub/DatahubDataContext.java:115-126 | the query is dispatched on this context's connection, failing with NoFromItem when there is no from item (the other failures of the Java method are listed under Left out) |
| DataContext.DatahubDataContext.ExecuteUpdate | engine/core/src/main/java/org/datacleaner/metamodel/datahub/DatahubDataContext.java:110-113 | the update changes nothing |
| DataContext.Open | engine/core/src/main/java/org/datacleaner/metamodel/datahub/DatahubDataContext.java:54-60 | construction succeeds exactly when discovery does, has the discovered catalog and the given connection, and otherwise fails with discovery's error; the requests made are those of discovery |

## Left out

- HTTP: `MonitorHttpClient`, `HttpGet`, `HttpResponse`, `HttpEntity` and the
  internals of `DatahubConnection` are I/O. A reply is an input value: a
  status code and a body, or a transport exception. The client is a function
  in `Remote`, so in the model the same URI always gets the same reply.
- The repository URL's derivation from host, port, tenant and the https flag is
  left out. The connection is modelled only by the URL it yields, and the
  credentials, SSL and security-mode constructor arguments are left out with it.
- `JsonSchemasResponseParser` is a foreign call whose source is absent. It is
  abstracted as two functions in `Remote` that return the datastore names or a
  schema name, or nothing when the body does not parse.
- Schemas are modelled as their name and datastore name only. Tables, columns
  and the MetaModel `Schema`, `Table` and `Query` types are not modelled.
  `toSql()` is an uninterpreted SQL string on the query.
- The row streaming of `DatahubDataSet` is left out. Only the arguments it is
  constructed with are modelled.
- `getSchemaNamesInternal` returns an array in `HashMap` order, which is
  unspecified, so `SchemaNames` returns a set.
- The schemas a lookup returns are the model's values. The Java objects they
  stand for, and the aliasing between the map's values and the parser's
  objects, are not modelled.
- Logging (`logger.debug`) is left out.
- `testGetMainSchema` delegates to `AbstractDataContext.getDefaultSchema`,
  which is not part of this model.
- Dispatch.ExecuteQuery: a from clause without items gives NoFromItem, as the
  Java `getItem(0)` throws. Two other Java failures are not modelled, because
  a from item is always a table and every table's schema is one of this
  context's: a from item 0 that is a sub-query or a join (`getTable()` is
  null and `table.getSchema()` throws a NullPointerException), and a table
  whose schema is not a `DatahubSchema` (the cast throws a
  ClassCastException).
- DataContext.DatahubDataContext.ExecuteQuery: delegates to
  `Dispatch.ExecuteQuery`, so it leaves out the same two failures.
- The `UnsupportedEncodingException` branch of `encodeUrl` is left out.
  UTF-8 is always supported, so the branch cannot be taken.
- Java strings are UTF-16. The UTF-8 encoder `URLEncoder` uses turns an
  unpaired surrogate into the byte 0x3F, which `URLEncoder` writes as `%3F`,
  and `encodeUrl`'s `?` replacement then turns that into a literal `?`. Dafny
  characters are Unicode scalar values, so unpaired surrogates cannot be
  expressed and that case is left out.
- Exception classes and message texts are represented by the `Error`
  constructors. The constructors' comments name the class and the text.
- Null arguments and null names (the Java `null` schema name or datastore
  name) are left out.
- The loop's URIs are built before the loop, by `SchemaRequests`, rather than
  at the top of each iteration. Building a URI is pure, so the requests and
  their order are the same.
- The `issued` out-parameter of `FetchSchemas`, `GetDatahubSchemas` and `Open` is an
  observation the model adds so that it can state which requests are made. The
  Java code has no such value.
- `UrlDecoding.DecodeUrl` is a reference inverse used to prove injectivity.
  It accepts only upper-case hex and does not check continuation bytes, unlike
  `java.net.URLDecoder`. The Java class has no decoder.
