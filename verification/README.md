# sqlite-json-wrapper, modelled in Dafny

This project models the core of `sqlite-json-wrapper`, a small JavaScript helper around an embedded SQLite database. Its core is the set of SQL text builders in `index.js`: `buildInsert`, `buildUpdate`, `buildDelete`, `buildSelect` and `buildWhereClause`. Each one turns a table name and plain key/value objects into SQL text. Around them sit three more pieces:

- the module-level cached database path (`cachedDbPath`, `cacheDbPath`, `initDb`);
- the statement sequence `executeBatch` issues;
- the true/false decision `recordExists` makes.

Files:

- `outcomes.dfy`: `Option` (an absent or present JavaScript argument) and `Result` (an engine outcome).
- `js_values.dfy`: the scalar values a key/value object can hold (`null`, `undefined`, string, integer, boolean). It also has JavaScript falsiness and the text `${v}` produces.
- `js_strings.dfy`: the JavaScript string operations the builders use. `LastIndexOf` is `lastIndexOf`, `Substr0` is `substr(0, n)`, `AppendEach` is the `acc += item + sep` loops, and `Join` is `Array.prototype.join`. `TrimLast` is the builders' `s.substr(0, s.lastIndexOf(sep))`. `Split` cuts a string at every occurrence of a separator and is the inverse of `Join`.
- `sql_builder.dfy`: the five builders and their properties.
- `db_facade.dfy`: the cached-path rule as a one-field state record, with a replay of a call sequence. It also has `executeBatch` as the statements it issues and `recordExists` as a function of its select's outcome.

A JavaScript object is modelled as the sequence of its entries in `for...in` order (`Row = seq<(string, Value)>`). The builders follow the source loop by loop: they append one item plus a separator per entry, then cut at the last occurrence of the separator in the whole accumulated string. An absent `where` argument is `None`. An absent body or set map behaves like an empty one, because `for...in` over `undefined` runs zero times.

Behaviour of the code that the model keeps as written:

- `buildDelete` always puts a space after the table name. It therefore yields `delete from T ` with no filter and `delete from T  where ...` (two spaces) with one.
- `buildInsert` quotes numbers like strings (`'30'`).
- `executeQuery`, `execute` and `executeBatch` take the SQL first and the path second.
- `index.js` has no OK/ERR result envelope, so the model has none either.

## Model

| member | source | states |
|---|---|---|
| JsValues.FalsyValues | index.js:118 | The values `!val` treats as false are exactly `null`, `undefined`, `""`, `0` and `false`. |
| JsValues.NatText | index.js:121 | The decimal text `${n}` gives a natural number is non-empty, all digits, with no leading zero. |
| JsValues.IntTextRoundTrip | index.js:121 | The model's decimal text of an interpolated integer reads back as the same integer. This matches JavaScript for integers of magnitude at most 2^53 only. |
| JsStrings.LastIndexOf | index.js:114 | `lastIndexOf` returns an index where the separator occurs and no occurrence lies after it, or -1 exactly when the separator does not occur. |
| JsStrings.Substr0 | index.js:114 | `substr(0, n)` returns a prefix of the string: empty for a negative or zero length, exactly `n` characters for a length within the string, the whole string for a longer one. |
| JsStrings.TrimLast | index.js:148 | `substr(0, lastIndexOf(sep))` returns a prefix of the string that ends right before the last occurrence of `sep`. It returns `""` when `sep` does not occur, because a negative length is clamped to 0. |
| JsStrings.TrimTrailing | index.js:177 | When the string ends with the separator, trimming removes exactly that trailing separator and nothing else. |
| JsStrings.TrimAbsent | index.js:126 | When the string lacks a character of the separator, trimming yields the empty string. |
| JsStrings.AppendEachJoin | index.js:169-175 | After a loop that appends `item + sep` for each of a non-empty list of items, the accumulator holds its start, then the items joined by `sep`, then one dangling `sep`. |
| JsStrings.AppendTrimJoin | index.js:140-148 | That loop followed by the trim leaves the start followed by the items joined by the separator, with no dangling separator. |
| JsStrings.SplitJoin | index.js:109-114 | Splitting a join of a non-empty list of items at the same separator gives back exactly the items, provided no item contains the separator and none ends in a character of it. The empty list does not round-trip, since splitting `""` gives one empty item. |
| SqlBuilder.InsertNullPolicy | index.js:116-122 | An insert value renders as unquoted `null` exactly when it is falsy. Every truthy value renders as its text in single quotes. |
| SqlBuilder.StrictNullPolicy | index.js:141-144 | A set or where value renders as unquoted `null` exactly when it is strictly `null`. Every other value renders as its text in single quotes. |
| SqlBuilder.PoliciesDiffer | index.js:118-121 | The insert policy and the set/where policy render a value differently exactly when it is falsy but not `null`. |
| SqlBuilder.FalsyQuotedInWhere | index.js:170-174 | In a where or set map, `0`, `""`, `false` and `undefined` render quoted (`'0'`, `''`, `'false'`, `'undefined'`). |
| SqlBuilder.WhereClauseUnfiltered | index.js:165-177 | An absent where map, and an empty one, both yield `""`. For the empty map this is because `" where "` contains no `" and "`. |
| SqlBuilder.WhereClauseFiltered | index.js:168-177 | A non-empty where map yields `" where "` followed by one `key = value` predicate per entry, in order, joined by `" and "`. |
| SqlBuilder.WhereClauseWellFormed | index.js:163-180 | The where clause is empty, or it is `" where "` followed by at least one predicate. It never ends with a dangling `" and "`. |
| SqlBuilder.WhereClauseSplits | index.js:163-177 | When no `key = value` predicate contains `" and "`, the where clause is `" where "` followed by text that splits at `" and "` into exactly the predicates, one per entry, in order. |
| SqlBuilder.WhereNumberStringCollide | index.js:170-174 | The where text does not determine the where map: replacing a number by the string of its digits changes the map but not the clause. |
| SqlBuilder.InsertShape | index.js:105-128 | A non-empty body yields `insert into T (k1,...,kn) values (v1,...,vn)`. The columns and values follow body order, there are exactly as many of each as body entries, and the builder leaves no separator of its own behind. An empty last key still shows as a trailing comma in the column list. |
| SqlBuilder.InsertNoDanglingComma | index.js:116-126 | A non-empty insert ends with `)`, and the character before it is never a comma. |
| SqlBuilder.InsertColumnsMatchValues | index.js:109-126 | The built insert is `insert into T (cols) values (vals)`. When neither keys nor value texts contain a comma, splitting `cols` and `vals` at commas gives one item per body entry: the i-th column is the i-th key and the i-th value is the i-th value's rendering. |
| SqlBuilder.InsertColumnsRecoverKeys | index.js:109-114 | When keys contain no comma, the column list splits back into exactly the body's keys. |
| SqlBuilder.InsertColumnsTrailingComma | index.js:109-114 | The column list ends in a comma exactly when the last key ends in one, or when the last key is the empty key and follows another key. |
| SqlBuilder.InsertEmptyBody | index.js:106-126 | An empty body collapses the whole insert to `")"`, because neither trim finds a comma. |
| SqlBuilder.InsertExample | index.js:105-128 | `users` with `{name: "Ann", age: 30}` yields `insert into users (name,age) values ('Ann','30')`. |
| SqlBuilder.UpdateShape | index.js:137-152 | A non-empty set map yields `update T set k1 = v1, ..., kn = vn` with no trailing `", "`, followed by exactly the where clause of the same filter. |
| SqlBuilder.UpdateNoDanglingSeparator | index.js:140-150 | For a non-empty set map, the set clause never ends with a dangling `", "`, and the where clause follows it directly. |
| SqlBuilder.UpdateEmptySet | index.js:138-150 | An empty set map collapses the update to just the where clause. |
| SqlBuilder.SelectUnfiltered | index.js:154-159 | With an absent or empty filter, a select is exactly `select * from T`, with no trailing `where`. |
| SqlBuilder.SelectFiltered | index.js:154-159 | With a non-empty filter, a select is `select * from T where p1 and ... and pn`. |
| SqlBuilder.SelectFilterSplits | index.js:154-177 | After `select * from T where `, a select's text splits at `" and "` into exactly the where map's predicates, in order, when none of them contains `" and "`. |
| SqlBuilder.DeleteUnfiltered | index.js:130-135 | With an absent or empty filter, a delete is `delete from T ` with no `where` keyword at all. |
| SqlBuilder.DeleteFiltered | index.js:130-135 | With a non-empty filter, a delete is `delete from T  where p1 and ... and pn`. |
| DbFacade.ExplicitPathWins | index.js:8-13 | A truthy path argument is opened unchanged, whatever the cache holds. |
| DbFacade.CachedPathUsed | index.js:19-21 | After `cacheDbPath(p)`, a call with an omitted or empty path opens `p`. |
| DbFacade.InitialPathEmpty | index.js:5 | Before any caching, a call with a falsy path opens the empty path. |
| DbFacade.CacheAfterLast | index.js:19-21 | After a sequence of calls, the cache holds the path given to the most recent `cacheDbPath` call. |
| DbFacade.CacheAfterNone | index.js:5-10 | Without any `cacheDbPath` call, the cache keeps its initial value. |
| DbFacade.OpenUsesLatestCache | index.js:8-21 | In any sequence of calls, a call with a falsy path opens the path given to the most recent earlier `cacheDbPath` call. |
| DbFacade.OpenWithoutCache | index.js:5-10 | A call with a falsy path and no earlier `cacheDbPath` call opens the initial cached path. |
| DbFacade.OpenExplicit | index.js:11-12 | In any sequence of calls, a call with a truthy path opens exactly that path. |
| DbFacade.CacheThenExecute | index.js:19-21 | `cacheDbPath(p)` followed by a call without a path targets `p`. |
| DbFacade.BatchProtocol | index.js:59-74 | A batch issues `BEGIN`, then the statements joined by `"; "`, then `COMMIT` exactly when the body succeeds or `ROLLBACK` exactly when it fails. A failed batch rejects with the body's error. |
| DbFacade.RecordExistsMeaning | index.js:186-193 | `recordExists` is true exactly when the select succeeded with at least one row. |
| DbFacade.RecordExistsSwallowsErrors | index.js:190-192 | A failed select gives `false`, the same answer as a select that matched no row. |

## Left out

- The `sqlite3` engine (`new sqlite3.Database`, `db.all`, `db.run`, `db.exec`, `db.serialize`) is foreign I/O. The engine's outcome for a batch body and for a select is a parameter of `ExecuteBatch` and `RecordExists`. What the statements do to the database is not modelled, including that a rollback undoes the body.
- The Promise/callback plumbing and the delegating wrappers `executeQuery`, `execute`, `executeInsert`, `executeDelete`, `executeUpdate` and `executeSelect` are left out. They only pass a built statement and a path to the engine and complete asynchronously.
- `console.log` tracing is a side effect only and is left out.
- JsValues.ToText: integers beyond ±2^53 render as exact decimals, unlike JavaScript. JavaScript numbers are doubles: such values are rounded, and `${n}` prints the shortest digits that read back to the same double, padded with zeros. `Num` is an unbounded integer, so this rounding is not modelled.
- Floating-point numbers, `NaN`, `-0`, and the exponent notation JavaScript uses for very large numbers are left out. Numbers are integers rendered in decimal.
- `for...in` ordering of integer-like keys and inherited enumerable properties are left out. The entry order is the sequence's order.
- Strings are sequences of Dafny `char`, which are Unicode scalar values. JavaScript's `lastIndexOf` and `substr` count UTF-16 code units. The results agree for the ASCII separators the builders use, but lone surrogates cannot be represented.
- The implicit global `idx` that `for (idx in values)` creates at index.js:116 is left out. It is a side effect only.
- Objects, arrays and other non-scalar values inside a row are left out.
- Non-object `where` arguments other than absent ones are left out.
- `cacheDbPath` with a non-string argument is left out. The cache always holds a string.
- What the generated SQL means to a database is left out. Examples are that `= null` never matches and that quotes in values are not escaped. The model covers the text only.
- Reading a where map back from SQL text is stated only up to its predicates (`SqlBuilder.WhereClauseSplits`). The text does not determine the key/value pairs. A number and the string of its digits render alike (`SqlBuilder.WhereNumberStringCollide`). A key or value containing `" and "` breaks the split at `" and "`, and a value containing `'` ends its quoted literal early.
- SqlBuilder.InsertEmptyBody: the lemma states the collapse to `")"` only for table names without a comma. The function `BuildInsert` still models the trim at a comma inside the table name.
- SqlBuilder.UpdateEmptySet: the lemma states the collapse only for table names without a comma. The function `BuildUpdate` still models the trim at a `", "` that would span the table name.
