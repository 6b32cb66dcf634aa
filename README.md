# JsonDatabase, modelled in Dafny

`JsonDatabase` is a small flat-file record store. One JSON file holds an
array of tables. Each table is an array of untyped records. The store reads
the whole file on first use and, once a read has succeeded, never again. It answers
`all`, and the strict-equality queries `find` and `where`. `insert` and `updateRow`
change the document in memory, and each then writes the whole document back
(`updateRow` only when some record matched). `overWriteRow` changes nothing,
but still writes the document when some record matched.

The model has three modules:

- `JsonValue` (`json_value.dfy`): the values a record holds. These are the JSON
  kinds plus `undefined`. The module also gives field lookup, `===` and
  JavaScript truthiness.
- `Tables` (`tables.dfy`): the document as `seq<seq<Record>>`, and every query
  and write as a pure function of the document. It also holds the lemmas that
  relate them: filtering keeps table order, `find` is the first match, and
  what queries see after an insert or an update.
- `JsonDb` (`json_db.dfy`): the class `JsonDatabase`. Its fields are
  `loaded`, `tables` and `path`. Two ghost fields record the document read by
  the load and every document handed to the file write. Each method is proved
  against the `Tables` function it mirrors. The object invariant `Valid()`
  states the store's consistency rule: between calls, the resident document
  is the one last written, or the one read if nothing has been written. Three
  client methods use only the contracts. Each opens its own store on the file
  `[[{"id":1,"name":"a"}],[]]`. `ScenarioLoad` opens with an empty path, then
  calls `all(0)` with a failed read, with a good one and once more, then
  inserts into the missing table 2. `ScenarioWrite` calls
  `insert(0, {"id":2,"name":"b"})`, then `updateRow(0, "id", 2, "name", "c")`,
  then `find(0, "id", 2)`. `ScenarioNoEffect` calls `overWriteRow` on a
  matching record, then an `updateRow` that matches nothing.

The file system is abstract:

- The existence test at open time is a boolean parameter.
- Every operation that may load takes `file: Option<Document>`. This is what
  reading and parsing the file would give at that moment. `None` means the
  read or the parse failed.
- A write-back is an entry appended to the ghost log `saves`.

Table identifiers are array positions (`nat`).

## Where the code differs from its evident intent

The model follows the code in both places:

- **No error on zero matches.** The error text `No matching data was found`
  at `JsonDatabase.ts:48` shows that an update matching no record was meant to
  fail. The guard at `JsonDatabase.ts:47` tests the
  truthiness of the filtered array. Every array is truthy, even an empty one,
  so the error is never raised. `Tables.RowsValue` states that the array is
  always truthy, and `JsonDatabase.Update` keeps the dead branch. An update
  that matches nothing returns normally and writes nothing.
- **`overWriteRow` stores nothing.** The name `overWriteRow` and its `data`
  parameter (`JsonDatabase.ts:42-43`) show that each matching record was
  meant to be replaced by `data`. At `JsonDatabase.ts:56`, `row = val` rebinds the `map`
  callback's parameter, so the stored record is unchanged. The model leaves
  the document as it is. It still writes the file once when at least one
  record matched.

Other behaviour of the code that the model keeps:

- A write happens only when the count is positive.
- `update` loads the document and validates the table (through `filter`)
  before it scans.
- `save` calls `load` again, which is a no-op by then.

## Model

| member | source | states |
|---|---|---|
| `JsonValue.Get` | JsonDatabase.ts:71 | defines `row[key]`: the stored value when the field exists, and `undefined` when it does not |
| `JsonValue.GetSet` | JsonDatabase.ts:53-58 | after `row[key] = x`, reading `key` gives `x` and reading any other field gives its old value |
| `JsonValue.StrictEquals` | JsonDatabase.ts:53 | defines `===`: true only between identical primitive values, with no coercion; arrays and objects never compare equal |
| `JsonValue.Truthy` | JsonDatabase.ts:47 | defines `!!` (used at lines 47, 77 and 83): `undefined`, `null`, `false`, `0` and `""` are falsy; every array and object is truthy |
| `Tables.Matches` | JsonDatabase.ts:71 | defines the filter predicate `data[key] === value` |
| `Tables.Slot` | JsonDatabase.ts:76 | defines `tables[table]`: the table as an array value, or `undefined` past the end of the document |
| `Tables.Count` | JsonDatabase.ts:51-54 | defines what the `count` counter reaches: the number of records that match |
| `Tables.SetField` | JsonDatabase.ts:52-62 | defines the effect of the `map` callback without overwrite: each matching record with `key` set to `val`, other records as they were |
| `Tables.RowsValue` | JsonDatabase.ts:47-49 | a table seen as a JavaScript value is an array, so it is truthy even when empty; the no-match guard can never fire |
| `Tables.ValidateTable` | JsonDatabase.ts:74-80 | the truthiness test on `tables[table]` passes exactly when the identifier has a slot; otherwise the error is the invalid-table error for that identifier |
| `Tables.All` | JsonDatabase.ts:18-21 | succeeds exactly on an existing slot, with that table's records in stored order; otherwise the invalid-table error |
| `Tables.Filter` | JsonDatabase.ts:69-72 | every returned record matches under strict equality; every matching record of the table is returned; the result length is the number of matching records (`Count`) |
| `Tables.Where` | JsonDatabase.ts:28-30 | fails exactly on a missing slot; otherwise the result is `Filter` of the table (which by `FilterAppend` keeps table order and multiplicity): only records of the table that match, all of them, and as many as `Count` says |
| `Tables.Find` | JsonDatabase.ts:23-26 | fails exactly on a missing slot; otherwise `None` (undefined) exactly when no record matches, else a record at the first matching position |
| `Tables.Insert` | JsonDatabase.ts:32-36 | fails exactly on a missing slot; otherwise the table grows by one, the new record is last, earlier records and all other tables are unchanged |
| `Tables.Update` | JsonDatabase.ts:46-67 | fails exactly on a missing slot; otherwise the table length and all other tables are unchanged; with overwrite the document is unchanged; without it every matching record has `key` set to `val` with its other fields kept, and non-matching records are unchanged |
| `Tables.FilterKeepsOnlyRows` | JsonDatabase.ts:71 | the filter returns only records taken from the table |
| `Tables.FilterAppend` | JsonDatabase.ts:71 | filtering a concatenation is the concatenation of the filtered parts, so matches keep table order |
| `Tables.CountAppend` | JsonDatabase.ts:51-54 | the number of matches of a concatenation is the sum of the parts, which is what the update loop's counter accumulates |
| `Tables.FilterHeadIsFirstMatch` | JsonDatabase.ts:23-26 | the head of a non-empty filter result is the record at the first matching position |
| `Tables.WhereAfterInsert` | JsonDatabase.ts:28-36 | after an insert, `where` returns the old matches followed by the new record exactly when it matches |
| `Tables.FindAfterInsert` | JsonDatabase.ts:23-36 | an insert does not change the record `find` returns when there already was a match; otherwise `find` returns the new record if it matches, and nothing if it does not |
| `Tables.FilterSetField` | JsonDatabase.ts:52-72 | when the field set is not the selector field, the matches after the update are the old matches, in order, each with the field set |
| `Tables.FindAfterUpdate` | JsonDatabase.ts:23-62 | when the field set is not the selector field, `updateRow` followed by `find` on the same selector yields the first old match with the new field value, or nothing if there was none |
| `Tables.UpdateIdempotent` | JsonDatabase.ts:38-62 | repeating the same `updateRow` leaves the document as the first one made it |
| `JsonDb.JsonDatabase.ValidatePath` | JsonDatabase.ts:82-90 | a path is accepted exactly when it is non-empty and the file exists; the empty path is refused first, then the missing file |
| `JsonDb.JsonDatabase.Open` | JsonDatabase.ts:14-16 | opening fails exactly when path validation fails, with its error; otherwise a fresh valid store on that path, not yet loaded, with nothing written |
| `JsonDb.JsonDatabase.constructor` | JsonDatabase.ts:10-16 | a new store holds its path, is not loaded and has written nothing |
| `JsonDb.JsonDatabase.Load` | JsonDatabase.ts:102-114 | once loaded, the document is untouched whatever the file holds; otherwise a good read loads it, and a failed one raises the load error and leaves the store unloaded and unchanged, so the next call retries; never writes |
| `JsonDb.JsonDatabase.Save` | JsonDatabase.ts:92-100 | loads if needed, then appends the whole resident document to the write log; re-establishes the store invariant |
| `JsonDb.JsonDatabase.ValidateTable` | JsonDatabase.ts:74-80 | loads first; a failed load and a missing slot are both reported; the document is not changed and nothing is written |
| `JsonDb.JsonDatabase.All` | JsonDatabase.ts:18-21 | after loading, the result is `Tables.All` of the resident document; a failed load gives the load error; nothing is changed or written |
| `JsonDb.JsonDatabase.Filter` | JsonDatabase.ts:69-72 | after loading, the result is `Tables.Where` of the resident document; nothing is changed or written |
| `JsonDb.JsonDatabase.Where` | JsonDatabase.ts:28-30 | after loading, the result is `Tables.Where` of the resident document; nothing is changed or written |
| `JsonDb.JsonDatabase.Find` | JsonDatabase.ts:23-26 | after loading, the result is `Tables.Find` of the resident document; nothing is changed or written |
| `JsonDb.JsonDatabase.Insert` | JsonDatabase.ts:32-36 | a failed load or a missing slot fails with no change and no write; otherwise the table becomes `Tables.Insert` of the loaded document and exactly one write of the new document follows |
| `JsonDb.JsonDatabase.UpdateRow` | JsonDatabase.ts:38-40 | after loading, the document becomes `Tables.Update` without overwrite; one write follows exactly when some record matched; zero matches is no error |
| `JsonDb.JsonDatabase.OverWriteRow` | JsonDatabase.ts:42-44 | after loading, the document is unchanged; the result is the table validation; one write follows exactly when the table is valid and some record matched |
| `JsonDb.JsonDatabase.Update` | JsonDatabase.ts:46-67 | load and table errors come first, with no change and no write; otherwise the document becomes `Tables.Update`, no error is raised for zero matches, and one write of the whole document follows exactly when the filter is non-empty |
| `JsonDb.JsonDatabase.SetMatching` | JsonDatabase.ts:51-62 | the in-place scan counts exactly the matching records and, unless overwriting, sets the field on each of them; other tables are untouched; with no match the document is unchanged |

## Left out

- File-system access is not modelled: `window.require`, `fs.existsSync`,
  `fs.readFileSync` and `fs.writeFile`. They become the `fileExists` and
  `file` parameters and the ghost write log `saves`.
- The write is asynchronous. Its completion callback, and the error that
  callback throws, are not modelled. The model records only which document
  was handed to the write, in call order.
- `JSON.parse` and `JSON.stringify` are not modelled. `file` is the parsed
  document or a failure, and it is assumed to be an array of arrays of
  objects. A slot that is not an array (`null`, a number) is not modelled.
  The write log holds the in-memory document, not its JSON text, so
  `stringify` dropping `undefined` fields is not modelled.
- `console.log` output is not modelled.
- The `data` given to `insert` and `overWriteRow` is assumed to be an object
  (a `Record`). The source accepts any value. After `insert` pushes `null`,
  every later `filter`, `find`, `where` and update on that table throws at
  `data[key]` (`JsonDatabase.ts:71`). A number or string record is not an object.
  Most fields read as `undefined`, but a string's `length` and index fields,
  and the prototype members of both, hold values. Neither case is modelled.
- Object identity and aliasing are not modelled. Records and values are
  immutable. So `JsonValue.StrictEquals` never holds between arrays or
  objects, where JavaScript compares them by reference. A caller that
  mutates the live array returned by `all` (bypassing the write) is not
  modelled. Neither is one object pushed twice.
- Table identifiers are positions only. String keys that reach other
  properties of the outer array (`"length"`, prototype members) are not
  modelled. Neither are field names that reach an object's prototype chain
  (`"toString"`).
- Strings (field names, `Str` values, the path) are Dafny strings of Unicode
  scalar values, while JavaScript strings are UTF-16 code units. A lone
  surrogate, which `JSON.parse` accepts from `"\ud800"`, has no counterpart
  here. Equality and the truthiness of `""` agree on every other string.
- Numbers are mathematical reals. `NaN`, where `NaN !== NaN`, is not
  modelled.
- The generic `<T>` casts have no runtime meaning and are not modelled.
