/** The in-memory document of a JSON database and the read and write
    operations on it, as pure functions of the document. A table identifier is
    the position of a table in the document's outer array. */
module Tables {
  import opened JsonValue

  /** A table: records in insertion order; duplicates allowed. */
  type Table = seq<Record>

  /** The whole document: one slot per table. */
  type Document = seq<Table>

  datatype Option<T> = None | Some(value: T)

  datatype Error =
    | EmptyPath            // the store was opened with an empty path
    | FileNotFound         // no file at the path when the store is opened
    | LoadFailed           // the file could not be read or parsed
    | InvalidTable(table: nat)
    | NoMatchingData(table: nat)

  datatype Result<T> = Ok(value: T) | Err(error: Error)

  datatype Outcome = Pass | Fail(error: Error)

  function Status<T>(r: Result<T>): Outcome {
    match r
    case Ok(_) => Pass
    case Err(e) => Fail(e)
  }

  /** The document an operation works on: the resident one once loaded,
      otherwise whatever the read of the file yields. */
  function Resident(loaded: bool, tables: Document, file: Option<Document>): Option<Document> {
    if loaded then Some(tables) else file
  }

  /** `data[key] === value`. */
  predicate Matches(row: Record, key: string, value: Value) {
    StrictEquals(Get(row, key), value)
  }

  /** A table seen as a JavaScript value: an array of objects. */
  function RowsValue(rows: Table): (v: Value)
    ensures v.Arr? && |v.items| == |rows|
    ensures Truthy(v)
  {
    Arr(seq(|rows|, i requires 0 <= i < |rows| => Obj(rows[i])))
  }

  /** `tables[table]`: the table's array, or `undefined` past the end. */
  function Slot(doc: Document, t: nat): Value {
    if t < |doc| then RowsValue(doc[t]) else Undefined
  }

  /** The truthiness test on `tables[table]`: only an existing slot passes. */
  function ValidateTable(doc: Document, t: nat): (r: Outcome)
    ensures r.Pass? <==> t < |doc|
    ensures r.Fail? ==> r.error == InvalidTable(t)
  {
    if !Truthy(Slot(doc, t)) then Fail(InvalidTable(t)) else Pass
  }

  function All(doc: Document, t: nat): (r: Result<Table>)
    ensures r.Ok? <==> t < |doc|
    ensures r.Ok? ==> r.value == doc[t]
    ensures r.Err? ==> r.error == InvalidTable(t)
  {
    match ValidateTable(doc, t)
    case Fail(e) => Err(e)
    case Pass => Ok(doc[t])
  }

  /** The number of records of `rows` that match: the reference count the
      update loop keeps. */
  function Count(rows: Table, key: string, value: Value): nat {
    if rows == [] then 0
    else (if Matches(rows[0], key, value) then 1 else 0) + Count(rows[1..], key, value)
  }

  /** `Array.prototype.filter` with the strict-equality predicate. */
  function Filter(rows: Table, key: string, value: Value): (r: Table)
    ensures |r| == Count(rows, key, value) <= |rows|
    ensures forall x :: x in r ==> Matches(x, key, value)
    ensures forall i :: 0 <= i < |rows| && Matches(rows[i], key, value) ==> rows[i] in r
  {
    if rows == [] then []
    else
      var rest := Filter(rows[1..], key, value);
      assert forall i :: 1 <= i < |rows| ==> rows[i] == rows[1..][i - 1];
      if Matches(rows[0], key, value) then [rows[0]] + rest else rest
  }

  function Where(doc: Document, t: nat, key: string, value: Value): (r: Result<Table>)
    ensures r.Ok? <==> t < |doc|
    ensures r.Err? ==> r.error == InvalidTable(t)
    ensures r.Ok? ==> r.value == Filter(doc[t], key, value)
    ensures r.Ok? ==> |r.value| == Count(doc[t], key, value)
    ensures r.Ok? ==> forall x :: x in r.value ==> x in doc[t] && Matches(x, key, value)
    ensures r.Ok? ==> forall i :: 0 <= i < |doc[t]| && Matches(doc[t][i], key, value) ==> doc[t][i] in r.value
  {
    match All(doc, t)
    case Err(e) => Err(e)
    case Ok(rows) => FilterKeepsOnlyRows(rows, key, value); Ok(Filter(rows, key, value))
  }

  /** Position `i` holds the first record of `rows` that matches. */
  predicate FirstMatchAt(rows: Table, key: string, value: Value, i: int) {
    && 0 <= i < |rows|
    && Matches(rows[i], key, value)
    && forall j :: 0 <= j < i ==> !Matches(rows[j], key, value)
  }

  /** `filter(...)[0]`: the first match, or `undefined` (here `None`). */
  function Find(doc: Document, t: nat, key: string, value: Value): (r: Result<Option<Record>>)
    ensures r.Ok? <==> t < |doc|
    ensures r.Err? ==> r.error == InvalidTable(t)
    ensures r.Ok? ==> (r.value.None? <==> forall i :: 0 <= i < |doc[t]| ==> !Matches(doc[t][i], key, value))
    ensures r.Ok? && r.value.Some? ==>
              exists i :: FirstMatchAt(doc[t], key, value, i) && r.value.value == doc[t][i]
  {
    match Where(doc, t, key, value)
    case Err(e) => Err(e)
    case Ok(found) =>
      if |found| == 0 then Ok(None)
      else
        FilterHeadIsFirstMatch(doc[t], key, value);
        Ok(Some(found[0]))
  }

  /** `tables[table].push(data)` on a validated table. */
  function Insert(doc: Document, t: nat, row: Record): (r: Result<Document>)
    ensures r.Ok? <==> t < |doc|
    ensures r.Err? ==> r.error == InvalidTable(t)
    ensures r.Ok? ==> |r.value| == |doc|
    ensures r.Ok? ==> |r.value[t]| == |doc[t]| + 1 && r.value[t][|doc[t]|] == row
    ensures r.Ok? ==> r.value[t][..|doc[t]|] == doc[t]
    ensures r.Ok? ==> forall u :: 0 <= u < |doc| && u != t ==> r.value[u] == doc[u]
  {
    match ValidateTable(doc, t)
    case Fail(e) => Err(e)
    case Pass => Ok(doc[t := doc[t] + [row]])
  }

  /** The field `key` of `after` holds `val`; every other field of `before`
      is kept with its value and no other field appears. */
  predicate FieldSet(before: Record, after: Record, key: string, val: Value) {
    && after.Keys == before.Keys + {key}
    && after[key] == val
    && forall f :: f in before && f != key ==> after[f] == before[f]
  }

  /** The loop body of `update`: `row[key] = val` on every matching record. */
  function SetField(rows: Table, whereKey: string, whereValue: Value, key: string, val: Value): Table {
    seq(|rows|, i requires 0 <= i < |rows| =>
      if Matches(rows[i], whereKey, whereValue) then rows[i][key := val] else rows[i])
  }

  /** The document after `update`. With `overwrite`, the callback only rebinds
      its local `row`, so nothing is stored and the document is unchanged. */
  function Update(doc: Document, t: nat, whereKey: string, whereValue: Value,
                  overwrite: bool, key: string, val: Value): (r: Result<Document>)
    ensures r.Ok? <==> t < |doc|
    ensures r.Err? ==> r.error == InvalidTable(t)
    ensures r.Ok? ==> |r.value| == |doc| && |r.value[t]| == |doc[t]|
    ensures r.Ok? ==> forall u :: 0 <= u < |doc| && u != t ==> r.value[u] == doc[u]
    ensures r.Ok? && overwrite ==> r.value == doc
    ensures r.Ok? && !overwrite ==>
              forall i :: 0 <= i < |doc[t]| ==>
                if Matches(doc[t][i], whereKey, whereValue)
                then FieldSet(doc[t][i], r.value[t][i], key, val)
                else r.value[t][i] == doc[t][i]
  {
    match ValidateTable(doc, t)
    case Fail(e) => Err(e)
    case Pass =>
      if overwrite then Ok(doc)
      else Ok(doc[t := SetField(doc[t], whereKey, whereValue, key, val)])
  }

  // ---------------------------------------------------------------------------
  // Properties of the queries

  /** Every record `Filter` returns comes from the table. */
  lemma {:induction false} FilterKeepsOnlyRows(rows: Table, key: string, value: Value)
    ensures forall x :: x in Filter(rows, key, value) ==> x in rows
  {
    if rows != [] {
      FilterKeepsOnlyRows(rows[1..], key, value);
    }
  }

  /** Filtering distributes over concatenation: the matches keep table order. */
  lemma {:induction false} FilterAppend(a: Table, b: Table, key: string, value: Value)
    ensures Filter(a + b, key, value) == Filter(a, key, value) + Filter(b, key, value)
  {
    if a == [] {
      assert a + b == b;
    } else {
      assert (a + b)[0] == a[0];
      assert (a + b)[1..] == a[1..] + b;
      FilterAppend(a[1..], b, key, value);
    }
  }

  lemma {:induction false} CountAppend(a: Table, b: Table, key: string, value: Value)
    ensures Count(a + b, key, value) == Count(a, key, value) + Count(b, key, value)
  {
    if a == [] {
      assert a + b == b;
    } else {
      assert (a + b)[0] == a[0];
      assert (a + b)[1..] == a[1..] + b;
      CountAppend(a[1..], b, key, value);
    }
  }

  /** The head of the filtered table is the first matching record. */
  lemma {:induction false} FilterHeadIsFirstMatch(rows: Table, key: string, value: Value)
    requires Filter(rows, key, value) != []
    ensures exists i :: FirstMatchAt(rows, key, value, i) && Filter(rows, key, value)[0] == rows[i]
  {
    if Matches(rows[0], key, value) {
      assert FirstMatchAt(rows, key, value, 0);
    } else {
      FilterHeadIsFirstMatch(rows[1..], key, value);
      var i :| FirstMatchAt(rows[1..], key, value, i) && Filter(rows[1..], key, value)[0] == rows[1..][i];
      assert forall j :: 1 <= j <= i ==> rows[j] == rows[1..][j - 1];
      assert FirstMatchAt(rows, key, value, i + 1);
    }
  }

  // ---------------------------------------------------------------------------
  // How the queries see the writes

  /** After an insert, the matches of the table are the old ones followed by
      the new record if it matches. */
  lemma WhereAfterInsert(doc: Document, t: nat, row: Record, key: string, value: Value)
    requires t < |doc|
    ensures Where(Insert(doc, t, row).value, t, key, value)
         == Ok(Filter(doc[t], key, value) + if Matches(row, key, value) then [row] else [])
  {
    var after := Insert(doc, t, row).value;
    assert after[t] == doc[t] + [row];
    FilterAppend(doc[t], [row], key, value);
    assert [row][1..] == [];
    assert Filter([row], key, value) == if Matches(row, key, value) then [row] else [];
  }

  /** An insert never changes which record `find` returns when there already
      was a match; otherwise the new record is found if it matches. */
  lemma FindAfterInsert(doc: Document, t: nat, row: Record, key: string, value: Value)
    requires t < |doc|
    ensures Find(Insert(doc, t, row).value, t, key, value)
         == if Find(doc, t, key, value).value.Some? then Find(doc, t, key, value)
            else Ok(if Matches(row, key, value) then Some(row) else None)
  {
    WhereAfterInsert(doc, t, row, key, value);
  }

  /** Setting a field that is not the selector one leaves the selection in
      place: the matches of `SetField` are the old matches with the field set. */
  lemma {:induction false} FilterSetField(rows: Table, whereKey: string, whereValue: Value, key: string, val: Value)
    requires key != whereKey
    ensures var before := Filter(rows, whereKey, whereValue);
            var after := Filter(SetField(rows, whereKey, whereValue, key, val), whereKey, whereValue);
            |after| == |before| && forall i :: 0 <= i < |before| ==> after[i] == before[i][key := val]
  {
    if rows != [] {
      var s := SetField(rows, whereKey, whereValue, key, val);
      assert s[1..] == SetField(rows[1..], whereKey, whereValue, key, val);
      assert Get(s[0], whereKey) == Get(rows[0], whereKey);
      FilterSetField(rows[1..], whereKey, whereValue, key, val);
    }
  }

  /** `updateRow` followed by `find` on the same selector yields the first
      match with the new field value. */
  lemma FindAfterUpdate(doc: Document, t: nat, whereKey: string, whereValue: Value, key: string, val: Value)
    requires t < |doc| && key != whereKey
    requires Find(doc, t, whereKey, whereValue).Ok?
    ensures var before := Find(doc, t, whereKey, whereValue).value;
            var after := Find(Update(doc, t, whereKey, whereValue, false, key, val).value, t, whereKey, whereValue);
            after == Ok(if before.Some? then Some(before.value[key := val]) else None)
  {
    var upd := Update(doc, t, whereKey, whereValue, false, key, val).value;
    assert upd[t] == SetField(doc[t], whereKey, whereValue, key, val);
    FilterSetField(doc[t], whereKey, whereValue, key, val);
  }

  /** Repeating an `updateRow` changes nothing more. */
  lemma UpdateIdempotent(doc: Document, t: nat, whereKey: string, whereValue: Value, key: string, val: Value)
    requires t < |doc|
    ensures var once := Update(doc, t, whereKey, whereValue, false, key, val).value;
            Update(once, t, whereKey, whereValue, false, key, val) == Ok(once)
  {
    var rows := doc[t];
    var once := SetField(rows, whereKey, whereValue, key, val);
    var twice := SetField(once, whereKey, whereValue, key, val);
    forall i | 0 <= i < |rows| ensures twice[i] == once[i] {
      if Matches(rows[i], whereKey, whereValue) && Matches(once[i], whereKey, whereValue) {
        assert once[i][key := val] == once[i];
      }
    }
    assert twice == once;
    assert doc[t := once][t := twice] == doc[t := once];
  }
}
