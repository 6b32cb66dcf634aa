/** The `JsonDatabase` store: one JSON file holding an array of tables, read
    lazily once and written back whole after every change.

    File-system access is abstract. Every operation that may load receives
    `file`, the outcome of reading and parsing the file at that moment
    (`None` when the read or the parse fails). Each write-back is recorded as
    a snapshot in the ghost log `saves`. */
module JsonDb {
  import opened JsonValue
  import opened Tables

  class JsonDatabase {
    var loaded: bool
    var tables: Document
    const path: string

    /** The document the successful load read. */
    ghost var readDoc: Document
    /** Every document handed to the (asynchronous) write, oldest first. */
    ghost var saves: seq<Document>

    /** Nothing is resident and nothing was written before the first load. */
    ghost predicate Inv()
      reads this
    {
      !loaded ==> tables == [] && saves == []
    }

    /** The document the file was last given: the last write, or the one read. */
    ghost function Persisted(): Document
      reads this
    {
      if saves == [] then readDoc else saves[|saves| - 1]
    }

    /** Between public calls, the resident document is the persisted one:
        every change is followed by a write of the whole document. */
    ghost predicate Valid()
      reads this
    {
      Inv() && (loaded ==> tables == Persisted())
    }

    constructor (path: string)
      ensures Valid() && this.path == path && !loaded && saves == []
    {
      this.path := path;
      loaded := false;
      tables := [];
      readDoc := [];
      saves := [];
    }

    /** `validatePath`: a falsy (empty) path, then a missing file, is refused. */
    static function ValidatePath(path: string, fileExists: bool): (r: Outcome)
      ensures r.Pass? <==> path != [] && fileExists
      ensures path == [] ==> r == Fail(EmptyPath)
      ensures path != [] && !fileExists ==> r == Fail(FileNotFound)
    {
      if !Truthy(Str(path)) then Fail(EmptyPath)
      else if !fileExists then Fail(FileNotFound)
      else Pass
    }

    /** `new JsonDatabase(path)`: validates the path and reads nothing.
        `fileExists` is the answer of the file-system existence test. */
    static method Open(path: string, fileExists: bool) returns (r: Result<JsonDatabase>)
      ensures r.Err? <==> ValidatePath(path, fileExists).Fail?
      ensures r.Err? ==> r.error == ValidatePath(path, fileExists).error
      ensures r.Ok? ==> fresh(r.value) && r.value.Valid()
      ensures r.Ok? ==> r.value.path == path && !r.value.loaded && r.value.saves == []
    {
      var v := ValidatePath(path, fileExists);
      if v.Fail? {
        return Err(v.error);
      }
      var db := new JsonDatabase(path);
      return Ok(db);
    }

    /** `load`: a no-op once loaded; otherwise reads the file. A failed read
        or parse leaves the store unloaded so the next call tries again. */
    method Load(file: Option<Document>) returns (r: Outcome)
      requires Inv()
      modifies this
      ensures Inv() && (old(Valid()) ==> Valid())
      ensures saves == old(saves)
      ensures var d := Resident(old(loaded), old(tables), file);
              if d.Some? then r == Pass && loaded && tables == d.value
              else r == Fail(LoadFailed) && !loaded && tables == old(tables)
      ensures old(loaded) ==> readDoc == old(readDoc)
    {
      if loaded {
        return Pass;
      }
      match file
      case None =>
        return Fail(LoadFailed);
      case Some(doc) =>
        tables := doc;
        readDoc := doc;
        loaded := true;
        return Pass;
    }

    /** `save`: loads if needed, then writes the whole resident document. */
    method Save(file: Option<Document>) returns (r: Outcome)
      requires Inv()
      modifies this
      ensures Valid()
      ensures var d := Resident(old(loaded), old(tables), file);
              if d.Some? then r == Pass && loaded && tables == d.value && saves == old(saves) + [tables]
              else r == Fail(LoadFailed) && !loaded && tables == old(tables) && saves == old(saves)
    {
      r := Load(file);
      if r.Fail? {
        return;
      }
      saves := saves + [tables];
    }

    /** `validateTable`: loads, then refuses a table identifier with no slot. */
    method ValidateTable(file: Option<Document>, t: nat) returns (r: Outcome)
      requires Valid()
      modifies this
      ensures Valid() && saves == old(saves)
      ensures var d := Resident(old(loaded), old(tables), file);
              if d.Some? then loaded && tables == d.value && r == Tables.ValidateTable(d.value, t)
              else !loaded && tables == old(tables) && r == Fail(LoadFailed)
    {
      r := Load(file);
      if r.Fail? {
        return;
      }
      r := Tables.ValidateTable(tables, t);
    }

    /** `all`: the records of table `t`. */
    method All(file: Option<Document>, t: nat) returns (r: Result<Table>)
      requires Valid()
      modifies this
      ensures Valid() && saves == old(saves)
      ensures var d := Resident(old(loaded), old(tables), file);
              if d.Some? then loaded && tables == d.value && r == Tables.All(d.value, t)
              else !loaded && tables == old(tables) && r == Err(LoadFailed)
    {
      var v := ValidateTable(file, t);
      if v.Fail? {
        return Err(v.error);
      }
      return Ok(tables[t]);
    }

    /** `filter`: the records of table `t` whose `key` strictly equals `value`. */
    method Filter(file: Option<Document>, t: nat, key: string, value: Value) returns (r: Result<Table>)
      requires Valid()
      modifies this
      ensures Valid() && saves == old(saves)
      ensures var d := Resident(old(loaded), old(tables), file);
              if d.Some? then loaded && tables == d.value && r == Tables.Where(d.value, t, key, value)
              else !loaded && tables == old(tables) && r == Err(LoadFailed)
    {
      var rows := All(file, t);
      if rows.Err? {
        return Err(rows.error);
      }
      return Ok(Tables.Filter(rows.value, key, value));
    }

    /** `where`: every match, in table order. */
    method Where(file: Option<Document>, t: nat, key: string, value: Value) returns (r: Result<Table>)
      requires Valid()
      modifies this
      ensures Valid() && saves == old(saves)
      ensures var d := Resident(old(loaded), old(tables), file);
              if d.Some? then loaded && tables == d.value && r == Tables.Where(d.value, t, key, value)
              else !loaded && tables == old(tables) && r == Err(LoadFailed)
    {
      r := Filter(file, t, key, value);
    }

    /** `find`: the first match, or `None` for JavaScript's `undefined`. */
    method Find(file: Option<Document>, t: nat, key: string, value: Value) returns (r: Result<Option<Record>>)
      requires Valid()
      modifies this
      ensures Valid() && saves == old(saves)
      ensures var d := Resident(old(loaded), old(tables), file);
              if d.Some? then loaded && tables == d.value && r == Tables.Find(d.value, t, key, value)
              else !loaded && tables == old(tables) && r == Err(LoadFailed)
    {
      var found := Filter(file, t, key, value);
      if found.Err? {
        return Err(found.error);
      }
      if |found.value| == 0 {
        return Ok(None);
      }
      return Ok(Some(found.value[0]));
    }

    /** `insert`: appends `data` to table `t` and writes the document once. */
    method Insert(file: Option<Document>, t: nat, data: Record) returns (r: Outcome)
      requires Valid()
      modifies this
      ensures Valid()
      ensures var d := Resident(old(loaded), old(tables), file);
              if d.Some? then
                var ins := Tables.Insert(d.value, t, data);
                && loaded && r == Status(ins)
                && tables == (if ins.Ok? then ins.value else d.value)
                && saves == old(saves) + (if ins.Ok? then [tables] else [])
              else !loaded && tables == old(tables) && saves == old(saves) && r == Fail(LoadFailed)
    {
      r := ValidateTable(file, t);
      if r.Fail? {
        return;
      }
      tables := tables[t := tables[t] + [data]];
      r := Save(file);
    }

    /** `updateRow`: sets field `key` to `val` on every record whose `whereKey`
        strictly equals `whereValue`. An omitted `val` is `Undefined`. */
    method UpdateRow(file: Option<Document>, t: nat, whereKey: string, whereValue: Value, key: string, val: Value)
      returns (r: Outcome)
      requires Valid()
      modifies this
      ensures Valid()
      ensures var d := Resident(old(loaded), old(tables), file);
              if d.Some? then
                var upd := Tables.Update(d.value, t, whereKey, whereValue, false, key, val);
                && loaded && r == Status(upd)
                && tables == (if upd.Ok? then upd.value else d.value)
                && saves == old(saves) + (if upd.Ok? && Tables.Filter(d.value[t], whereKey, whereValue) != [] then [tables] else [])
              else !loaded && tables == old(tables) && saves == old(saves) && r == Fail(LoadFailed)
    {
      r := Update(file, t, whereKey, whereValue, false, val, key);
    }

    /** `overWriteRow`: meant to replace every matching record by `data`, but
        only rebinds a local, so the tables stay as they are; a write still
        follows when some record matched. */
    method OverWriteRow(file: Option<Document>, t: nat, whereKey: string, whereValue: Value, data: Record)
      returns (r: Outcome)
      requires Valid()
      modifies this
      ensures Valid()
      ensures var d := Resident(old(loaded), old(tables), file);
              if d.Some? then
                && loaded && tables == d.value && r == Tables.ValidateTable(d.value, t)
                && saves == old(saves) + (if r.Pass? && Tables.Filter(d.value[t], whereKey, whereValue) != [] then [tables] else [])
              else !loaded && tables == old(tables) && saves == old(saves) && r == Fail(LoadFailed)
    {
      // The field name is left undefined here; an overwriting pass never reads it.
      r := Update(file, t, whereKey, whereValue, true, Obj(data), "");
    }

    /** The `map` pass of `update` over table `t`: counts the records whose
        `whereKey` strictly equals `whereValue` and, unless `overwrite`, does
        `row[key] = val` on each of them in place. */
    method SetMatching(t: nat, whereKey: string, whereValue: Value, overwrite: bool, key: string, val: Value)
      returns (count: nat)
      requires t < |tables|
      modifies this`tables
      ensures count == Count(old(tables)[t], whereKey, whereValue)
      ensures tables == old(tables)[t := if overwrite then old(tables)[t]
                                         else SetField(old(tables)[t], whereKey, whereValue, key, val)]
      ensures count == 0 ==> tables == old(tables)
    {
      ghost var rows := tables[t];
      count := 0;
      var i := 0;
      while i < |tables[t]|
        invariant 0 <= i <= |rows|
        invariant t < |tables| && tables == old(tables)[t := tables[t]] && |tables[t]| == |rows|
        invariant forall j :: 0 <= j < i ==>
                    tables[t][j] == if !overwrite && Matches(rows[j], whereKey, whereValue)
                                    then rows[j][key := val] else rows[j]
        invariant forall j :: i <= j < |rows| ==> tables[t][j] == rows[j]
        invariant count == Count(rows[..i], whereKey, whereValue)
        invariant count == 0 ==> tables == old(tables)
      {
        var row := tables[t][i];
        assert rows[..i + 1] == rows[..i] + [row];
        CountAppend(rows[..i], [row], whereKey, whereValue);
        if Matches(row, whereKey, whereValue) {
          count := count + 1;
          if !overwrite {
            // `row[key] = val` writes into the stored record; with `overwrite`,
            // `row = val` rebinds the callback's parameter and stores nothing.
            tables := tables[t := tables[t][i := row[key := val]]];
          }
        }
        i := i + 1;
      }
      assert rows[..i] == rows;
      assert !overwrite ==> tables[t] == SetField(rows, whereKey, whereValue, key, val);
      assert overwrite ==> tables[t] == rows;
    }

    /** `update`: one pass over the table counting the matches and, unless
        `overwrite`, setting `key` on each; one write after the pass if the
        count is positive. No error is raised for zero matches: the guard
        tests the truthiness of the filtered array, which always holds. */
    method Update(file: Option<Document>, t: nat, whereKey: string, whereValue: Value,
                  overwrite: bool, val: Value, key: string) returns (r: Outcome)
      requires Valid()
      modifies this
      ensures Valid()
      ensures var d := Resident(old(loaded), old(tables), file);
              if d.Some? then
                var upd := Tables.Update(d.value, t, whereKey, whereValue, overwrite, key, val);
                && loaded && r == Status(upd)
                && tables == (if upd.Ok? then upd.value else d.value)
                && saves == old(saves) + (if upd.Ok? && Tables.Filter(d.value[t], whereKey, whereValue) != [] then [tables] else [])
              else !loaded && tables == old(tables) && saves == old(saves) && r == Fail(LoadFailed)
    {
      var matched := Filter(file, t, whereKey, whereValue);
      if matched.Err? {
        return Fail(matched.error);
      }
      if !Truthy(RowsValue(matched.value)) {
        return Fail(NoMatchingData(t));
      }

      ghost var doc := tables;
      // `SetMatching` and `Tables.Update` take `key` before `val`; this method keeps the source's `(val, key)` order.
      var count := SetMatching(t, whereKey, whereValue, overwrite, key, val);
      assert count > 0 <==> Tables.Filter(doc[t], whereKey, whereValue) != [];
      if count > 0 {
        r := Save(file);
      } else {
        r := Pass;
      }
    }
  }

  /** A caller's view of opening and loading: the empty path is refused, a
      failed read leaves the store unloaded, the next call loads, and later
      reads of the file no longer matter. */
  method ScenarioLoad() {
    var first := map["id" := Num(1.0), "name" := Str("a")];
    var file := Some([[first], []]);

    var store := JsonDatabase.Open("", true);
    assert store == Err(EmptyPath);
    store := JsonDatabase.Open("db.json", true);
    var db := store.value;

    var rows := db.All(None, 0);
    assert rows == Err(LoadFailed) && !db.loaded;
    rows := db.All(file, 0);
    assert rows == Ok([first]);
    rows := db.All(None, 0);
    assert rows == Ok([first]);

    var missing := db.Insert(file, 2, first);
    assert missing == Fail(InvalidTable(2)) && db.saves == [];
  }

  /** A caller's view of the writes: insert, then update and find. */
  method ScenarioWrite() {
    var first := map["id" := Num(1.0), "name" := Str("a")];
    var second := map["id" := Num(2.0), "name" := Str("b")];
    var file := Some([[first], []]);
    var store := JsonDatabase.Open("db.json", true);
    var db := store.value;

    var ok := db.Insert(file, 0, second);
    assert ok == Pass && db.tables[0] == [first, second] && |db.saves| == 1;

    assert db.tables == [[first, second], []];
    ok := db.UpdateRow(file, 0, "id", Num(2.0), "name", Str("c"));
    assert ok == Pass && |db.saves| == 2;
    var third := second["name" := Str("c")];
    assert db.tables[0] == [first, third];
    assert Tables.Filter([first, third], "id", Num(2.0)) == [third];
    var found := db.Find(file, 0, "id", Num(2.0));
    assert found == Ok(Some(third));

  }

  /** A caller's view of the two writes that change nothing: an overwrite
      stores nothing but still writes, and an update that matches nothing
      neither fails nor writes. */
  method ScenarioNoEffect() {
    var first := map["id" := Num(1.0), "name" := Str("a")];
    var file := Some([[first], []]);
    var store := JsonDatabase.Open("db.json", true);
    var db := store.value;

    var ok := db.OverWriteRow(file, 0, "id", Num(1.0), map[]);
    assert Tables.Filter([first], "id", Num(1.0)) == [first];
    assert ok == Pass && db.tables == [[first], []] && db.saves == [db.tables];

    ok := db.UpdateRow(file, 0, "id", Num(99.0), "name", Str("x"));
    assert Tables.Filter([first], "id", Num(99.0)) == [];
    assert ok == Pass && db.tables == [[first], []] && |db.saves| == 1;
  }
}
