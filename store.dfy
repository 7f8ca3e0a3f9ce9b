/**
 * The PocketBase app as the commands use it: the collections with their
 * rows, the order the collections query returns them in, the backups made,
 * the bulk collection imports requested, and the faults the store is set up
 * to report. Validation, SQL and the merge done by a bulk import are not
 * modelled; `faults` says which calls fail.
 */
module Store {
  import opened Wrappers
  import opened Model

  datatype Fault =
    | BackupFails
    | QueryFails
    | FetchFails(collection: string)
    | DeleteFails(collection: string)
    | WriteFails(collection: string)
    | Rejects(collection: string)
    | ImportFails

  datatype StoreError = Failed(fault: Fault) | CollectionNotFound(name: string) | DuplicateId(collection: string, id: string)

  datatype Table = Table(schema: Collection, rows: seq<Record>)

  /** One call of `app.ImportCollections(docs, deleteMissing)`. */
  datatype ImportCall = ImportCall(docs: seq<Doc>, deleteMissing: bool)

  /** The filters `AndWhere` adds to the collections query: by name when a
      list is given, and non-system unless system collections are wanted. */
  predicate Selects(names: seq<string>, system: bool, c: Collection) {
    (|names| == 0 || c.name in names) && (system || !c.system)
  }

  /** `c` is the schema of a collection listed in `order`. */
  predicate Listed(tables: map<string, Table>, order: seq<string>, c: Collection) {
    exists n :: n in order && n in tables && tables[n].schema == c
  }

  /** The collections query: the schemas listed in `order` that pass the
      filters, in that order. */
  function Query(tables: map<string, Table>, order: seq<string>, names: seq<string>, system: bool): (r: seq<Collection>)
    ensures |r| <= |order|
    ensures forall i :: 0 <= i < |r| ==> Selects(names, system, r[i]) && Listed(tables, order, r[i])
    ensures forall n :: n in order && n in tables && Selects(names, system, tables[n].schema) ==> tables[n].schema in r
  {
    if order == [] then []
    else
      var rest := Query(tables, order[1..], names, system);
      assert forall i :: 0 <= i < |rest| ==> Listed(tables, order, rest[i]) by {
        forall i | 0 <= i < |rest|
          ensures Listed(tables, order, rest[i])
        {
          assert Listed(tables, order[1..], rest[i]);
          var m :| m in order[1..] && m in tables && tables[m].schema == rest[i];
          assert m in order;
        }
      }
      var n := order[0];
      if n in tables && Selects(names, system, tables[n].schema) then [tables[n].schema] + rest else rest
  }

  /** Each listed collection is the schema stored under its own name. */
  ghost predicate FromTables(tables: map<string, Table>, order: seq<string>, r: seq<Collection>) {
    forall i :: 0 <= i < |r| ==> r[i].name in tables && r[i].name in order && tables[r[i].name].schema == r[i]
  }

  ghost predicate DistinctNames(r: seq<Collection>) {
    forall i, j :: 0 <= i < j < |r| ==> r[i].name != r[j].name
  }

  /** In a consistent store the query lists each collection once, as the
      schema stored under its name. */
  lemma {:induction false} QueryConsistent(tables: map<string, Table>, order: seq<string>, names: seq<string>, system: bool)
    requires forall i, j :: 0 <= i < j < |order| ==> order[i] != order[j]
    requires forall n :: n in tables ==> tables[n].schema.name == n
    ensures FromTables(tables, order, Query(tables, order, names, system))
    ensures DistinctNames(Query(tables, order, names, system))
  {
    if order != [] {
      QueryConsistent(tables, order[1..], names, system);
      var rest := Query(tables, order[1..], names, system);
      assert FromTables(tables, order[1..], rest);
      forall i | 0 <= i < |rest|
        ensures rest[i].name != order[0]
      {
        var k :| 0 <= k < |order[1..]| && order[1..][k] == rest[i].name;
        assert order[k + 1] == rest[i].name;
      }
      var n := order[0];
      if n in tables && Selects(names, system, tables[n].schema) {
        var r := [tables[n].schema] + rest;
        assert Query(tables, order, names, system) == r;
        forall i, j | 0 <= i < j < |r|
          ensures r[i].name != r[j].name
        {
          assert r[j] == rest[j - 1];
          if i > 0 {
            assert r[i] == rest[i - 1];
          } else {
            assert r[0].name == n;
          }
        }
      } else {
        assert Query(tables, order, names, system) == rest;
      }
    }
  }

  class App {
    var tables: map<string, Table>
    var order: seq<string>
    var backups: seq<string>
    var imports: seq<ImportCall>
    var faults: set<Fault>

    /** Collection names are unique, every collection is listed once in
        `order`, and each table is stored under its schema's name. */
    ghost predicate Valid()
      reads this
    {
      && (forall i, j :: 0 <= i < j < |order| ==> order[i] != order[j])
      && (forall n :: n in tables <==> n in order)
      && (forall n :: n in tables ==> tables[n].schema.name == n)
    }

    constructor (tables: map<string, Table>, order: seq<string>, faults: set<Fault>)
      ensures this.tables == tables && this.order == order && this.faults == faults
      ensures backups == [] && imports == []
    {
      this.tables := tables;
      this.order := order;
      this.faults := faults;
      backups := [];
      imports := [];
    }

    /** `app.CreateBackup(ctx, name)`. */
    method CreateBackup(name: string) returns (err: Option<StoreError>)
      modifies this`backups
      ensures BackupFails in faults ==> err == Some(Failed(BackupFails)) && backups == old(backups)
      ensures BackupFails !in faults ==> err == None && backups == old(backups) + [name]
    {
      if BackupFails in faults {
        err := Some(Failed(BackupFails));
      } else {
        backups := backups + [name];
        err := None;
      }
    }

    /** `app.FindAllRecords(collection)`. */
    method FindAllRecords(name: string) returns (r: Result<seq<Record>, StoreError>)
      ensures name !in tables ==> r == Err(CollectionNotFound(name))
      ensures name in tables && FetchFails(name) in faults ==> r == Err(Failed(FetchFails(name)))
      ensures name in tables && FetchFails(name) !in faults ==> r == Ok(tables[name].rows)
    {
      if name !in tables {
        r := Err(CollectionNotFound(name));
      } else if FetchFails(name) in faults {
        r := Err(Failed(FetchFails(name)));
      } else {
        r := Ok(tables[name].rows);
      }
    }

    /** `app.FindCollectionByNameOrId(name)`, looked up by name. */
    method FindCollection(name: string) returns (r: Result<Collection, StoreError>)
      ensures name in tables ==> r == Ok(tables[name].schema)
      ensures name !in tables ==> r == Err(CollectionNotFound(name))
    {
      if name in tables {
        r := Ok(tables[name].schema);
      } else {
        r := Err(CollectionNotFound(name));
      }
    }

    /** `app.DB().Delete(name, nil).Execute()`: every row of the table. */
    method DeleteRows(name: string) returns (err: Option<StoreError>)
      requires Valid()
      modifies this`tables
      ensures Valid()
      ensures err == DeleteError(old(tables), faults, name)
      ensures err.Some? ==> tables == old(tables)
      ensures err.None? ==> tables == old(tables)[name := Table(old(tables)[name].schema, [])]
    {
      err := DeleteError(tables, faults, name);
      if err.None? {
        tables := tables[name := Table(tables[name].schema, [])];
      }
    }

    /** `app.Save(record)` when `validate`, else `app.SaveNoValidate(record)`:
        the record is inserted into its collection's table. */
    method Save(r: Record, validate: bool) returns (err: Option<StoreError>)
      requires Valid()
      modifies this`tables
      ensures Valid()
      ensures err == SaveError(old(tables), faults, r, validate)
      ensures err.Some? ==> tables == old(tables)
      ensures err.None? ==> tables == old(tables)[r.collection.name := Table(old(tables)[r.collection.name].schema, old(tables)[r.collection.name].rows + [r.(isNew := false)])]
    {
      err := SaveError(tables, faults, r, validate);
      if err.None? {
        var t := tables[r.collection.name];
        tables := tables[r.collection.name := Table(t.schema, t.rows + [r.(isNew := false)])];
      }
    }

    /** `app.ImportCollections(docs, deleteMissing)`: the request is kept;
        the merge it performs is the store's own. */
    method ImportCollections(docs: seq<Doc>, deleteMissing: bool) returns (err: Option<StoreError>)
      modifies this`imports
      ensures ImportFails in faults ==> err == Some(Failed(ImportFails)) && imports == old(imports)
      ensures ImportFails !in faults ==> err == None && imports == old(imports) + [ImportCall(docs, deleteMissing)]
    {
      if ImportFails in faults {
        err := Some(Failed(ImportFails));
      } else {
        imports := imports + [ImportCall(docs, deleteMissing)];
        err := None;
      }
    }
  }

  function DeleteError(tables: map<string, Table>, faults: set<Fault>, name: string): (err: Option<StoreError>)
    ensures err.None? ==> name in tables
  {
    if name !in tables then Some(CollectionNotFound(name))
    else if DeleteFails(name) in faults then Some(Failed(DeleteFails(name)))
    else None
  }

  /** Why a save fails, if it does: no such table, a write fault, the
      validator rejecting the record (only when validating), or a row with
      the same id already stored. */
  function SaveError(tables: map<string, Table>, faults: set<Fault>, r: Record, validate: bool): (err: Option<StoreError>)
    ensures err.None? ==> r.collection.name in tables
    ensures err.None? && validate ==> Rejects(r.collection.name) !in faults
  {
    var name := r.collection.name;
    if name !in tables then Some(CollectionNotFound(name))
    else if WriteFails(name) in faults then Some(Failed(WriteFails(name)))
    else if validate && Rejects(name) in faults then Some(Failed(Rejects(name)))
    else if exists i :: 0 <= i < |tables[name].rows| && Id(tables[name].rows[i]) == Id(r) then Some(DuplicateId(name, Id(r)))
    else None
  }
}
