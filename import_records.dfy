/**
 * The `import records` command of import_records.go: validate, pick the
 * records codec, confirm, back up, then walk the records directory and
 * load every matching file into the collection its name gives, emptying
 * that collection first unless told not to.
 */
module ImportRecords {
  import opened Wrappers
  import opened Text
  import opened Model
  import opened Files
  import opened Store
  import opened Errors
  import opened Handlers
  import Common
  import opened Plugins
  import ExportRecords

  const BackupBase := "import_records"
  const DeleteWarning := "\nWarning this will delete all current records in these collections!"

  /** The question asked before importing; the delete warning is appended
      unless `noDelete`. */
  function ImportPrompt(dir: string, names: seq<string>, noDelete: bool): string {
    (if names == [] then
       "Do you really want to import records from data files in " + ExportRecords.Quote(dir) + "?"
     else
       "Do you really want to import records to the listed collections to " + ExportRecords.Quote(dir) + "?\nCollections: " + Join(names, ", "))
    + (if noDelete then "" else DeleteWarning)
  }

  /** What the random generators yield for one record: an id matching
      `[a-z0-9]{15}`, a 30-character password and a 50-character token
      key, both alphanumeric. */
  datatype Draw = Draw(id: string, password: string, tokenKey: string)

  predicate LowerAlnum(c: char) {
    'a' <= c <= 'z' || '0' <= c <= '9'
  }

  predicate Alnum(c: char) {
    LowerAlnum(c) || 'A' <= c <= 'Z'
  }

  ghost predicate WellFormed(d: Draw) {
    && |d.id| == 15 && (forall i :: 0 <= i < |d.id| ==> LowerAlnum(d.id[i]))
    && |d.password| == 30 && (forall i :: 0 <= i < |d.password| ==> Alnum(d.password[i]))
    && |d.tokenKey| == 50 && (forall i :: 0 <= i < |d.tokenKey| ==> Alnum(d.tokenKey[i]))
  }

  /** `override` applied to the field `name`, when set. */
  function Override(data: map<string, Value>, name: string, override: Option<bool>): map<string, Value> {
    if override.Some? then data[name := Bool(override.value)] else data
  }

  /** The preparation of a decoded record before it is saved: it is marked
      new; an empty id is replaced by a drawn one; an auth record gets a
      drawn password whose plain text is dropped, a fresh token key, and
      the verified and email-visibility overrides that are set. */
  function FixUp(r: Record, d: Draw, verified: Option<bool>, visibility: Option<bool>): (f: Record)
    ensures f.isNew && f.collection == r.collection
    ensures Id(r) != "" ==> Get(f, IdName) == Get(r, IdName)
    ensures Id(r) == "" ==> Id(f) == d.id
    ensures r.collection.kind != Auth ==> forall n :: n != IdName ==> Get(f, n) == Get(r, n)
    ensures r.collection.kind == Auth ==>
              && Get(f, PasswordName) == Password("", d.password)
              && Get(f, TokenKeyName) == Str(d.tokenKey)
              && Get(f, VerifiedName) == (if verified.Some? then Bool(verified.value) else Get(r, VerifiedName))
              && Get(f, EmailVisibilityName) == (if visibility.Some? then Bool(visibility.value) else Get(r, EmailVisibilityName))
              && forall n :: n !in {IdName, PasswordName, TokenKeyName, VerifiedName, EmailVisibilityName} ==> Get(f, n) == Get(r, n)
  {
    var withId := if Id(r) == "" then r.data[IdName := Str(d.id)] else r.data;
    var data :=
      if r.collection.kind == Auth then
        var secured := withId[PasswordName := Password("", d.password)][TokenKeyName := Str(d.tokenKey)];
        Override(Override(secured, VerifiedName, verified), EmailVisibilityName, visibility)
      else withId;
    Record(r.collection, data, true)
  }

  /** Every prepared record has an id, drawn when it had none. */
  lemma FixUpHasId(r: Record, d: Draw, verified: Option<bool>, visibility: Option<bool>)
    requires WellFormed(d)
    ensures Id(FixUp(r, d, verified, visibility)) != ""
  {
    if Id(r) != "" {
      assert Get(FixUp(r, d, verified, visibility), IdName) == Get(r, IdName);
    }
  }

  /** The records of one file, each prepared with the draw of its place. */
  function Fixed(records: seq<Record>, draws: nat -> Draw, k: nat, verified: Option<bool>, visibility: Option<bool>): (fixed: seq<Record>)
    ensures |fixed| == |records|
    ensures forall j :: 0 <= j < |records| ==> fixed[j] == FixUp(records[j], draws(k + j), verified, visibility)
  {
    seq(|records|, j requires 0 <= j < |records| => FixUp(records[j], draws(k + j), verified, visibility))
  }

  /** `r` inserted into its collection's table. */
  function Insert(tables: map<string, Table>, r: Record): map<string, Table> {
    var n := r.collection.name;
    if n in tables then tables[n := Table(tables[n].schema, tables[n].rows + [r.(isNew := false)])] else tables
  }

  /** The same collections with the same schemas. */
  ghost predicate SameShape(before: map<string, Table>, after: map<string, Table>) {
    before.Keys == after.Keys && forall n :: n in before ==> after[n].schema == before[n].schema
  }

  predicate Targets(rs: seq<Record>, n: string) {
    exists j :: 0 <= j < |rs| && rs[j].collection.name == n
  }

  /** The tables once the records are inserted one after the other. Only
      the tables of the records' collections change, and only by growing. */
  ghost function Appended(tables: map<string, Table>, rs: seq<Record>): (after: map<string, Table>)
    ensures SameShape(tables, after)
    decreases |rs|
  {
    if rs == [] then tables
    else Insert(Appended(tables, rs[..|rs| - 1]), rs[|rs| - 1])
  }

  /** One more record inserted extends the appended prefix by one. */
  lemma AppendedStep(tables: map<string, Table>, rs: seq<Record>, i: nat)
    requires i < |rs|
    ensures Appended(tables, rs[..i + 1]) == Insert(Appended(tables, rs[..i]), rs[i])
  {
    assert rs[..i + 1][..i] == rs[..i];
  }

  /** A table no record is for is left as it was. */
  lemma {:induction false} AppendedElsewhere(tables: map<string, Table>, rs: seq<Record>, n: string)
    requires n in tables && !Targets(rs, n)
    ensures Appended(tables, rs)[n] == tables[n]
  {
    if rs != [] {
      var init := rs[..|rs| - 1];
      forall j | 0 <= j < |init|
        ensures init[j].collection.name != n
      {
        assert init[j] == rs[j];
      }
      AppendedElsewhere(tables, init, n);
      assert rs[|rs| - 1].collection.name != n;
    }
  }

  /** The rows a sequence of saved records leaves: the records themselves,
      no longer new. */
  function Saved(rs: seq<Record>): (rows: seq<Record>)
    ensures |rows| == |rs|
    ensures forall j :: 0 <= j < |rs| ==> rows[j] == rs[j].(isNew := false)
  {
    seq(|rs|, j requires 0 <= j < |rs| => rs[j].(isNew := false))
  }

  /** Records of one collection are appended to its table, in order. */
  lemma {:induction false} AppendedToOne(tables: map<string, Table>, rs: seq<Record>, n: string)
    requires n in tables
    requires forall j :: 0 <= j < |rs| ==> rs[j].collection.name == n
    ensures Appended(tables, rs) == tables[n := Table(tables[n].schema, tables[n].rows + Saved(rs))]
  {
    if rs == [] {
      assert tables[n].rows + Saved(rs) == tables[n].rows;
      assert tables[n := Table(tables[n].schema, tables[n].rows)] == tables;
    } else {
      var init := rs[..|rs| - 1];
      var last := rs[|rs| - 1];
      AppendedToOne(tables, init, n);
      var schema, rows := tables[n].schema, tables[n].rows;
      var before := Appended(tables, init);
      assert before == tables[n := Table(schema, rows + Saved(init))];
      SavedSnoc(rs);
      assert rows + Saved(rs) == (rows + Saved(init)) + [last.(isNew := false)];
      assert Insert(before, last) == before[n := Table(schema, rows + Saved(rs))];
    }
  }

  /** One more record saved is one more row. */
  lemma SavedSnoc(rs: seq<Record>)
    requires rs != []
    ensures Saved(rs) == Saved(rs[..|rs| - 1]) + [rs[|rs| - 1].(isNew := false)]
  {
  }

  /** The tables a file starts from: its collection emptied unless
      `noDelete`. */
  function Base(tables: map<string, Table>, name: string, noDelete: bool): map<string, Table>
    requires name in tables
  {
    if noDelete then tables else tables[name := Table(tables[name].schema, [])]
  }

  /** Importing a file replaces its collection's rows by the file's
      records, or appends them with `noDelete`, when the records belong to
      that collection. */
  lemma ImportSemantics(tables: map<string, Table>, name: string, noDelete: bool, fixed: seq<Record>)
    requires name in tables
    requires forall j :: 0 <= j < |fixed| ==> fixed[j].collection.name == name
    ensures !noDelete ==> Appended(Base(tables, name, noDelete), fixed)[name].rows == Saved(fixed)
    ensures noDelete ==> Appended(Base(tables, name, noDelete), fixed)[name].rows == tables[name].rows + Saved(fixed)
    ensures forall m :: m in tables && m != name ==> Appended(Base(tables, name, noDelete), fixed)[m] == tables[m]
  {
    AppendedToOne(Base(tables, name, noDelete), fixed, name);
  }

  /** The decoder gives records of the collection it is handed. */
  ghost predicate KeepsCollection(h: Handler)
    requires IsRecordsHandler(h)
  {
    forall c, content :: DecodeRecordsWith(h, c, content).Ok? ==>
      forall j :: 0 <= j < |DecodeRecordsWith(h, c, content).value| ==> DecodeRecordsWith(h, c, content).value[j].collection == c
  }

  /** The CSV decoder keeps the collection. */
  lemma CsvKeepsCollection(h: Handler)
    requires h.Csv?
    ensures KeepsCollection(h)
  {
    forall c, content | DecodeRecordsWith(h, c, content).Ok?
      ensures forall j :: 0 <= j < |DecodeRecordsWith(h, c, content).value| ==> DecodeRecordsWith(h, c, content).value[j].collection == c
    {
      assert DecodeRecordsWith(h, c, content).value == CsvCodec.DecodeRowsAsWritten(c, content).value;
    }
  }

  /** An empty file read by the CSV handler is `io.EOF`: the import of a
      collection exported with no records stops there, after its rows were
      deleted (see `ImportFile`). */
  lemma EmptyCsvFileFails(h: Handler, c: Collection)
    requires h.Csv?
    ensures DecodeRecordsWith(h, c, Rows([])) == Err(CsvFailed(CsvCodec.Eof))
  {
  }

  /** The loop over a file's records: each is prepared and saved; the
      first failed save ends it. `saved` counts the records stored. */
  method SaveAll(app: App, records: seq<Record>, validate: bool, draws: nat -> Draw, k: nat,
                 verified: Option<bool>, visibility: Option<bool>)
    returns (err: Option<Error>, ghost saved: nat)
    requires app.Valid()
    modifies app`tables
    ensures app.Valid()
    ensures saved <= |records|
    ensures app.tables == Appended(old(app.tables), Fixed(records, draws, k, verified, visibility)[..saved])
    ensures err.None? <==> saved == |records|
    ensures err.Some? ==>
              err.value.Db? && Some(err.value.db) == SaveError(app.tables, app.faults, Fixed(records, draws, k, verified, visibility)[saved], validate)
  {
    ghost var fixed := Fixed(records, draws, k, verified, visibility);
    saved := 0;
    for i := 0 to |records|
      invariant app.Valid()
      invariant app.tables == Appended(old(app.tables), fixed[..i])
    {
      var record := FixUp(records[i], draws(k + i), verified, visibility);
      assert record == fixed[i];
      ghost var before := app.tables;
      var saveErr := app.Save(record, validate);
      if saveErr.Some? {
        saved := i;
        return Some(Db(saveErr.value)), saved;
      }
      assert app.tables == Insert(before, record);
      AppendedStep(old(app.tables), fixed, i);
    }
    assert fixed[..|records|] == fixed;
    saved := |records|;
    err := None;
  }

  /** The work done for one selected file of collection `c`: its rows are
      deleted unless `noDelete`, the file is decoded and its records saved.
      `count` is the number of records decoded. */
  method ImportFile(app: App, h: Handler, c: Collection, content: Content, noDelete: bool, validate: bool,
                    draws: nat -> Draw, k: nat, verified: Option<bool>, visibility: Option<bool>)
    returns (err: Option<Error>, count: nat)
    requires app.Valid() && IsRecordsHandler(h) && (h.Csv? ==> h.plugin.delimiter != "")
    requires c.name in app.tables
    modifies app`tables
    ensures app.Valid() && SameShape(old(app.tables), app.tables)
    ensures err.None? ==>
              && DecodeRecordsWith(h, c, content).Ok?
              && count == |DecodeRecordsWith(h, c, content).value|
              && app.tables == Appended(Base(old(app.tables), c.name, noDelete),
                                        Fixed(DecodeRecordsWith(h, c, content).value, draws, k, verified, visibility))
    ensures KeepsCollection(h) ==> forall n :: n in old(app.tables) && n != c.name ==> app.tables[n] == old(app.tables)[n]
    ensures !noDelete && DeleteError(old(app.tables), app.faults, c.name).Some? ==>
              err == Some(Db(DeleteError(old(app.tables), app.faults, c.name).value)) && app.tables == old(app.tables)
    ensures (noDelete || DeleteError(old(app.tables), app.faults, c.name).None?) && DecodeRecordsWith(h, c, content).Err? ==>
              err == Some(DecodeRecordsWith(h, c, content).error) && app.tables == Base(old(app.tables), c.name, noDelete)
  {
    if !noDelete {
      var delErr := app.DeleteRows(c.name);
      if delErr.Some? {
        return Some(Db(delErr.value)), 0;
      }
    }
    assert app.tables == Base(old(app.tables), c.name, noDelete);
    err, count := DecodeAndSave(app, h, c, content, validate, draws, k, verified, visibility);
  }

  /** The file decoded for collection `c` and its records saved. */
  method DecodeAndSave(app: App, h: Handler, c: Collection, content: Content, validate: bool,
                       draws: nat -> Draw, k: nat, verified: Option<bool>, visibility: Option<bool>)
    returns (err: Option<Error>, count: nat)
    requires app.Valid() && IsRecordsHandler(h) && (h.Csv? ==> h.plugin.delimiter != "")
    modifies app`tables
    ensures app.Valid() && SameShape(old(app.tables), app.tables)
    ensures err.None? ==>
              && DecodeRecordsWith(h, c, content).Ok?
              && count == |DecodeRecordsWith(h, c, content).value|
              && app.tables == Appended(old(app.tables), Fixed(DecodeRecordsWith(h, c, content).value, draws, k, verified, visibility))
    ensures KeepsCollection(h) ==> forall n :: n in old(app.tables) && n != c.name ==> app.tables[n] == old(app.tables)[n]
    ensures DecodeRecordsWith(h, c, content).Err? ==> err == Some(DecodeRecordsWith(h, c, content).error) && app.tables == old(app.tables)
  {
    var decoded := Handlers.DecodeRecords(h, c, content);
    if decoded.Err? {
      return Some(decoded.error), 0;
    }
    var records := decoded.value;
    count := |records|;
    ghost var saved;
    err, saved := SaveAll(app, records, validate, draws, k, verified, visibility);
    ghost var done := Fixed(records, draws, k, verified, visibility)[..saved];
    if KeepsCollection(h) {
      forall n | n in old(app.tables) && n != c.name
        ensures app.tables[n] == old(app.tables)[n]
      {
        forall j | 0 <= j < |done|
          ensures done[j].collection.name != n
        {
          assert done[j].collection == records[j].collection == c;
        }
        AppendedElsewhere(old(app.tables), done, n);
      }
    }
    if err.None? {
      assert done == Fixed(records, draws, k, verified, visibility);
    }
  }

  /** The file name minus its extension: the collection it is for. */
  function NameOf(p: Path): string
    requires |p| > 0
  {
    TrimSuffix(p[|p| - 1], Ext(p[|p| - 1]))
  }

  /** The walk callback goes past `p` unless it is a file with the codec's
      extension whose collection is wanted. */
  predicate Chosen(entries: map<Path, Entry>, p: Path, ext: string, names: seq<string>) {
    && p in entries && entries[p].File?
    && |p| > 0 && Ext(p[|p| - 1]) == "." + ext
    && (names == [] || NameOf(p) in names)
  }

  /** The collections the chosen files among `paths` are for. */
  ghost function Touched(entries: map<Path, Entry>, paths: set<Path>, ext: string, names: seq<string>): set<string> {
    set p | p in paths && Chosen(entries, p, ext, names) :: NameOf(p)
  }

  /** The walk callback over the listed paths, in order; the first error
      ends the walk. `walked` is the set of listed paths. */
  method ImportAll(app: App, h: Handler, entries: map<Path, Entry>, paths: seq<Path>, ghost walked: set<Path>,
                   names: seq<string>, noDelete: bool, validate: bool, draws: nat -> Draw,
                   verified: Option<bool>, visibility: Option<bool>)
    returns (err: Option<Error>)
    requires app.Valid() && IsRecordsHandler(h) && (h.Csv? ==> h.plugin.delimiter != "")
    requires forall q :: q in paths ==> q in walked
    modifies app`tables
    ensures app.Valid() && SameShape(old(app.tables), app.tables)
    ensures err.None? ==> forall q :: q in paths && Chosen(entries, q, FileExtension(h), names) ==> NameOf(q) in old(app.tables)
    ensures KeepsCollection(h) ==>
              forall n :: n in old(app.tables) && n !in Touched(entries, walked, FileExtension(h), names) ==>
                app.tables[n] == old(app.tables)[n]
  {
    var ext := FileExtension(h);
    var k := 0;
    for i := 0 to |paths|
      invariant app.Valid() && SameShape(old(app.tables), app.tables)
      invariant forall q :: q in paths[..i] && Chosen(entries, q, ext, names) ==> NameOf(q) in old(app.tables)
      invariant KeepsCollection(h) ==>
                  forall n :: n in old(app.tables) && n !in Touched(entries, walked, ext, names) ==>
                    app.tables[n] == old(app.tables)[n]
    {
      var path := paths[i];
      assert paths[..i + 1] == paths[..i] + [path];
      if !Chosen(entries, path, ext, names) {
        continue;
      }
      var name := NameOf(path);
      assert name in Touched(entries, walked, ext, names);
      var found := app.FindCollection(name);
      if found.Err? {
        return Some(Db(found.error));
      }
      var c := found.value;
      assert c.name == name;
      var count;
      err, count := ImportFile(app, h, c, entries[path].content, noDelete, validate, draws, k, verified, visibility);
      if err.Some? {
        return;
      }
      k := k + count;
    }
    assert paths[..|paths|] == paths;
    err := None;
  }

  /** The `RunE` body of `ImportRecordsCommand`. `draws(k)` is the
      randomness spent on the `k`-th record read. */
  method ImportRecords(p: Plugin, reg: Registry, app: App, fs: FileSystem, names: seq<string>, noDelete: bool,
                       stdin: seq<string>, now: Common.Instant, draws: nat -> Draw)
    returns (err: Option<Error>)
    requires p.RadiosValid() && reg.Ready() && app.Valid()
    requires p.overrideVerified != null && p.overrideEmailVisibility != null
    modifies app`tables, app`backups
    ensures app.Valid() && SameShape(old(app.tables), app.tables)
    ensures !p.EncodingsValid() ==> err.Some? && err.value.Invalid? && unchanged(app)
    ensures p.EncodingsValid() && !ExportRecords.HasRecordsHandler(p, reg) ==> err == Some(NoRecordsHandler) && unchanged(app)
    ensures p.EncodingsValid() && ExportRecords.HasRecordsHandler(p, reg) && p.recordsDir !in fs.entries ==>
              err == Some(Fs(NotExist(p.recordsDir))) && unchanged(app)
    ensures p.EncodingsValid() && ExportRecords.HasRecordsHandler(p, reg) && p.recordsDir in fs.entries ==>
              Proceeds(p, reg, app, fs, names, noDelete, stdin, now, old(app.tables), old(app.backups), app.tables, app.backups, err)
  {
    var errs := p.Validate();
    if errs != map[] {
      return Some(Invalid(errs));
    }
    var ext := p.recordsEncoding.String();
    if ext !in reg.handlers || !IsRecordsHandler(reg.handlers[ext]) {
      return Some(NoRecordsHandler);
    }
    var h := reg.handlers[ext];
    if p.recordsDir !in fs.entries {
      return Some(Fs(NotExist(p.recordsDir)));
    }
    err := ConfirmImport(p, h, app, fs, names, noDelete, stdin, now, draws);
  }

  /** What happens once the checks pass: nothing without a yes; else the
      backup when enabled, whose failure stops the import, and the walk,
      which changes only the collections of chosen files when the decoder
      keeps the collection it is given. */
  ghost predicate Proceeds(p: Plugin, reg: Registry, app: App, fs: FileSystem, names: seq<string>, noDelete: bool,
                           stdin: seq<string>, now: Common.Instant,
                           tables0: map<string, Table>, backups0: seq<string>,
                           tables: map<string, Table>, backups: seq<string>, err: Option<Error>)
    reads p, p.recordsEncoding, reg, app, fs
    requires ExportRecords.HasRecordsHandler(p, reg)
  {
    var h := reg.handlers[p.recordsEncoding.value];
    SameShape(tables0, tables) &&
    if !Common.Decide(stdin, false) then
      err == None && tables == tables0 && backups == backups0
    else if p.autoBackup && BackupFails in app.faults then
      err == Some(Db(Failed(BackupFails))) && tables == tables0 && backups == backups0
    else
      && backups == backups0 + (if p.autoBackup then [Common.BackupName(BackupBase, now)] else [])
      && (KeepsCollection(h) ==>
            forall n :: n in tables0 && n !in Touched(fs.entries, WalkedPaths(fs.entries, p.recordsDir), FileExtension(h), names) ==>
              tables[n] == tables0[n])
  }

  method ConfirmImport(p: Plugin, h: Handler, app: App, fs: FileSystem, names: seq<string>, noDelete: bool,
                       stdin: seq<string>, now: Common.Instant, draws: nat -> Draw)
    returns (err: Option<Error>)
    requires app.Valid() && IsRecordsHandler(h) && (h.Csv? ==> h.plugin.delimiter != "")
    requires p.overrideVerified != null && p.overrideEmailVisibility != null
    requires p.recordsDir in fs.entries
    modifies app`tables, app`backups
    ensures app.Valid() && SameShape(old(app.tables), app.tables)
    ensures !Common.Decide(stdin, false) ==> err == None && unchanged(app)
    ensures Common.Decide(stdin, false) && p.autoBackup && BackupFails in app.faults ==>
              err == Some(Db(Failed(BackupFails))) && unchanged(app)
    ensures Common.Decide(stdin, false) && !(p.autoBackup && BackupFails in app.faults) ==>
              && app.backups == old(app.backups) + (if p.autoBackup then [Common.BackupName(BackupBase, now)] else [])
              && (KeepsCollection(h) ==>
                    forall n :: n in old(app.tables) && n !in Touched(fs.entries, WalkedPaths(fs.entries, p.recordsDir), FileExtension(h), names) ==>
                      app.tables[n] == old(app.tables)[n])
  {
    var yes, _ := Common.Confirm(ImportPrompt(PathString(p.recordsDir), names, noDelete), false, stdin);
    if !yes {
      return None;
    }
    err := BackupAndImport(p, h, app, fs, names, noDelete, now, draws);
  }

  /** The backup when enabled, whose failure stops the command, then the
      walk over the records directory. */
  method BackupAndImport(p: Plugin, h: Handler, app: App, fs: FileSystem, names: seq<string>, noDelete: bool,
                         now: Common.Instant, draws: nat -> Draw)
    returns (err: Option<Error>)
    requires app.Valid() && IsRecordsHandler(h) && (h.Csv? ==> h.plugin.delimiter != "")
    requires p.overrideVerified != null && p.overrideEmailVisibility != null
    requires p.recordsDir in fs.entries
    modifies app`tables, app`backups
    ensures app.Valid() && SameShape(old(app.tables), app.tables)
    ensures p.autoBackup && BackupFails in app.faults ==> err == Some(Db(Failed(BackupFails))) && unchanged(app)
    ensures !(p.autoBackup && BackupFails in app.faults) ==>
              && app.backups == old(app.backups) + (if p.autoBackup then [Common.BackupName(BackupBase, now)] else [])
              && (KeepsCollection(h) ==>
                    forall n :: n in old(app.tables) && n !in Touched(fs.entries, WalkedPaths(fs.entries, p.recordsDir), FileExtension(h), names) ==>
                      app.tables[n] == old(app.tables)[n])
  {
    if p.autoBackup {
      var backupErr := app.CreateBackup(Common.BackupName(BackupBase, now));
      if backupErr.Some? {
        return Some(Db(backupErr.value));
      }
    }
    var walked := fs.Walk(p.recordsDir);
    var paths := walked.value;
    err := ImportAll(app, h, fs.entries, paths, WalkedPaths(fs.entries, p.recordsDir), names, noDelete, !p.noValidate, draws,
                     p.overrideVerified.Value(), p.overrideEmailVisibility.Value());
  }
}
