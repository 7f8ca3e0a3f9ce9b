/**
 * The `export records` command of export_records.go: validate, pick the
 * records codec, select the collections, confirm, prepare the records
 * directory and write one file per non-view collection.
 */
module ExportRecords {
  import opened Wrappers
  import opened Text
  import opened Model
  import opened Files
  import opened Store
  import opened Errors
  import opened Handlers
  import Common
  import opened Plugins

  const WipeWarning := "Warning: This will delete all the contents of the directory!"

  /** Go's `%q` of a path holding no quote, backslash or control character. */
  function Quote(s: string): string {
    "\"" + s + "\""
  }

  /** The question asked before exporting: the wipe warning is given
      exactly when no collection is named, which is when the directory is
      wiped; otherwise the names are listed. */
  function ExportPrompt(dir: string, names: seq<string>): string {
    if names == [] then
      "Do you really want to export records from all collections to " + Quote(dir) + "?\n" + WipeWarning
    else
      "Do you really want to export records from the listed collections to " + Quote(dir) + "?\nCollections: " + Join(names, ", ")
  }

  predicate HasName(selected: seq<Collection>, name: string) {
    exists i :: 0 <= i < |selected| && selected[i].name == name
  }

  /** The requested names that no selected collection has, in request
      order. */
  function NotExisting(names: seq<string>, selected: seq<Collection>): (r: seq<string>)
    ensures |r| <= |names|
    ensures forall n :: n in r <==> n in names && !HasName(selected, n)
  {
    if names == [] then []
    else (if HasName(selected, names[0]) then [] else [names[0]]) + NotExisting(names[1..], selected)
  }

  /** The selection checks as export_records.go:62-83 makes them: with
      names given, nothing selected is an error naming them all; nothing
      selected at all is an error; with names given, a count that differs
      from the number of names is an error listing the missing ones. */
  function SelectionErrorAsWritten(names: seq<string>, selected: seq<Collection>): (err: Option<Error>)
    ensures err.None? ==> selected != [] && (names != [] ==> |selected| == |names|)
    ensures |names| > 0 && |selected| == 0 ==> err == Some(DoNotExist(names))
    ensures err.Some? && err.value.DoNotExist? ==> forall n :: n in err.value.names ==> n in names && !HasName(selected, n)
  {
    if |names| > 0 && |selected| == 0 then Some(DoNotExist(names))
    else if |selected| == 0 then Some(NoCollectionsToExport)
    else if |names| > 0 && |selected| != |names| then Some(DoNotExist(NotExisting(names, selected)))
    else None
  }

  /** Naming a collection twice fails as written, with an error that lists
      no collection at all. */
  lemma RepeatedNameAsWritten(c: Collection)
    ensures SelectionErrorAsWritten([c.name, c.name], [c]) == Some(DoNotExist([]))
  {
    assert [c][0].name == c.name;
    assert NotExisting([c.name, c.name], [c]) == [];
  }

  /** The selection checks with the count test replaced by the test it
      stands for: some requested name has no selected collection. */
  function SelectionError(names: seq<string>, selected: seq<Collection>): (err: Option<Error>)
    ensures err.None? ==> selected != [] && forall n :: n in names ==> HasName(selected, n)
    ensures |names| > 0 && |selected| == 0 ==> err == Some(DoNotExist(names))
    ensures err.Some? && err.value.DoNotExist? ==> err.value.names != [] && forall n :: n in err.value.names ==> n in names && !HasName(selected, n)
  {
    if |names| > 0 && |selected| == 0 then Some(DoNotExist(names))
    else if |selected| == 0 then Some(NoCollectionsToExport)
    else if |names| > 0 && NotExisting(names, selected) != [] then Some(DoNotExist(NotExisting(names, selected)))
    else None
  }

  ghost predicate Distinct(s: seq<string>) {
    forall i, j :: 0 <= i < j < |s| ==> s[i] != s[j]
  }

  /** Without repeated names the two checks agree, given that the query
      only selects requested collections, each once. */
  lemma SelectionAgrees(names: seq<string>, selected: seq<Collection>)
    requires Distinct(names) && DistinctNames(selected)
    requires |names| > 0 ==> forall i :: 0 <= i < |selected| ==> selected[i].name in names
    ensures SelectionError(names, selected) == SelectionErrorAsWritten(names, selected)
  {
    if |names| > 0 && |selected| > 0 {
      var requested := set n | n in names;
      var found := set i | 0 <= i < |selected| :: selected[i].name;
      assert found <= requested;
      SizeOfNames(names);
      SizeOfSelected(selected);
      if NotExisting(names, selected) == [] {
        assert requested <= found;
        assert requested == found;
      } else {
        var n := NotExisting(names, selected)[0];
        assert n in requested - found;
        assert |requested| == |found| + |requested - found|;
      }
    }
  }

  lemma {:induction false} SizeOfNames(names: seq<string>)
    requires Distinct(names)
    ensures |set n | n in names| == |names|
  {
    if names != [] {
      assert Distinct(names[1..]);
      SizeOfNames(names[1..]);
      assert (set n | n in names) == (set n | n in names[1..]) + {names[0]};
    }
  }

  lemma {:induction false} SizeOfSelected(selected: seq<Collection>)
    requires DistinctNames(selected)
    ensures |set i | 0 <= i < |selected| :: selected[i].name| == |selected|
  {
    if selected != [] {
      var rest := selected[1..];
      assert DistinctNames(rest);
      SizeOfSelected(rest);
      var all := set i | 0 <= i < |selected| :: selected[i].name;
      var later := set i | 0 <= i < |rest| :: rest[i].name;
      assert all == later + {selected[0].name} by {
        forall x | x in all
          ensures x in later + {selected[0].name}
        {
          var i :| 0 <= i < |selected| && selected[i].name == x;
          if i > 0 {
            assert rest[i - 1].name == x;
          }
        }
      }
      assert selected[0].name !in later;
    }
  }

  /** The records handler the flag names, if the registry has one. */
  ghost predicate HasRecordsHandler(p: Plugin, reg: Registry)
    reads p, p.recordsEncoding, reg
  {
    p.recordsEncoding != null && p.recordsEncoding.value in reg.handlers && IsRecordsHandler(reg.handlers[p.recordsEncoding.value])
  }

  /** The collections the query selects. */
  ghost function Selected(p: Plugin, app: App, names: seq<string>): seq<Collection>
    reads p, app
  {
    Query(app.tables, app.order, names, p.system)
  }

  /** Every check before the question passes. */
  ghost predicate ChecksPass(p: Plugin, reg: Registry, app: App, names: seq<string>)
    reads p, p.collectionsEncoding, p.recordsEncoding, reg, app
    reads if p.collectionsEncoding != null then {p.collectionsEncoding.options} else {}
    reads if p.recordsEncoding != null then {p.recordsEncoding.options} else {}
  {
    && p.EncodingsValid()
    && HasRecordsHandler(p, reg)
    && QueryFails !in app.faults
    && SelectionErrorAsWritten(names, Selected(p, app, names)).None?
  }

  /** The files the export writes: one per selected non-view collection. */
  ghost function Targets(dir: Path, ext: string, selected: seq<Collection>): set<Path> {
    set c | c in selected && c.kind != View :: dir + [FileName(c.name, ext)]
  }

  /** A file written by handler `h` for `rows`: it holds their encoding
      whenever the encoder succeeds; after a failed encoder it holds
      whatever the encoder wrote before failing. */
  ghost predicate Holds(entries: map<Path, Entry>, path: Path, h: Handler, rows: seq<Record>)
    requires IsRecordsHandler(h)
  {
    path in entries && entries[path].File? && (EncodeSucceeds(h, rows) ==> EncodesRecords(h, rows, entries[path].content))
  }

  /** The errors the write loop can report: the store's and the file
      system's, never the encoder's. */
  predicate LoopError(e: Error) {
    e.Db? || e.Fs?
  }

  /** The directory after the write loop succeeds: one file per selected
      non-view collection, holding the encoding of its rows where the
      encoder succeeded, added to what was there, and nothing else
      changed. */
  ghost predicate Written(before: map<Path, Entry>, after: map<Path, Entry>, dir: Path, ext: string,
                          h: Handler, selected: seq<Collection>, tables: map<string, Table>)
    requires IsRecordsHandler(h)
  {
    && after.Keys == before.Keys + Targets(dir, ext, selected)
    && (forall q :: q in before && q !in Targets(dir, ext, selected) ==> after[q] == before[q])
    && (forall c :: c in selected && c.kind != View ==>
          c.name in tables && Holds(after, dir + [FileName(c.name, ext)], h, tables[c.name].rows))
  }

  /** The directory after a successful export: the prepared directory
      (wiped first when `wipe`) with the exported files written into it. */
  ghost predicate Exported(before: map<Path, Entry>, after: map<Path, Entry>, dir: Path, wipe: bool,
                           ext: string, h: Handler, selected: seq<Collection>, tables: map<string, Table>)
    requires IsRecordsHandler(h)
  {
    Written(WithDirs(if wipe then Removed(before, dir) else before, dir), after, dir, ext, h, selected, tables)
  }

  /** The `RunE` body of `ExportRecordsCommand`. */
  method ExportRecords(p: Plugin, reg: Registry, app: App, fs: FileSystem, names: seq<string>, stdin: seq<string>)
    returns (err: Option<Error>)
    requires p.RadiosValid() && reg.Ready() && app.Valid()
    modifies fs
    ensures !p.EncodingsValid() ==> err.Some? && err.value.Invalid? && fs.entries == old(fs.entries)
    ensures p.EncodingsValid() && !HasRecordsHandler(p, reg) ==> err == Some(NoRecordsHandler) && fs.entries == old(fs.entries)
    ensures p.EncodingsValid() && HasRecordsHandler(p, reg) && QueryFails in app.faults ==>
              err == Some(Db(Failed(QueryFails))) && fs.entries == old(fs.entries)
    ensures p.EncodingsValid() && HasRecordsHandler(p, reg) && QueryFails !in app.faults &&
            SelectionErrorAsWritten(names, Selected(p, app, names)).Some? ==>
              err == SelectionErrorAsWritten(names, Selected(p, app, names)) && fs.entries == old(fs.entries)
    ensures ChecksPass(p, reg, app, names) && !Common.Decide(stdin, false) ==> err == None && fs.entries == old(fs.entries)
    ensures OutsideUnchanged(old(fs.entries), fs.entries, p.recordsDir)
    ensures names != [] ==> old(fs.entries).Keys <= fs.entries.Keys
    ensures ChecksPass(p, reg, app, names) && Common.Decide(stdin, false) && err.None? ==>
              Exported(old(fs.entries), fs.entries, p.recordsDir, names == [], p.recordsEncoding.value,
                       reg.handlers[p.recordsEncoding.value], Selected(p, app, names), app.tables)
  {
    var errs := p.Validate();
    if errs != map[] {
      return Some(Invalid(errs));
    }
    var ext := p.recordsEncoding.String();
    if ext !in reg.handlers || !IsRecordsHandler(reg.handlers[ext]) {
      return Some(NoRecordsHandler);
    }
    var h := reg.handlers[ext];
    if QueryFails in app.faults {
      return Some(Db(Failed(QueryFails)));
    }
    var selected := Query(app.tables, app.order, names, p.system);
    var selErr := SelectionErrorAsWritten(names, selected);
    if selErr.Some? {
      return selErr;
    }
    QueryConsistent(app.tables, app.order, names, p.system);
    err := ConfirmExport(h, ext, p.recordsDir, names, selected, app, fs, stdin);
  }

  /** The question, then the export if the answer is yes. */
  method ConfirmExport(h: Handler, ext: string, dir: Path, names: seq<string>, selected: seq<Collection>,
                       app: App, fs: FileSystem, stdin: seq<string>)
    returns (err: Option<Error>)
    requires IsRecordsHandler(h) && (h.Csv? ==> h.plugin.delimiter != "")
    requires FromTables(app.tables, app.order, selected) && DistinctNames(selected)
    modifies fs
    ensures !Common.Decide(stdin, false) ==> err == None && fs.entries == old(fs.entries)
    ensures OutsideUnchanged(old(fs.entries), fs.entries, dir)
    ensures names != [] ==> old(fs.entries).Keys <= fs.entries.Keys
    ensures Common.Decide(stdin, false) && err.None? ==>
              Exported(old(fs.entries), fs.entries, dir, names == [], ext, h, selected, app.tables)
  {
    var yes, _ := Common.Confirm(ExportPrompt(PathString(dir), names), false, stdin);
    if !yes {
      return None;
    }
    err := Export(h, ext, dir, names == [], selected, app, fs);
  }

  /** What follows the confirmation: the directory is wiped when `wipe`,
      created, and the selected collections written into it. */
  method Export(h: Handler, ext: string, dir: Path, wipe: bool, selected: seq<Collection>, app: App, fs: FileSystem)
    returns (err: Option<Error>)
    requires IsRecordsHandler(h) && (h.Csv? ==> h.plugin.delimiter != "")
    requires FromTables(app.tables, app.order, selected) && DistinctNames(selected)
    modifies fs
    ensures OutsideUnchanged(old(fs.entries), fs.entries, dir)
    ensures !wipe ==> old(fs.entries).Keys <= fs.entries.Keys
    ensures err.None? ==> Exported(old(fs.entries), fs.entries, dir, wipe, ext, h, selected, app.tables)
  {
    if wipe {
      fs.RemoveAll(dir);
    }
    var mkErr := fs.MkdirAll(dir);
    if mkErr.Some? {
      return Some(Fs(mkErr.value));
    }
    err := WriteAll(h, ext, dir, selected, app, fs);
  }

  /** The loop of export_records.go over the selected collections: views
      are skipped, every other collection's rows are encoded into
      `<dir>/<name>.<ext>`; the first failure to read the rows or create
      the file ends the loop, while an encoder failure does not. */
  method WriteAll(h: Handler, ext: string, dir: Path, selected: seq<Collection>, app: App, fs: FileSystem)
    returns (err: Option<Error>)
    requires IsRecordsHandler(h) && (h.Csv? ==> h.plugin.delimiter != "")
    requires FromTables(app.tables, app.order, selected) && DistinctNames(selected)
    modifies fs
    ensures OutsideUnchanged(old(fs.entries), fs.entries, dir)
    ensures old(fs.entries).Keys <= fs.entries.Keys
    ensures err.Some? ==> LoopError(err.value)
    ensures err.None? ==> Written(old(fs.entries), fs.entries, dir, ext, h, selected, app.tables)
  {
    for i := 0 to |selected|
      invariant fs.entries.Keys == old(fs.entries).Keys + Targets(dir, ext, selected[..i])
      invariant forall q :: q in old(fs.entries) && q !in Targets(dir, ext, selected[..i]) ==> fs.entries[q] == old(fs.entries)[q]
      invariant forall k :: 0 <= k < i && selected[k].kind != View ==>
                  Holds(fs.entries, dir + [FileName(selected[k].name, ext)], h, app.tables[selected[k].name].rows)
    {
      var c := selected[i];
      assert selected[..i + 1] == selected[..i] + [c];
      if c.kind == View {
        assert Targets(dir, ext, selected[..i + 1]) == Targets(dir, ext, selected[..i]);
        continue;
      }
      err := WriteOne(h, ext, dir, c.name, app, fs);
      if err.Some? {
        return;
      }
      NewTarget(dir, ext, selected, i);
    }
    assert selected[..|selected|] == selected;
    err := None;
  }

  /** A written collection adds its own file to the targets, a file no
      earlier collection of distinct name has. */
  lemma NewTarget(dir: Path, ext: string, selected: seq<Collection>, i: nat)
    requires i < |selected| && selected[i].kind != View && DistinctNames(selected)
    ensures Targets(dir, ext, selected[..i + 1]) == Targets(dir, ext, selected[..i]) + {dir + [FileName(selected[i].name, ext)]}
    ensures forall k :: 0 <= k < i ==> dir + [FileName(selected[k].name, ext)] != dir + [FileName(selected[i].name, ext)]
  {
    var path := dir + [FileName(selected[i].name, ext)];
    assert selected[..i + 1] == selected[..i] + [selected[i]];
    forall k | 0 <= k < i
      ensures dir + [FileName(selected[k].name, ext)] != path
    {
      if dir + [FileName(selected[k].name, ext)] == path {
        assert (dir + [FileName(selected[k].name, ext)])[|dir|] == path[|dir|];
        FileNameInjective(selected[k].name, selected[i].name, ext);
      }
    }
  }

  /** One iteration of the loop: the rows of collection `name` are
      fetched and encoded into `<dir>/<name>.<ext>`. The closure returns
      the close result, which replaces the encoder's error, so a failed
      encoding is not reported. Whatever happens, no other path changes. */
  method WriteOne(h: Handler, ext: string, dir: Path, name: string, app: App, fs: FileSystem)
    returns (err: Option<Error>)
    requires IsRecordsHandler(h) && (h.Csv? ==> h.plugin.delimiter != "")
    modifies fs
    ensures old(fs.entries).Keys <= fs.entries.Keys <= old(fs.entries).Keys + {dir + [FileName(name, ext)]}
    ensures forall q :: q in old(fs.entries) && q != dir + [FileName(name, ext)] ==> fs.entries[q] == old(fs.entries)[q]
    ensures err.Some? ==> LoopError(err.value)
    ensures err.None? ==> name in app.tables && Holds(fs.entries, dir + [FileName(name, ext)], h, app.tables[name].rows)
  {
    var found := app.FindAllRecords(name);
    if found.Err? {
      return Some(Db(found.error));
    }
    var path := dir + [FileName(name, ext)];
    var createErr := fs.Create(path);
    if createErr.Some? {
      return Some(Fs(createErr.value));
    }
    var encoded := Handlers.EncodeRecords(h, found.value);
    var written: Content;
    if encoded.Ok? {
      written := encoded.value;
    } else {
      written :| true;
    }
    fs.Write(path, written);
    err := CloseResultAsWritten(if encoded.Err? then Some(encoded.error) else None, None);
  }

  /** The result of the closure around `EncodeRecords` as written: the
      deferred `err = file.Close()` assigns the named result after the
      return value is set, so the close result replaces the encoder's. */
  function CloseResultAsWritten(encodeErr: Option<Error>, closeErr: Option<Error>): Option<Error> {
    closeErr
  }

  /** An encoder failure followed by a clean close is lost as written. */
  lemma EncodeErrorLostAsWritten(e: Error)
    ensures CloseResultAsWritten(Some(e), None) == None
  {
  }

  /** The closure's result with the encoder's error kept: it is reported
      unless the close fails as well. */
  function CloseResult(encodeErr: Option<Error>, closeErr: Option<Error>): (err: Option<Error>)
    ensures encodeErr.Some? ==> err == encodeErr
    ensures encodeErr.None? ==> err == closeErr
  {
    if encodeErr.Some? then encodeErr else closeErr
  }
}
