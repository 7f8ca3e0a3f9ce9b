/**
 * The `import collections` command of import_collections.go: validate,
 * pick the collections codec, confirm, back up, walk the collections
 * directory collecting every `.json` file's decoded document, and hand
 * them all to the store's collection import, which deletes collections
 * the documents do not mention.
 */
module ImportCollections {
  import opened Wrappers
  import opened Text
  import opened Model
  import opened Files
  import opened Store
  import opened Errors
  import opened Handlers
  import Common
  import opened Plugins
  import ExportRecords
  import ExportCollections

  const BackupBase := "import_collections"
  const OAuth2Key := "oauth2"
  const JsonExt := ".json"

  /** The question asked before importing. */
  function ImportPrompt(dir: string): string {
    "Do you really want to import collections from " + ExportRecords.Quote(dir)
  }

  /** A decoded document as imported: without its OAuth2 settings unless
      they are included, so that the stored ones are kept. */
  function Strip(doc: Doc, includeOauth2: bool): (r: Doc)
    ensures includeOauth2 ==> r == doc
    ensures !includeOauth2 ==> OAuth2Key !in r
    ensures forall k :: k != OAuth2Key ==> (k in r <==> k in doc) && (k in r ==> r[k] == doc[k])
  {
    if includeOauth2 then doc else doc - {OAuth2Key}
  }

  /** The walk callback reads `p` only when it is a file whose name ends in
      `.json`, whatever the codec's own extension. */
  predicate IsJsonFile(entries: map<Path, Entry>, p: Path) {
    p in entries && entries[p].File? && |p| > 0 && Ext(p[|p| - 1]) == JsonExt
  }

  /** The documents the walk callback collects from `paths`, in order, or
      the first decoding error. */
  function Gathered(h: Handler, entries: map<Path, Entry>, paths: seq<Path>, includeOauth2: bool): Result<seq<Doc>, Error>
    requires IsCollectionHandler(h)
    decreases |paths|
  {
    if paths == [] then Ok([])
    else
      match Gathered(h, entries, paths[..|paths| - 1], includeOauth2)
      case Err(e) => Err(e)
      case Ok(docs) =>
        var q := paths[|paths| - 1];
        if !IsJsonFile(entries, q) then Ok(docs)
        else
          match DecodeCollectionWith(h, entries[q].content)
          case Err(e) => Err(e)
          case Ok(doc) => Ok(docs + [Strip(doc, includeOauth2)])
  }

  /** The `.json` files among `paths`, in order. */
  function JsonFiles(entries: map<Path, Entry>, paths: seq<Path>): (files: seq<Path>)
    ensures forall j :: 0 <= j < |files| ==> IsJsonFile(entries, files[j])
    ensures forall q :: q in files <==> q in paths && IsJsonFile(entries, q)
    decreases |paths|
  {
    if paths == [] then []
    else
      var init := JsonFiles(entries, paths[..|paths| - 1]);
      var q := paths[|paths| - 1];
      assert forall x :: x in paths <==> x in paths[..|paths| - 1] || x == q;
      if IsJsonFile(entries, q) then init + [q] else init
  }

  /** Every `.json` file decodes. */
  ghost predicate AllDecode(h: Handler, entries: map<Path, Entry>, files: seq<Path>)
    requires IsCollectionHandler(h)
  {
    forall j :: 0 <= j < |files| ==> IsJsonFile(entries, files[j]) && DecodeCollectionWith(h, entries[files[j]].content).Ok?
  }

  /** The walk succeeds exactly when every `.json` file decodes, and then
      it yields one document per such file, in walk order: the file's
      decoded document, stripped. */
  lemma {:induction false} GatheredIsDecodedFiles(h: Handler, entries: map<Path, Entry>, paths: seq<Path>, includeOauth2: bool)
    requires IsCollectionHandler(h)
    ensures Gathered(h, entries, paths, includeOauth2).Ok? <==> AllDecode(h, entries, JsonFiles(entries, paths))
    ensures Gathered(h, entries, paths, includeOauth2).Ok? ==>
              var docs := Gathered(h, entries, paths, includeOauth2).value;
              var files := JsonFiles(entries, paths);
              && |docs| == |files|
              && forall j :: 0 <= j < |files| ==>
                   docs[j] == Strip(DecodeCollectionWith(h, entries[files[j]].content).value, includeOauth2)
    decreases |paths|
  {
    if paths != [] {
      var init := paths[..|paths| - 1];
      var q := paths[|paths| - 1];
      GatheredIsDecodedFiles(h, entries, init, includeOauth2);
      var before := JsonFiles(entries, init);
      var files := JsonFiles(entries, paths);
      if IsJsonFile(entries, q) {
        assert files == before + [q];
        assert AllDecode(h, entries, files) <==>
                 AllDecode(h, entries, before) && DecodeCollectionWith(h, entries[q].content).Ok? by {
          if AllDecode(h, entries, files) {
            assert forall j :: 0 <= j < |before| ==> before[j] == files[j];
            assert files[|before|] == q;
          }
        }
      } else {
        assert files == before;
      }
    }
  }

  /** With the OAuth2 settings left out, no collected document has them. */
  lemma NoOAuth2Gathered(h: Handler, entries: map<Path, Entry>, paths: seq<Path>)
    requires IsCollectionHandler(h)
    requires Gathered(h, entries, paths, false).Ok?
    ensures forall d :: d in Gathered(h, entries, paths, false).value ==> OAuth2Key !in d
  {
    GatheredIsDecodedFiles(h, entries, paths, false);
  }

  /** Once an error is met, the rest of the walk is not looked at. */
  lemma {:induction false} GatheredErrorStays(h: Handler, entries: map<Path, Entry>, paths: seq<Path>, k: nat, includeOauth2: bool)
    requires IsCollectionHandler(h) && k <= |paths|
    requires Gathered(h, entries, paths[..k], includeOauth2).Err?
    ensures Gathered(h, entries, paths, includeOauth2) == Gathered(h, entries, paths[..k], includeOauth2)
    decreases |paths| - k
  {
    if k < |paths| {
      assert paths[..k + 1][..k] == paths[..k];
      GatheredErrorStays(h, entries, paths, k + 1, includeOauth2);
    } else {
      assert paths[..k] == paths;
    }
  }

  /** The walk callback over the listed paths, in order. */
  method GatherAll(h: Handler, entries: map<Path, Entry>, paths: seq<Path>, includeOauth2: bool)
    returns (r: Result<seq<Doc>, Error>)
    requires IsCollectionHandler(h)
    ensures r == Gathered(h, entries, paths, includeOauth2)
  {
    var docs: seq<Doc> := [];
    for i := 0 to |paths|
      invariant Gathered(h, entries, paths[..i], includeOauth2) == Ok(docs)
    {
      var path := paths[i];
      assert paths[..i + 1][..i] == paths[..i];
      if !IsJsonFile(entries, path) {
        continue;
      }
      var decoded := DecodeCollectionWith(h, entries[path].content);
      if decoded.Err? {
        GatheredErrorStays(h, entries, paths, i + 1, includeOauth2);
        return Err(decoded.error);
      }
      docs := docs + [Strip(decoded.value, includeOauth2)];
    }
    assert paths[..|paths|] == paths;
    r := Ok(docs);
  }

  /** What the walk and the import leave: the first decoding error and no
      import, or the store's verdict on the collected documents, asked to
      delete the collections they do not mention. */
  ghost predicate Imported(h: Handler, entries: map<Path, Entry>, listing: seq<Path>, includeOauth2: bool,
                           faults: set<Fault>, imports0: seq<ImportCall>, imports: seq<ImportCall>, err: Option<Error>)
    requires IsCollectionHandler(h)
  {
    match Gathered(h, entries, listing, includeOauth2)
    case Err(e) => err == Some(e) && imports == imports0
    case Ok(docs) =>
      if ImportFails in faults then err == Some(Db(Failed(ImportFails))) && imports == imports0
      else err == None && imports == imports0 + [ImportCall(docs, true)]
  }

  /** The walk over the collections directory, then the import. */
  method WalkAndImport(h: Handler, app: App, fs: FileSystem, dir: Path, includeOauth2: bool)
    returns (err: Option<Error>)
    requires IsCollectionHandler(h)
    modifies app`imports
    ensures dir !in fs.entries ==> err == Some(Fs(NotExist(dir))) && app.imports == old(app.imports)
    ensures dir in fs.entries ==>
              forall listing :: IsListing(listing, WalkedPaths(fs.entries, dir)) ==>
                Imported(h, fs.entries, listing, includeOauth2, app.faults, old(app.imports), app.imports, err)
  {
    var walked := fs.Walk(dir);
    if walked.Err? {
      return Some(Fs(walked.error));
    }
    var listing := walked.value;
    forall other | IsListing(other, WalkedPaths(fs.entries, dir))
      ensures other == listing
    {
      ListingUnique(other, listing, WalkedPaths(fs.entries, dir));
    }
    var gathered := GatherAll(h, fs.entries, listing, includeOauth2);
    if gathered.Err? {
      return Some(gathered.error);
    }
    var importErr := app.ImportCollections(gathered.value, true);
    if importErr.Some? {
      return Some(Db(importErr.value));
    }
    err := None;
  }

  /** The backup when enabled, whose failure stops the command, then the
      walk and the import. */
  method BackupAndImport(h: Handler, app: App, fs: FileSystem, dir: Path, autoBackup: bool, includeOauth2: bool,
                         now: Common.Instant)
    returns (err: Option<Error>)
    requires IsCollectionHandler(h)
    modifies app`backups, app`imports
    ensures autoBackup && BackupFails in app.faults ==> err == Some(Db(Failed(BackupFails))) && unchanged(app)
    ensures !(autoBackup && BackupFails in app.faults) ==>
              && app.backups == old(app.backups) + (if autoBackup then [Common.BackupName(BackupBase, now)] else [])
              && (dir !in fs.entries ==> err == Some(Fs(NotExist(dir))) && app.imports == old(app.imports))
              && (dir in fs.entries ==>
                    forall listing :: IsListing(listing, WalkedPaths(fs.entries, dir)) ==>
                      Imported(h, fs.entries, listing, includeOauth2, app.faults, old(app.imports), app.imports, err))
  {
    if autoBackup {
      var backupErr := app.CreateBackup(Common.BackupName(BackupBase, now));
      if backupErr.Some? {
        return Some(Db(backupErr.value));
      }
    }
    err := WalkAndImport(h, app, fs, dir, includeOauth2);
  }

  /** What follows a yes: the backup when enabled, whose failure stops
      the command, then the walk and the import. */
  ghost predicate AfterYes(h: Handler, entries: map<Path, Entry>, dir: Path, autoBackup: bool, includeOauth2: bool,
                           now: Common.Instant, faults: set<Fault>, backups0: seq<string>, imports0: seq<ImportCall>,
                           backups: seq<string>, imports: seq<ImportCall>, err: Option<Error>)
    requires IsCollectionHandler(h)
  {
    if autoBackup && BackupFails in faults then
      err == Some(Db(Failed(BackupFails))) && backups == backups0 && imports == imports0
    else
      && backups == backups0 + (if autoBackup then [Common.BackupName(BackupBase, now)] else [])
      && (dir !in entries ==> err == Some(Fs(NotExist(dir))) && imports == imports0)
      && (dir in entries ==>
            forall listing :: IsListing(listing, WalkedPaths(entries, dir)) ==>
              Imported(h, entries, listing, includeOauth2, faults, imports0, imports, err))
  }

  /** The `RunE` body of `ImportCollectionsCommand`. */
  method ImportCollections(p: Plugin, reg: Registry, app: App, fs: FileSystem, stdin: seq<string>, now: Common.Instant)
    returns (err: Option<Error>)
    requires p.RadiosValid()
    modifies app`backups, app`imports
    ensures !p.EncodingsValid() ==> err.Some? && err.value.Invalid? && unchanged(app)
    ensures p.EncodingsValid() && !ExportCollections.HasCollectionHandler(p, reg) ==> err == Some(NoCollectionHandler) && unchanged(app)
    ensures p.EncodingsValid() && ExportCollections.HasCollectionHandler(p, reg) && !Common.Decide(stdin, false) ==>
              err == None && unchanged(app)
    ensures p.EncodingsValid() && ExportCollections.HasCollectionHandler(p, reg) && Common.Decide(stdin, false) ==>
              AfterYes(reg.handlers[p.collectionsEncoding.value], fs.entries, p.collectionsDir, p.autoBackup, p.includeOauth2,
                       now, app.faults, old(app.backups), old(app.imports), app.backups, app.imports, err)
  {
    var errs := p.Validate();
    if errs != map[] {
      return Some(Invalid(errs));
    }
    var ext := p.collectionsEncoding.String();
    if ext !in reg.handlers || !IsCollectionHandler(reg.handlers[ext]) {
      return Some(NoCollectionHandler);
    }
    err := ConfirmImport(reg.handlers[ext], app, fs, p.collectionsDir, stdin, p.autoBackup, p.includeOauth2, now);
  }

  /** The question, then the rest if the answer is yes. */
  method ConfirmImport(h: Handler, app: App, fs: FileSystem, dir: Path, stdin: seq<string>, autoBackup: bool,
                       includeOauth2: bool, now: Common.Instant)
    returns (err: Option<Error>)
    requires IsCollectionHandler(h)
    modifies app`backups, app`imports
    ensures !Common.Decide(stdin, false) ==> err == None && unchanged(app)
    ensures Common.Decide(stdin, false) ==>
              AfterYes(h, fs.entries, dir, autoBackup, includeOauth2, now, app.faults,
                       old(app.backups), old(app.imports), app.backups, app.imports, err)
  {
    var yes, _ := Common.Confirm(ImportPrompt(PathString(dir)), false, stdin);
    if !yes {
      return None;
    }
    err := BackupAndImport(h, app, fs, dir, autoBackup, includeOauth2, now);
  }
}
