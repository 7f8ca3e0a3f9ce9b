/**
 * The `export collections` command of export_collections.go: validate,
 * pick the collections codec, confirm, recreate the collections directory
 * and write one file per exported collection.
 */
module ExportCollections {
  import opened Wrappers
  import opened Model
  import opened Files
  import opened Store
  import opened Errors
  import opened Handlers
  import Common
  import opened Plugins
  import ExportRecords

  /** The question asked before exporting: the directory is always wiped. */
  function ExportPrompt(dir: string): string {
    "Do you really want to export all collections to " + ExportRecords.Quote(dir) + "?\n" + ExportRecords.WipeWarning
  }

  /** System collections are exported only with the system flag. */
  predicate Exports(c: Collection, system: bool) {
    system || !c.system
  }

  /** The collection as written: an auth collection loses its OAuth2
      settings unless they are included, and the update time is cleared
      to reduce the diff when asked. Nothing else changes. */
  function Rewrite(c: Collection, includeOauth2: bool, reduceGitDiff: bool): (r: Collection)
    ensures r.(oauth2 := c.oauth2, updated := c.updated) == c
    ensures r.oauth2 == c.oauth2 <==> includeOauth2 || c.kind != Auth || c.oauth2 == ZeroOAuth2
    ensures r.oauth2 != c.oauth2 ==> r.oauth2 == ZeroOAuth2
    ensures r.updated == c.updated <==> !reduceGitDiff || c.updated == ZeroDateTime
    ensures r.updated != c.updated ==> r.updated == ZeroDateTime
  {
    var c1 := if !includeOauth2 && c.kind == Auth then c.(oauth2 := ZeroOAuth2) else c;
    if reduceGitDiff then c1.(updated := ZeroDateTime) else c1
  }

  /** The handler the collections flag names, if it can encode collections. */
  ghost predicate HasCollectionHandler(p: Plugin, reg: Registry)
    reads p, p.collectionsEncoding, reg
  {
    p.collectionsEncoding != null && p.collectionsEncoding.value in reg.handlers
    && IsCollectionHandler(reg.handlers[p.collectionsEncoding.value])
  }

  /** The files the export writes: one per exported collection. */
  ghost function Targets(dir: Path, ext: string, cs: seq<Collection>, system: bool): set<Path> {
    set c | c in cs && Exports(c, system) :: dir + [FileName(c.name, ext)]
  }

  /** A file written by handler `h` for `c`: it holds the encoding
      whenever the encoder succeeds; after a failed encoder it holds
      whatever the encoder wrote before failing. */
  ghost predicate Holds(entries: map<Path, Entry>, path: Path, h: Handler, c: Collection)
    requires IsCollectionHandler(h)
  {
    path in entries && entries[path].File?
    && (EncodeCollectionWith(h, c).Ok? ==> EncodeCollectionWith(h, c) == Ok(entries[path].content))
  }

  /** The directory after the write loop succeeds: one file per exported
      collection, holding the encoding of its rewritten form where the
      encoder succeeded, added to what was there, and nothing else
      changed. */
  ghost predicate Written(before: map<Path, Entry>, after: map<Path, Entry>, dir: Path, h: Handler,
                          cs: seq<Collection>, system: bool, includeOauth2: bool, reduceGitDiff: bool)
    requires IsCollectionHandler(h)
  {
    var ext := FileExtension(h);
    && after.Keys == before.Keys + Targets(dir, ext, cs, system)
    && (forall q :: q in before && q !in Targets(dir, ext, cs, system) ==> after[q] == before[q])
    && (forall c :: c in cs && Exports(c, system) ==>
          Holds(after, dir + [FileName(c.name, ext)], h, Rewrite(c, includeOauth2, reduceGitDiff)))
  }

  /** One collection written to `<dir>/<name>.<ext>`. The closure returns
      the close result, which replaces the encoder's error, so only a
      failure to create the file is reported. Whatever happens, no other
      path changes. */
  method WriteOne(h: Handler, dir: Path, c: Collection, fs: FileSystem) returns (err: Option<Error>)
    requires IsCollectionHandler(h)
    modifies fs
    ensures old(fs.entries).Keys <= fs.entries.Keys <= old(fs.entries).Keys + {dir + [FileName(c.name, FileExtension(h))]}
    ensures forall q :: q in old(fs.entries) && q != dir + [FileName(c.name, FileExtension(h))] ==> fs.entries[q] == old(fs.entries)[q]
    ensures err.Some? ==> err.value.Fs?
    ensures err.None? ==> Holds(fs.entries, dir + [FileName(c.name, FileExtension(h))], h, c)
  {
    var path := dir + [FileName(c.name, FileExtension(h))];
    var createErr := fs.Create(path);
    if createErr.Some? {
      return Some(Fs(createErr.value));
    }
    var encoded := EncodeCollectionWith(h, c);
    var written: Content;
    if encoded.Ok? {
      written := encoded.value;
    } else {
      written :| true;
    }
    fs.Write(path, written);
    err := ExportRecords.CloseResultAsWritten(if encoded.Err? then Some(encoded.error) else None, None);
  }

  /** The loop's state after the first `i` collections: their files are
      added to what was there, each holding its encoding where the encoder
      succeeded, and nothing outside the directory changed. */
  ghost predicate Progress(start: map<Path, Entry>, entries: map<Path, Entry>, dir: Path, h: Handler, cs: seq<Collection>,
                           system: bool, includeOauth2: bool, reduceGitDiff: bool, i: nat)
    requires IsCollectionHandler(h) && i <= |cs|
  {
    && Added(start, entries, dir, FileExtension(h), cs, system, i)
    && (forall k :: 0 <= k < i && Exports(cs[k], system) ==>
          Holds(entries, dir + [FileName(cs[k].name, FileExtension(h))], h, Rewrite(cs[k], includeOauth2, reduceGitDiff)))
  }

  /** The paths after the first `i` collections: their files added to what
      was there, and nothing else changed. */
  ghost predicate Added(start: map<Path, Entry>, entries: map<Path, Entry>, dir: Path, ext: string, cs: seq<Collection>,
                        system: bool, i: nat)
    requires i <= |cs|
  {
    && entries.Keys == start.Keys + Targets(dir, ext, cs[..i], system)
    && (forall q :: q in start && q !in Targets(dir, ext, cs[..i], system) ==> entries[q] == start[q])
    && OutsideUnchanged(start, entries, dir)
  }

  /** The loop over the queried collections: system ones are skipped
      unless asked for, the others rewritten and encoded; the first failure
      to create a file ends the loop, while an encoder failure does not. */
  method WriteAll(h: Handler, dir: Path, cs: seq<Collection>, system: bool, includeOauth2: bool, reduceGitDiff: bool,
                  fs: FileSystem)
    returns (err: Option<Error>)
    requires IsCollectionHandler(h) && DistinctNames(cs)
    modifies fs
    ensures OutsideUnchanged(old(fs.entries), fs.entries, dir)
    ensures old(fs.entries).Keys <= fs.entries.Keys
    ensures err.Some? ==> err.value.Fs?
    ensures err.None? ==> Written(old(fs.entries), fs.entries, dir, h, cs, system, includeOauth2, reduceGitDiff)
  {
    var ext := FileExtension(h);
    for i := 0 to |cs|
      invariant Progress(old(fs.entries), fs.entries, dir, h, cs, system, includeOauth2, reduceGitDiff, i)
    {
      var c := cs[i];
      if !Exports(c, system) {
        assert cs[..i + 1] == cs[..i] + [c];
        assert Targets(dir, ext, cs[..i + 1], system) == Targets(dir, ext, cs[..i], system);
        continue;
      }
      err := WriteNext(h, dir, cs, system, includeOauth2, reduceGitDiff, i, fs, old(fs.entries));
      if err.Some? {
        return;
      }
    }
    assert cs[..|cs|] == cs;
    err := None;
  }

  /** The loop body for an exported collection: its file is written, and
      the loop's state moves one collection on, or a failure to create the
      file is returned with nothing outside the directory changed. */
  method WriteNext(h: Handler, dir: Path, cs: seq<Collection>, system: bool, includeOauth2: bool, reduceGitDiff: bool,
                   i: nat, fs: FileSystem, ghost start: map<Path, Entry>)
    returns (err: Option<Error>)
    requires IsCollectionHandler(h) && DistinctNames(cs) && i < |cs| && Exports(cs[i], system)
    requires Progress(start, fs.entries, dir, h, cs, system, includeOauth2, reduceGitDiff, i)
    modifies fs
    ensures err.Some? ==> err.value.Fs? && OutsideUnchanged(start, fs.entries, dir) && start.Keys <= fs.entries.Keys
    ensures err.None? ==> Progress(start, fs.entries, dir, h, cs, system, includeOauth2, reduceGitDiff, i + 1)
  {
    var ext := FileExtension(h);
    ghost var before := fs.entries;
    var rc := Rewrite(cs[i], includeOauth2, reduceGitDiff);
    assert rc.name == cs[i].name;
    err := WriteOne(h, dir, rc, fs);
    if err.Some? {
      return;
    }
    ProgressStep(start, before, fs.entries, dir, h, cs, system, includeOauth2, reduceGitDiff, i);
  }

  /** Writing the file of exported collection `i`, and nothing else, moves
      the loop's state one collection on. */
  lemma ProgressStep(start: map<Path, Entry>, before: map<Path, Entry>, after: map<Path, Entry>, dir: Path, h: Handler,
                     cs: seq<Collection>, system: bool, includeOauth2: bool, reduceGitDiff: bool, i: nat)
    requires IsCollectionHandler(h) && DistinctNames(cs) && i < |cs| && Exports(cs[i], system)
    requires Progress(start, before, dir, h, cs, system, includeOauth2, reduceGitDiff, i)
    requires before.Keys <= after.Keys <= before.Keys + {dir + [FileName(cs[i].name, FileExtension(h))]}
    requires forall q :: q in before && q != dir + [FileName(cs[i].name, FileExtension(h))] ==> after[q] == before[q]
    requires Holds(after, dir + [FileName(cs[i].name, FileExtension(h))], h, Rewrite(cs[i], includeOauth2, reduceGitDiff))
    ensures Progress(start, after, dir, h, cs, system, includeOauth2, reduceGitDiff, i + 1)
  {
    assert after.Keys == before.Keys + {dir + [FileName(cs[i].name, FileExtension(h))]};
    AddedStep(start, before, after, dir, FileExtension(h), cs, system, i);
    KeepsEarlier(before, after, dir, h, cs, system, includeOauth2, reduceGitDiff, i);
  }

  /** Adding the file of exported collection `i`, and nothing else. */
  lemma AddedStep(start: map<Path, Entry>, before: map<Path, Entry>, after: map<Path, Entry>, dir: Path, ext: string,
                  cs: seq<Collection>, system: bool, i: nat)
    requires DistinctNames(cs) && i < |cs| && Exports(cs[i], system)
    requires Added(start, before, dir, ext, cs, system, i)
    requires before.Keys <= after.Keys == before.Keys + {dir + [FileName(cs[i].name, ext)]}
    requires forall q :: q in before && q != dir + [FileName(cs[i].name, ext)] ==> after[q] == before[q]
    ensures Added(start, after, dir, ext, cs, system, i + 1)
  {
    var path := dir + [FileName(cs[i].name, ext)];
    var earlier, later := Targets(dir, ext, cs[..i], system), Targets(dir, ext, cs[..i + 1], system);
    assert later == earlier + {path} by {
      NewTarget(dir, ext, cs, system, i);
    }
    assert after.Keys == start.Keys + later;
    assert forall q :: q in start && q !in later ==> after[q] == start[q] by {
      forall q | q in start && q !in later
        ensures after[q] == start[q]
      {
        assert q != path && q in before && before[q] == start[q];
      }
    }
    assert OutsideUnchanged(start, after, dir) by {
      assert Under(dir, path);
      forall q | !Under(dir, q) && !(q < dir)
        ensures (q in start <==> q in after) && (q in start ==> start[q] == after[q])
      {
        assert q != path;
      }
    }
  }

  /** An exported collection adds its own file to the targets, a file no
      earlier collection of distinct name has. */
  lemma NewTarget(dir: Path, ext: string, cs: seq<Collection>, system: bool, i: nat)
    requires i < |cs| && Exports(cs[i], system) && DistinctNames(cs)
    ensures Targets(dir, ext, cs[..i + 1], system) == Targets(dir, ext, cs[..i], system) + {dir + [FileName(cs[i].name, ext)]}
    ensures forall k :: 0 <= k < i ==> dir + [FileName(cs[k].name, ext)] != dir + [FileName(cs[i].name, ext)]
  {
    var path := dir + [FileName(cs[i].name, ext)];
    assert cs[..i + 1] == cs[..i] + [cs[i]];
    forall k | 0 <= k < i
      ensures dir + [FileName(cs[k].name, ext)] != path
    {
      if dir + [FileName(cs[k].name, ext)] == path {
        assert (dir + [FileName(cs[k].name, ext)])[|dir|] == path[|dir|];
        FileNameInjective(cs[k].name, cs[i].name, ext);
      }
    }
  }

  /** Writing the file of collection `i` keeps the files of the earlier
      collections, and adds its own. */
  lemma KeepsEarlier(before: map<Path, Entry>, after: map<Path, Entry>, dir: Path, h: Handler, cs: seq<Collection>,
                     system: bool, includeOauth2: bool, reduceGitDiff: bool, i: nat)
    requires IsCollectionHandler(h) && i < |cs| && Exports(cs[i], system) && DistinctNames(cs)
    requires forall k :: 0 <= k < i && Exports(cs[k], system) ==>
               Holds(before, dir + [FileName(cs[k].name, FileExtension(h))], h, Rewrite(cs[k], includeOauth2, reduceGitDiff))
    requires forall q :: q in before && q != dir + [FileName(cs[i].name, FileExtension(h))] ==> q in after && after[q] == before[q]
    requires Holds(after, dir + [FileName(cs[i].name, FileExtension(h))], h, Rewrite(cs[i], includeOauth2, reduceGitDiff))
    ensures forall k :: 0 <= k < i + 1 && Exports(cs[k], system) ==>
              Holds(after, dir + [FileName(cs[k].name, FileExtension(h))], h, Rewrite(cs[k], includeOauth2, reduceGitDiff))
  {
    var ext := FileExtension(h);
    forall k | 0 <= k < i && Exports(cs[k], system)
      ensures Holds(after, dir + [FileName(cs[k].name, ext)], h, Rewrite(cs[k], includeOauth2, reduceGitDiff))
    {
      var q := dir + [FileName(cs[k].name, ext)];
      if q == dir + [FileName(cs[i].name, ext)] {
        assert q[|dir|] == (dir + [FileName(cs[i].name, ext)])[|dir|];
        FileNameInjective(cs[k].name, cs[i].name, ext);
      }
    }
  }

  /** The directory after a successful export: wiped, recreated, and the
      exported collections written into it. */
  ghost predicate Exported(before: map<Path, Entry>, after: map<Path, Entry>, dir: Path, h: Handler,
                           cs: seq<Collection>, system: bool, includeOauth2: bool, reduceGitDiff: bool)
    requires IsCollectionHandler(h)
  {
    Written(WithDirs(Removed(before, dir), dir), after, dir, h, cs, system, includeOauth2, reduceGitDiff)
  }

  /** What follows the confirmation: the directory is wiped and created,
      the collections queried and written. */
  method Export(h: Handler, dir: Path, app: App, fs: FileSystem, system: bool, includeOauth2: bool, reduceGitDiff: bool)
    returns (err: Option<Error>)
    requires IsCollectionHandler(h) && app.Valid()
    modifies fs
    ensures OutsideUnchanged(old(fs.entries), fs.entries, dir)
    ensures Blocked(Removed(old(fs.entries), dir), dir) ==> err.Some? && err.value.Fs?
    ensures !Blocked(Removed(old(fs.entries), dir), dir) && QueryFails in app.faults ==> err == Some(Db(Failed(QueryFails)))
    ensures QueryFails in app.faults ==> err.Some?
    ensures err.None? ==>
              Exported(old(fs.entries), fs.entries, dir, h, Query(app.tables, app.order, [], true), system, includeOauth2, reduceGitDiff)
  {
    fs.RemoveAll(dir);
    var mkErr := fs.MkdirAll(dir);
    if mkErr.Some? {
      return Some(Fs(mkErr.value));
    }
    if QueryFails in app.faults {
      return Some(Db(Failed(QueryFails)));
    }
    var cs := Query(app.tables, app.order, [], true);
    QueryConsistent(app.tables, app.order, [], true);
    err := WriteAll(h, dir, cs, system, includeOauth2, reduceGitDiff, fs);
  }

  /** The `RunE` body of `ExportCollectionsCommand`. */
  method ExportCollections(p: Plugin, reg: Registry, app: App, fs: FileSystem, stdin: seq<string>)
    returns (err: Option<Error>)
    requires p.RadiosValid() && app.Valid()
    modifies fs
    ensures !p.EncodingsValid() ==> err.Some? && err.value.Invalid? && fs.entries == old(fs.entries)
    ensures p.EncodingsValid() && !HasCollectionHandler(p, reg) ==> err == Some(NoCollectionHandler) && fs.entries == old(fs.entries)
    ensures p.EncodingsValid() && HasCollectionHandler(p, reg) && !Common.Decide(stdin, false) ==>
              err == None && fs.entries == old(fs.entries)
    ensures OutsideUnchanged(old(fs.entries), fs.entries, p.collectionsDir)
    ensures p.EncodingsValid() && HasCollectionHandler(p, reg) && Common.Decide(stdin, false) && QueryFails in app.faults ==>
              err.Some?
    ensures p.EncodingsValid() && HasCollectionHandler(p, reg) && Common.Decide(stdin, false) && QueryFails in app.faults
            && !Blocked(Removed(old(fs.entries), p.collectionsDir), p.collectionsDir) ==>
              err == Some(Db(Failed(QueryFails)))
    ensures p.EncodingsValid() && HasCollectionHandler(p, reg) && Common.Decide(stdin, false) && err.None? ==>
              Exported(old(fs.entries), fs.entries, p.collectionsDir, reg.handlers[p.collectionsEncoding.value],
                       Query(app.tables, app.order, [], true), p.system, p.includeOauth2, p.reduceGitDiff)
  {
    var errs := p.Validate();
    if errs != map[] {
      return Some(Invalid(errs));
    }
    var ext := p.collectionsEncoding.String();
    if ext !in reg.handlers || !IsCollectionHandler(reg.handlers[ext]) {
      return Some(NoCollectionHandler);
    }
    err := ConfirmExport(reg.handlers[ext], p.collectionsDir, app, fs, stdin, p.system, p.includeOauth2, p.reduceGitDiff);
  }

  /** The question, then the export if the answer is yes. */
  method ConfirmExport(h: Handler, dir: Path, app: App, fs: FileSystem, stdin: seq<string>,
                       system: bool, includeOauth2: bool, reduceGitDiff: bool)
    returns (err: Option<Error>)
    requires IsCollectionHandler(h) && app.Valid()
    modifies fs
    ensures !Common.Decide(stdin, false) ==> err == None && fs.entries == old(fs.entries)
    ensures OutsideUnchanged(old(fs.entries), fs.entries, dir)
    ensures Common.Decide(stdin, false) && QueryFails in app.faults ==> err.Some?
    ensures Common.Decide(stdin, false) && QueryFails in app.faults && !Blocked(Removed(old(fs.entries), dir), dir) ==>
              err == Some(Db(Failed(QueryFails)))
    ensures Common.Decide(stdin, false) && err.None? ==>
              Exported(old(fs.entries), fs.entries, dir, h, Query(app.tables, app.order, [], true), system, includeOauth2, reduceGitDiff)
  {
    var yes, _ := Common.Confirm(ExportPrompt(PathString(dir)), false, stdin);
    if !yes {
      return None;
    }
    err := Export(h, dir, app, fs, system, includeOauth2, reduceGitDiff);
  }
}
