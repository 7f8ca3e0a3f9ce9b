/**
 * The plugin object of plugin.go: its configuration, the registration of
 * the four built-in codecs, the set-up that turns the registry into the
 * two encoding flags, and the validation the commands run first.
 */
module Plugins {
  import opened Wrappers
  import opened Files
  import opened Handlers
  import CsvCodec
  import opened RadioValues
  import opened OptionalBools

  const CollectionsKey := "collections_encoding"
  const RecordsKey := "records_encoding"
  const BlankMessage := "cannot be blank"

  /** The extensions whose handlers have the collection methods. */
  ghost predicate CollectionOption(handlers: map<string, Handler>, e: string) {
    e in handlers && IsCollectionHandler(handlers[e])
  }

  /** The extensions whose handlers have the records methods. */
  ghost predicate RecordsOption(handlers: map<string, Handler>, e: string) {
    e in handlers && IsRecordsHandler(handlers[e])
  }

  ghost predicate Distinct(s: seq<string>) {
    forall i, j :: 0 <= i < j < |s| ==> s[i] != s[j]
  }

  class Plugin {
    var autoBackup: bool
    var collectionsDir: Path
    var collectionsEncoding: RadioValue?
    var includeOauth2: bool
    var recordsDir: Path
    var recordsEncoding: RadioValue?
    var noValidate: bool
    var overrideVerified: OptionalBoolValue?
    var overrideEmailVisibility: OptionalBoolValue?
    var reduceGitDiff: bool
    var system: bool

    /** `&Plugin{AutoBackup: true}`: every other field is its zero value. */
    constructor ()
      ensures autoBackup
      ensures collectionsDir == [] && recordsDir == []
      ensures collectionsEncoding == null && recordsEncoding == null
      ensures overrideVerified == null && overrideEmailVisibility == null
      ensures !includeOauth2 && !noValidate && !reduceGitDiff && !system
    {
      autoBackup := true;
      collectionsDir := [];
      collectionsEncoding := null;
      includeOauth2 := false;
      recordsDir := [];
      recordsEncoding := null;
      noValidate := false;
      overrideVerified := null;
      overrideEmailVisibility := null;
      reduceGitDiff := false;
      system := false;
    }

    /** The encoding flags, where present, keep their options sorted. */
    ghost predicate RadiosValid()
      reads this, collectionsEncoding, recordsEncoding
      reads if collectionsEncoding != null then {collectionsEncoding.options} else {}
      reads if recordsEncoding != null then {recordsEncoding.options} else {}
    {
      && (collectionsEncoding != null ==> collectionsEncoding.Valid())
      && (recordsEncoding != null ==> recordsEncoding.Valid())
    }

    /** Both encoding flags are present and hold one of their options. */
    ghost predicate EncodingsValid()
      reads this, collectionsEncoding, recordsEncoding
      reads if collectionsEncoding != null then {collectionsEncoding.options} else {}
      reads if recordsEncoding != null then {recordsEncoding.options} else {}
    {
      && collectionsEncoding != null && collectionsEncoding.value in collectionsEncoding.options[..]
      && recordsEncoding != null && recordsEncoding.value in recordsEncoding.options[..]
    }

    /** `PreValidate`: the two directories next to the data directory, the
        encoding flags built from the registry's capabilities with "json"
        and "csv" selected, and both overrides unset. */
    method PreValidate(reg: Registry, dataDir: Path)
      modifies this`collectionsDir, this`recordsDir, this`collectionsEncoding, this`recordsEncoding
      modifies this`overrideVerified, this`overrideEmailVisibility
      ensures collectionsDir == Parent(dataDir) + ["migrations", "collections"]
      ensures recordsDir == Parent(dataDir) + ["migrations", "records"]
      ensures collectionsEncoding != null && fresh(collectionsEncoding) && fresh(collectionsEncoding.options)
      ensures recordsEncoding != null && fresh(recordsEncoding) && fresh(recordsEncoding.options)
      ensures RadiosValid()
      ensures collectionsEncoding.value == "json" && recordsEncoding.value == "csv"
      ensures Distinct(collectionsEncoding.options[..]) && Distinct(recordsEncoding.options[..])
      ensures forall e :: e in collectionsEncoding.options[..] <==> CollectionOption(reg.handlers, e)
      ensures forall e :: e in recordsEncoding.options[..] <==> RecordsOption(reg.handlers, e)
      ensures overrideVerified != null && fresh(overrideVerified) && overrideVerified.value == None
      ensures overrideEmailVisibility != null && fresh(overrideEmailVisibility) && overrideEmailVisibility.value == None
    {
      collectionsDir := Parent(dataDir) + ["migrations", "collections"];
      recordsDir := Parent(dataDir) + ["migrations", "records"];
      var collectionHandlers, recordsHandlers := Partition(reg.handlers);
      var collections := NewRadio(collectionHandlers, "json");
      var records := NewRadio(recordsHandlers, "csv");
      collectionsEncoding := collections;
      recordsEncoding := records;
      overrideVerified := new OptionalBoolValue();
      overrideEmailVisibility := new OptionalBoolValue();
    }

    /** `Validate`: ozzo's `Required` on each encoding flag, then the flag's
        own `Validate`; errors are keyed by the fields' JSON names. */
    method Validate() returns (errs: map<string, string>)
      requires RadiosValid()
      ensures errs.Keys <= {CollectionsKey, RecordsKey}
      ensures errs == map[] <==> EncodingsValid()
      ensures CollectionsKey in errs <==> collectionsEncoding == null || collectionsEncoding.value !in collectionsEncoding.options[..]
      ensures RecordsKey in errs <==> recordsEncoding == null || recordsEncoding.value !in recordsEncoding.options[..]
      ensures CollectionsKey in errs ==>
                errs[CollectionsKey] == if collectionsEncoding == null then BlankMessage else InvalidMessage(collectionsEncoding.options[..])
      ensures RecordsKey in errs ==>
                errs[RecordsKey] == if recordsEncoding == null then BlankMessage else InvalidMessage(recordsEncoding.options[..])
    {
      errs := map[];
      if collectionsEncoding == null {
        errs := errs[CollectionsKey := BlankMessage];
      } else {
        var err := collectionsEncoding.Validate();
        if err.Some? {
          errs := errs[CollectionsKey := err.value];
        }
      }
      if recordsEncoding == null {
        errs := errs[RecordsKey := BlankMessage];
      } else {
        var err := recordsEncoding.Validate();
        if err.Some? {
          errs := errs[RecordsKey := err.value];
        }
      }
      if CollectionsKey !in errs && RecordsKey !in errs {
        assert errs.Keys == {};
      }
    }
  }

  /** The loop over the registry: each extension, in map order, goes to
      the collection list and the records list as its handler allows. */
  method Partition(handlers: map<string, Handler>) returns (collectionHandlers: seq<string>, recordsHandlers: seq<string>)
    ensures Distinct(collectionHandlers) && Distinct(recordsHandlers)
    ensures forall e :: e in collectionHandlers <==> CollectionOption(handlers, e)
    ensures forall e :: e in recordsHandlers <==> RecordsOption(handlers, e)
  {
    collectionHandlers := [];
    recordsHandlers := [];
    var remaining := handlers.Keys;
    while remaining != {}
      invariant remaining <= handlers.Keys
      invariant Distinct(collectionHandlers) && Distinct(recordsHandlers)
      invariant forall e :: e in collectionHandlers ==> e !in remaining
      invariant forall e :: e in recordsHandlers ==> e !in remaining
      invariant forall e :: e in collectionHandlers <==> CollectionOption(handlers, e) && e !in remaining
      invariant forall e :: e in recordsHandlers <==> RecordsOption(handlers, e) && e !in remaining
      decreases remaining
    {
      var k :| k in remaining;
      if IsCollectionHandler(handlers[k]) {
        collectionHandlers := collectionHandlers + [k];
      }
      if IsRecordsHandler(handlers[k]) {
        recordsHandlers := recordsHandlers + [k];
      }
      remaining := remaining - {k};
    }
  }

  /** `NewRadioValue(options...)` on a fresh slice of the names, then
      `Set(selected)`. */
  method NewRadio(names: seq<string>, selected: string) returns (rv: RadioValue)
    requires Distinct(names)
    ensures fresh(rv) && fresh(rv.options) && rv.Valid()
    ensures rv.value == selected && Distinct(rv.options[..])
    ensures forall e :: e in rv.options[..] <==> e in names
  {
    var options := new string[|names|](i requires 0 <= i < |names| => names[i]);
    assert options[..] == names;
    rv := new RadioValue(options);
    PermutationKeepsDistinct(names, options[..]);
    var _ := rv.Set(selected);
  }

  /** A permutation of a list without repeats has none. */
  lemma PermutationKeepsDistinct(a: seq<string>, b: seq<string>)
    requires Distinct(a) && multiset(a) == multiset(b)
    ensures Distinct(b)
    ensures forall e :: e in a <==> e in b
  {
    forall e
      ensures e in a <==> e in b
    {
      assert e in a <==> e in multiset(a);
      assert e in b <==> e in multiset(b);
    }
    forall i, j | 0 <= i < j < |b|
      ensures b[i] != b[j]
    {
      DistinctCount(a, b[i]);
      RepeatCount(b, i, j);
    }
  }

  /** An element at two places is counted twice. */
  lemma RepeatCount(s: seq<string>, i: nat, j: nat)
    requires i < j < |s|
    ensures s[i] == s[j] ==> multiset(s)[s[i]] >= 2
  {
    assert s == s[..i] + [s[i]] + s[i + 1..j] + [s[j]] + s[j + 1..];
  }

  lemma {:induction false} DistinctCount(a: seq<string>, x: string)
    requires Distinct(a)
    ensures multiset(a)[x] <= 1
  {
    if a != [] {
      assert a == [a[0]] + a[1..];
      assert Distinct(a[1..]);
      DistinctCount(a[1..], x);
      if a[0] == x {
        assert x !in a[1..];
      }
    }
  }

  /** The package `init`: the plugin with automatic backups on, and the
      CSV, JSON, TOML and YAML codecs registered in that order. */
  method Init(reg: Registry, json: Handler, toml: Handler, yml: Handler) returns (p: Plugin, csv: CsvCodec.CsvPlugin)
    modifies reg
    ensures fresh(p) && fresh(csv) && p.autoBackup && csv.delimiter == ""
    ensures reg.handlers == old(reg.handlers)["csv" := Csv(csv)][FileExtension(json) := json][FileExtension(toml) := toml][FileExtension(yml) := yml]
  {
    p := new Plugin();
    csv := new CsvCodec.CsvPlugin();
    reg.RegisterHandler(Csv(csv));
    reg.RegisterHandler(json);
    reg.RegisterHandler(toml);
    reg.RegisterHandler(yml);
  }

  /** A codec with all four methods, as the built-in JSON, TOML and YAML
      codecs are. */
  predicate FullCodec(h: Handler, ext: string) {
    h.Library? && h.ext == ext && IsRecordsHandler(h) && IsCollectionHandler(h)
  }

  /** Start-up with only the built-in codecs: collections can be encoded
      as json, toml or yml, records also as csv; the defaults are among the
      options, so validation passes. */
  method Startup(json: Handler, toml: Handler, yml: Handler, dataDir: Path)
    returns (p: Plugin, reg: Registry, errs: map<string, string>)
    requires FullCodec(json, "json") && FullCodec(toml, "toml") && FullCodec(yml, "yml")
    ensures p.collectionsEncoding != null && p.recordsEncoding != null
    ensures forall e :: e in p.collectionsEncoding.options[..] <==> e in {"json", "toml", "yml"}
    ensures forall e :: e in p.recordsEncoding.options[..] <==> e in {"csv", "json", "toml", "yml"}
    ensures p.collectionsEncoding.options.Length == 3 && p.recordsEncoding.options.Length == 4
    ensures p.autoBackup && errs == map[]
    ensures reg.Ready()
  {
    p, reg := Configure(json, toml, yml, dataDir);
    errs := p.Validate();
  }

  /** Registration and pre-validation at start-up: the CSV codec and the
      plugin are pre-validated (they share no state, so their order does not
      matter), and the registry is then ready to decode CSV. */
  method Configure(json: Handler, toml: Handler, yml: Handler, dataDir: Path) returns (p: Plugin, reg: Registry)
    requires FullCodec(json, "json") && FullCodec(toml, "toml") && FullCodec(yml, "yml")
    ensures fresh(p) && fresh(p.collectionsEncoding) && fresh(p.recordsEncoding)
    ensures p.RadiosValid() && p.EncodingsValid() && p.autoBackup
    ensures forall e :: e in p.collectionsEncoding.options[..] <==> e in {"json", "toml", "yml"}
    ensures forall e :: e in p.recordsEncoding.options[..] <==> e in {"csv", "json", "toml", "yml"}
    ensures p.collectionsEncoding.options.Length == 3 && p.recordsEncoding.options.Length == 4
    ensures fresh(reg) && reg.Ready()
  {
    reg := new Registry();
    var csv;
    p, csv := Init(reg, json, toml, yml);
    csv.PreValidate();
    BuiltinOptions(reg.handlers, csv, json, toml, yml);
    p.PreValidate(reg, dataDir);
    DistinctCardinality(p.collectionsEncoding.options[..], {"json", "toml", "yml"});
    DistinctCardinality(p.recordsEncoding.options[..], {"csv", "json", "toml", "yml"});
  }

  /** With the CSV codec and the three built-in codecs registered,
      collections can be written as json, toml or yml and records also as
      csv. */
  lemma BuiltinOptions(handlers: map<string, Handler>, csv: CsvCodec.CsvPlugin, json: Handler, toml: Handler, yml: Handler)
    requires FullCodec(json, "json") && FullCodec(toml, "toml") && FullCodec(yml, "yml")
    requires handlers == map[]["csv" := Csv(csv)][FileExtension(json) := json][FileExtension(toml) := toml][FileExtension(yml) := yml]
    ensures forall e :: CollectionOption(handlers, e) <==> e in {"json", "toml", "yml"}
    ensures forall e :: RecordsOption(handlers, e) <==> e in {"csv", "json", "toml", "yml"}
    ensures forall e :: e in handlers && handlers[e].Csv? ==> handlers[e] == Csv(csv)
  {
    assert handlers.Keys == {"csv", "json", "toml", "yml"};
  }

  /** A list without repeats has as many elements as the set it lists. */
  lemma {:induction false} DistinctCardinality(s: seq<string>, members: set<string>)
    requires Distinct(s) && forall e :: e in s <==> e in members
    ensures |s| == |members|
  {
    if s != [] {
      var rest := s[1..];
      assert Distinct(rest);
      assert forall e :: e in rest <==> e in members - {s[0]};
      DistinctCardinality(rest, members - {s[0]});
    } else {
      assert members == {};
    }
  }
}
