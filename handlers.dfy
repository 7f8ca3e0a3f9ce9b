/**
 * The codec registry of handlers.go: handlers keyed by file extension, and
 * the two capabilities a handler may have. The CSV codec is the plugin
 * object of handlers/csv/plugin.go; the JSON, TOML and YAML codecs are
 * carried as the functions they compute, present or absent.
 */
module Handlers {
  import opened Wrappers
  import opened Model
  import CsvCodec
  import opened Errors

  type RecordsEncoder = seq<Record> -> Result<Content, string>
  type RecordsDecoder = (Collection, Content) -> Result<seq<Record>, string>
  type CollectionEncoder = Collection -> Result<Content, string>
  type CollectionDecoder = Content -> Result<Doc, string>

  /** A registered handler: the CSV plugin, or a codec with the methods it
      implements. */
  datatype Handler =
    | Csv(plugin: CsvCodec.CsvPlugin)
    | Library(
        ext: string,
        encodeRecords: Option<RecordsEncoder>,
        decodeRecords: Option<RecordsDecoder>,
        encodeCollection: Option<CollectionEncoder>,
        decodeCollection: Option<CollectionDecoder>)

  /** `Handler.FileExtension()`. */
  function FileExtension(h: Handler): string {
    match h
    case Csv(p) => p.FileExtension()
    case Library(ext, _, _, _, _) => ext
  }

  /** The `RecordsHandler` interface: both records methods. */
  predicate IsRecordsHandler(h: Handler) {
    h.Csv? || (h.encodeRecords.Some? && h.decodeRecords.Some?)
  }

  /** The `CollectionHandler` interface: both collection methods. The CSV
      plugin has neither. */
  predicate IsCollectionHandler(h: Handler) {
    h.Library? && h.encodeCollection.Some? && h.decodeCollection.Some?
  }

  /** What a records handler writes for `records`. */
  ghost predicate EncodesRecords(h: Handler, records: seq<Record>, content: Content)
    requires IsRecordsHandler(h)
  {
    match h
    case Csv(_) => CsvCodec.IsEncoding(records, content)
    case Library(_, encode, _, _, _) => encode.value(records) == Ok(content)
  }

  /** Whether a records handler's encoder succeeds on `records`; the CSV
      codec always does. */
  predicate EncodeSucceeds(h: Handler, records: seq<Record>)
    requires IsRecordsHandler(h)
  {
    h.Csv? || h.encodeRecords.value(records).Ok?
  }

  /** What a records handler decodes `content` to. */
  function DecodeRecordsWith(h: Handler, c: Collection, content: Content): Result<seq<Record>, Error>
    requires IsRecordsHandler(h)
  {
    match h
    case Csv(_) =>
      (match CsvCodec.DecodeRowsAsWritten(c, content)
       case Ok(records) => Ok(records)
       case Err(e) => Err(CsvFailed(e)))
    case Library(_, _, decode, _, _) =>
      (match decode.value(c, content)
       case Ok(records) => Ok(records)
       case Err(m) => Err(Codec(m)))
  }

  /** What a collection handler writes for `c`. */
  function EncodeCollectionWith(h: Handler, c: Collection): Result<Content, Error>
    requires IsCollectionHandler(h)
  {
    match h.encodeCollection.value(c)
    case Ok(content) => Ok(content)
    case Err(m) => Err(Codec(m))
  }

  /** What a collection handler decodes `content` to. */
  function DecodeCollectionWith(h: Handler, content: Content): Result<Doc, Error>
    requires IsCollectionHandler(h)
  {
    match h.decodeCollection.value(content)
    case Ok(doc) => Ok(doc)
    case Err(m) => Err(Codec(m))
  }

  /** `RecordsHandler.EncodeRecords`, through whichever handler is given. */
  method EncodeRecords(h: Handler, records: seq<Record>) returns (r: Result<Content, Error>)
    requires IsRecordsHandler(h)
    requires h.Csv? && records != [] ==> h.plugin.delimiter != ""
    ensures r.Ok? <==> EncodeSucceeds(h, records)
    ensures r.Ok? ==> EncodesRecords(h, records, r.value)
    ensures h.Csv? ==> r.Ok?
    ensures h.Library? ==> (r.Ok? <==> h.encodeRecords.value(records).Ok?)
    ensures h.Library? && r.Err? ==> r.error == Codec(h.encodeRecords.value(records).error)
  {
    match h
    case Csv(p) =>
      var content := p.EncodeRecords(records);
      r := Ok(content);
    case Library(_, encode, _, _, _) =>
      match encode.value(records)
      case Ok(content) => r := Ok(content);
      case Err(m) => r := Err(Codec(m));
  }

  /** `RecordsHandler.DecodeRecords`, through whichever handler is given. */
  method DecodeRecords(h: Handler, c: Collection, content: Content) returns (r: Result<seq<Record>, Error>)
    requires IsRecordsHandler(h)
    requires h.Csv? ==> h.plugin.delimiter != ""
    ensures r == DecodeRecordsWith(h, c, content)
  {
    match h
    case Csv(p) =>
      var d := p.DecodeRecords(c, content);
      match d {
        case Ok(records) => r := Ok(records);
        case Err(e) => r := Err(CsvFailed(e));
      }
    case Library(_, _, decode, _, _) =>
      match decode.value(c, content) {
        case Ok(records) => r := Ok(records);
        case Err(m) => r := Err(Codec(m));
      }
  }

  /** The global `handlers` map. */
  class Registry {
    var handlers: map<string, Handler>

    constructor ()
      ensures handlers == map[]
    {
      handlers := map[];
    }

    /** Every registered CSV plugin has a delimiter to read. */
    ghost predicate Ready()
      reads this, set e | e in handlers && handlers[e].Csv? :: handlers[e].plugin
    {
      forall e :: e in handlers && handlers[e].Csv? ==> handlers[e].plugin.delimiter != ""
    }

    /** `RegisterHandler(h)`: `h` is stored under its extension, replacing
        any handler there. */
    method RegisterHandler(h: Handler)
      modifies this
      ensures handlers == old(handlers)[FileExtension(h) := h]
    {
      handlers := handlers[FileExtension(h) := h];
    }
  }

  /** Registering adds a key only for a new extension: a second handler
      for the same extension replaces the first and the count stays. */
  lemma RegisterCount(m: map<string, Handler>, h: Handler)
    ensures FileExtension(h) in m[FileExtension(h) := h]
    ensures FileExtension(h) in m ==> |m[FileExtension(h) := h].Keys| == |m.Keys|
    ensures FileExtension(h) !in m ==> |m[FileExtension(h) := h].Keys| == |m.Keys| + 1
    ensures forall e :: e != FileExtension(h) ==> (e in m <==> e in m[FileExtension(h) := h])
  {
    var ext := FileExtension(h);
    if ext in m {
      assert m[ext := h].Keys == m.Keys;
    } else {
      assert m[ext := h].Keys == m.Keys + {ext};
    }
  }
}
