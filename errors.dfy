/**
 * The errors the commands return: the plugin's own (errors.go and the
 * messages built in export_records.go), and those handed up from the
 * validator, the file system, the store and the codecs.
 */
module Errors {
  import opened Wrappers
  import Text
  import Files
  import Store
  import CsvCodec

  datatype Error =
    | Invalid(fields: map<string, string>)
    | NoRecordsHandler
    | NoCollectionHandler
    | DoNotExist(names: seq<string>)
    | NoCollectionsToExport
    | Fs(fs: Files.FsError)
    | Db(db: Store.StoreError)
    | CsvFailed(csv: CsvCodec.CsvError)
    | Codec(message: string)

  const NoCollectionHandlerMessage := "no collection encoding handler was installed"
  const NoRecordsHandlerMessage := "no records encoding handler was installed"

  /** The text of the errors the plugin itself defines; the others carry
      the text of the library that raised them. */
  function Message(e: Error): (m: Option<string>)
    ensures m.Some? <==> e.NoRecordsHandler? || e.NoCollectionHandler? || e.DoNotExist? || e.NoCollectionsToExport?
    ensures e.DoNotExist? ==> m == Some("collection(s) do not exist: " + Text.Join(e.names, ", "))
  {
    match e
    case NoRecordsHandler => Some(NoRecordsHandlerMessage)
    case NoCollectionHandler => Some(NoCollectionHandlerMessage)
    case DoNotExist(names) => Some("collection(s) do not exist: " + Text.Join(names, ", "))
    case NoCollectionsToExport => Some("no collections to export records")
    case _ => None
  }
}
