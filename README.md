# import_export: a Dafny model

`import_export` is a PocketBase plugin that adds four commands:

- `export records` writes the rows of each selected collection to one file `<collection>.<ext>` in the records directory.
- `import records` walks that directory and loads each matching file into the collection named by the file.
- `export collections` writes each collection schema to one file in the collections directory.
- `import collections` reads those files back and hands them to the store's bulk collection import. That import deletes the collections the files do not mention.

The file format comes from a codec registry keyed by file extension. The plugin registers a CSV codec of its own and JSON, TOML and YAML codecs.

This project models the plugin's core in Dafny and proves properties of it:

- the two flag value types, `RadioValue` and `OptionalBoolValue`;
- the codec registry and its two capabilities;
- the plugin's set-up and validation;
- the yes/no confirmation loop, the backup name and the slice boxing helper;
- the CSV codec, at the level of rows of cells;
- the `RunE` bodies of the four commands.

What is outside the plugin is modelled abstractly:

- **Directories** are a `FileSystem` object holding a map from paths to entries. A path is a sequence of names.
- **The PocketBase app** is an `App` object holding its tables, the order the collections query returns them in, the backups made and the bulk imports requested. A set of faults says which store calls fail.
- **Standard input** is the sequence of lines typed.
- **Randomness** is a function from the record's position to a draw of an id, a password and a token key.
- **The clock** is a parameter.

Each command keeps its Go form. It is a method that runs the same checks in the same order and returns the same errors, including those of the defects listed under "## Findings": the commands use the behaviour as written, and each corrected definition is stated and proved beside it. Its postconditions tie the new state of the directory or the store to specification functions, and lemmas state what those functions mean. Some large methods are split into helper methods, one per stage (confirm, back up, walk, write one file), to keep each proof small.

Modules, one per file:

- `wrappers`, `text`, `model`: generic pieces. `text` covers string order, trimming, lower-casing, `filepath.Ext` and `strings.Join`; `model` holds the PocketBase entities.
- `files`, `store`: the directory and the app.
- `radio_value`, `optional_bool_value`, `handlers`, `common`, `plugin`, `csv_codec`, `errors`: the flags, the registry, the helpers of common.go, the plugin object, the CSV codec and the error values.
- `export_records`, `import_records`, `export_collections`, `import_collections`: the four commands.

Two behaviours of the code are worth knowing before reading the model:

- **File filter of `import collections`.** import_collections.go:62 reads only files ending in `.json`, whatever codec is selected (`ImportCollections.IsJsonFile`). A TOML or YAML export is therefore never read back.
- **Depth of the walk.** Both imports use `filepath.Walk`, which visits subdirectories too (`Files.FileSystem.Walk`).

## Model

| member | source | states |
|---|---|---|
| RadioValues.SortStrings | flags/radio_value.go:22 | `slices.Sort` on the option array: afterwards it is sorted ascending and is a permutation of what it held |
| RadioValues.RadioValue.constructor | flags/radio_value.go:17-25 | the selected value is the first option in the order given, or "" when there is none; the caller's array is sorted in place and kept as the options |
| RadioValues.RadioValue.String | flags/radio_value.go:27-29 | returns exactly the selected value |
| RadioValues.RadioValue.Set | flags/radio_value.go:31-34 | stores any string, never fails, and leaves the options and their order alone |
| RadioValues.RadioValue.Options | flags/radio_value.go:40-42 | returns the stored sorted array itself, not a copy |
| RadioValues.RadioValue.Validate | flags/radio_value.go:44-55 | the binary search succeeds exactly when the value is one of the options; otherwise the error lists all options joined by ", " |
| RadioValues.ValidateWithoutOptions | flags/radio_value.go:44-55 | a radio value built from no options fails validation whatever it is set to |
| OptionalBools.ParseBool | flags/optional_bool_value.go:24 | the strings `cast.ToBoolE` accepts as true and as false; every other string fails to parse |
| OptionalBools.OptionalBoolValue.constructor | flags/optional_bool_value.go:14-16 | a new value is unset |
| OptionalBools.OptionalBoolValue.Set | flags/optional_bool_value.go:22-26 | afterwards the value is always set; a parsable string stores its bool; an unparsable one stores false and returns the parse error |
| OptionalBools.OptionalBoolValue.GetValue | flags/optional_bool_value.go:28-33 | (false, false) while unset; (the stored bool, true) once set |
| OptionalBools.OptionalBoolValue.Value | flags/optional_bool_value.go:39-44 | nil exactly while unset, and otherwise the stored bool |
| OptionalBools.SetThenGet | flags/optional_bool_value.go:22-33 | after any `Set`, `GetValue` reports the value set, holding true exactly when the string parses to true |
| Handlers.Registry.constructor | handlers.go:25 | the registry starts empty |
| Handlers.Registry.RegisterHandler | handlers.go:27-29 | the handler is stored under its own extension, replacing any handler there; no other extension changes |
| Handlers.RegisterCount | handlers.go:27-29 | registering a second handler for an extension does not add a key; a new extension adds exactly one; other extensions' presence is unchanged |
| Handlers.EncodeRecords | handlers.go:13-17 | records encoding through either kind of handler succeeds exactly when `EncodeSucceeds` says so: the CSV codec always, with a valid encoding; a library codec exactly when its function does, failing with that function's message |
| Handlers.DecodeRecords | handlers.go:13-17 | records decoding through either kind of handler gives the codec's result as written (for CSV, `DecodeRowsAsWritten`, so an empty file is `io.EOF`), with its error wrapped |
| Errors.Message | errors.go:5-8 | the plugin's own error texts: the two missing-handler errors, and "collection(s) do not exist: " followed by the names joined by ", " |
| Common.OptionsHint | common.go:16-19 | the hint is "Y/n" exactly when the fallback is true, and "y/N" otherwise |
| Common.Reads | common.go:24-27 | `confirm` prompts at least once and at most once per input line plus the empty read at the end |
| Common.FirstRecognisedDecides | common.go:24-39 | unrecognised lines are skipped; the first recognised line decides, "y"/"yes" giving true, "n"/"no" false, an empty line the fallback; input with no recognised line gives the fallback |
| Common.EmptyReadIsDefault | common.go:27-33 | the read at the end of input yields "", which selects the fallback |
| Common.ScanDecides | common.go:27-38 | where the scan stops, that line, or the empty read at end of input, decides, after one prompt per line read |
| Common.Scan | common.go:24-39 | the loop reads until the first recognised line or the end of input, writing the prompt before each read |
| Common.Confirm | common.go:15-40 | the answer is what the first recognised line decides, with one prompt written per read |
| Common.StampShape | common.go:46 | the time stamp of a valid instant is fourteen digits |
| Common.BackupNameShape | common.go:42-48 | a backup name is the snake-cased name, "_", fourteen digits and the extension ".zip" |
| Common.SliceToAnySlice | common.go:50-56 | boxing keeps the length and every element in order |
| Text.ExtOfDotted | import_records.go:96-100 | a file named `<name>.<ext>` has extension `.<ext>`, and stripping it gives `<name>` back, so an import finds the collection an export wrote |
| Text.Join | export_records.go:82 | `strings.Join`: no parts give "", one part gives that part |
| Text.TrimLeft | common.go:29 | the leading half of `strings.TrimSpace`: a suffix of the input that does not start with white space |
| Text.TrimRight | common.go:29 | the trailing half of `strings.TrimSpace`: a prefix of the input that does not end with white space |
| Text.ToLower | common.go:29 | `strings.ToLower` on ASCII: same length, each of 'A' to 'Z' replaced by its lower-case letter and every other character kept |
| Text.TrimSuffix | import_records.go:100 | with the suffix present the result followed by it is the input; otherwise the input unchanged |
| Text.Ext | import_records.go:96 | `filepath.Ext`: empty, or a suffix of the name that starts with the only dot in it |
| Text.Decimal | common.go:46 | the decimal digits of a number, at least the width given |
| Plugins.Plugin.constructor | plugin.go:73-75 | the plugin starts with automatic backups on and every other field at its zero value |
| Plugins.Init | plugin.go:72-88 | the CSV, JSON, TOML and YAML codecs are registered in that order, each under its own extension |
| Plugins.Partition | plugin.go:112-121 | an extension is listed as a collections option exactly when its handler has both collection methods, and as a records option exactly when it has both records methods; no extension is listed twice |
| Plugins.NewRadio | plugin.go:122-125 | each encoding flag is built over exactly those options, with "json" or "csv" selected |
| Plugins.Plugin.PreValidate | plugin.go:109-129 | the directories are `migrations/collections` and `migrations/records` next to the data directory; the options come from the handlers' capabilities; the defaults are "json" and "csv"; both overrides are unset |
| Plugins.Plugin.Validate | plugin.go:132-137 | validation passes exactly when both encoding flags are present and hold one of their options; a missing flag reports "cannot be blank" and a bad value reports the flag's own message, keyed by the field's JSON name |
| Plugins.BuiltinOptions | plugin.go:76-87 | with the built-in codecs, the collections options are json, toml and yml, and the records options add csv, which lacks the collection methods |
| Plugins.Configure | plugin.go:72-129 | after `init` and the `PreValidate` of the plugin and of the CSV codec, the flags hold exactly three and four options, their defaults are valid, and every registered CSV codec has its delimiter |
| Plugins.Startup | plugin.go:72-137 | start-up with the built-in codecs passes validation and leaves the registry ready to decode CSV |
| CsvCodec.CsvPlugin.constructor | handlers/csv/plugin.go:13-17 | the plugin starts with an empty delimiter |
| CsvCodec.CsvPlugin.PreValidate | handlers/csv/plugin.go:38-41 | the delimiter becomes "," |
| CsvCodec.Utf8Size | handlers/csv/plugin.go:48 | a character takes one to four UTF-8 bytes, and one exactly when it is ASCII |
| CsvCodec.Utf8Length | handlers/csv/plugin.go:48 | the byte length `Length(1, 1)` measures lies between one and four bytes per character |
| CsvCodec.OneByte | handlers/csv/plugin.go:48 | a string is one UTF-8 byte long exactly when it is one ASCII character |
| CsvCodec.CsvPlugin.Validate | handlers/csv/plugin.go:44-51 | validation passes exactly when the delimiter is one byte; an empty delimiter is "cannot be blank", any other length "the length must be exactly 1" |
| CsvCodec.CsvPlugin.FileExtension | handlers/csv/plugin.go:59-61 | the extension is "csv" |
| CsvCodec.Header | handlers/csv/plugin.go:116-126 | the header holds every field name once, in any order, except password fields and, in an auth collection, the token key |
| CsvCodec.CellText | handlers/csv/plugin.go:136-147 | strings are written verbatim, date-times as their `String()`, nil as "null" |
| CsvCodec.DataRow | handlers/csv/plugin.go:132-149 | one cell per header name |
| CsvCodec.DataRows | handlers/csv/plugin.go:132-153 | one row per record |
| CsvCodec.EncodeRow | handlers/csv/plugin.go:132-149 | a row has one cell per header name, in header order |
| CsvCodec.CsvPlugin.EncodeRecords | handlers/csv/plugin.go:105-155 | no records give an empty file; otherwise a header for the first record's collection, then one row per record, in order |
| CsvCodec.CellValue | handlers/csv/plugin.go:84-87 | the cell `""` (two quote characters) becomes nil; every other cell is its string |
| CsvCodec.ParseDateTime | handlers/csv/plugin.go:90 | nil and "" parse to the zero time; text of the default layout's shape parses to that time; text of another shape fails |
| CsvCodec.PrepareValue | handlers/csv/plugin.go:96 | a text field stores the cell's string (nil as ""); a bool field stores true exactly for the strings `strconv.ParseBool` reads as true, and false for every other cell; a password field takes the cell as its new plain password; the values of other field types are kept as given |
| CsvCodec.ApplyCells | handlers/csv/plugin.go:78-98 | applying a row's cells changes only the values of header names, not the record's collection or its new flag |
| CsvCodec.CellRule | handlers/csv/plugin.go:78-97 | per header name: a name unknown to the collection sets nothing; an autodate cell that does not parse sets nothing; any other cell is set through `record.Set` |
| CsvCodec.DecodeRow | handlers/csv/plugin.go:77-98 | each data row is a new record of the collection with its cells applied in header order |
| CsvCodec.FirstBadRow | handlers/csv/plugin.go:71-74 | finds the first row whose width differs from the header's, which the reader reports as a field-count error |
| CsvCodec.DecodeRowsAsWritten | handlers/csv/plugin.go:64-102 | as written: an empty file is `io.EOF`; on success there is one new record of the collection per data row |
| CsvCodec.EmptyExportNotImportable | handlers/csv/plugin.go:67-70 | what the encoder writes for no records cannot be decoded as written |
| CsvCodec.DecodeRows | handlers/csv/plugin.go:64-102 | decoding with an empty file read as no records; any other input as written |
| CsvCodec.CsvPlugin.DecodeRecords | handlers/csv/plugin.go:64-102 | the decoder computes `DecodeRowsAsWritten`: an empty file is `io.EOF`; otherwise the header row, then a width check of every row, then one record per data row |
| CsvCodec.CellRoundTrip | handlers/csv/plugin.go:84-97 | the cell written for a text, bool or valid date value decodes to that value again |
| CsvCodec.RecordRoundTrip | handlers/csv/plugin.go:75-101 | the row written for a record decodes to the record's exported values when field names are unique and the values round-trip |
| CsvCodec.EncodeDecode | handlers/csv/plugin.go:64-155 | decoding what `EncodeRecords` wrote gives back each record's exported values, in order; for at least one record the decoder as written gives the same |
| Model.GetByName | handlers/csv/plugin.go:79 | the lookup finds a field of that name exactly when one exists |
| Model.FieldTypes | handlers/csv/plugin.go:117 | the field map has exactly the collection's field names as keys |
| Model.LookupsAgree | handlers/csv/plugin.go:79 | with unique field names, the field lookup the decoder uses and the field map the encoder ranges over agree |
| Model.NewRecord | handlers/csv/plugin.go:77 | `core.NewRecord`: a record of the collection, with no values, marked new |
| Store.Query | export_records.go:46-60 | the query selects a collection exactly when it passes the name filter (when names are given) and the system filter, in store order |
| Store.DeleteError | import_records.go:111-115 | deleting the rows succeeds only for an existing collection |
| Store.SaveError | import_records.go:155-163 | a save succeeds only into an existing collection, and when validating only if the validator accepts the record |
| Store.QueryConsistent | export_records.go:46-60 | in a consistent store the query lists each collection once, as the schema stored under its name |
| Store.App.FindAllRecords | export_records.go:127-130 | the rows of the collection, or the store's error |
| Store.App.CreateBackup | import_records.go:86-93 | the backup is recorded, or the failure is returned and nothing is recorded |
| Store.App.FindCollection | import_records.go:106-109 | the collection of that name, or a not-found error |
| Store.App.DeleteRows | import_records.go:111-115 | every row of the table goes, or the failure is returned and nothing changes |
| Store.App.Save | import_records.go:155-163 | the record is appended to its table as a stored row, or the reason for failure is returned and nothing changes; validation failures occur only on the validating path |
| Store.App.ImportCollections | import_collections.go:87-89 | the bulk import is recorded with its documents and the delete-missing flag, or the failure is returned |
| Files.Parent | plugin.go:110-111 | the parent of a path; the root is its own parent |
| Files.FileSystem.RemoveAll | export_records.go:111-115 | the directory and everything under it are gone; a missing directory is no error |
| Files.FileSystem.MkdirAll | export_records.go:117-119 | fails, changing nothing, exactly when a file stands on the way; otherwise the directory and every directory above it exist |
| Files.Removed | export_records.go:112 | a path remains after the removal exactly when it is outside the directory, with its entry unchanged |
| Files.WithDirs | export_records.go:117 | after the creation the directory and every directory above it are present; other entries are unchanged |
| Files.FileSystem.Create | export_records.go:135-138 | an empty file is created or truncated, or the reason for failure is returned and nothing changes |
| Files.FileSystem.Write | export_records.go:142 | the file holds exactly what the encoder wrote; no other path changes |
| Files.FileNameInjective | export_records.go:132 | collections with different names get different files |
| Files.FileSystem.Walk | import_records.go:95-98 | a missing root is the error passed to the callback; otherwise every path at or below the root once, in `filepath.Walk` order |
| Files.ListingUnique | import_records.go:95 | the walk order is fixed by the set of paths walked |
| ExportRecords.NotExisting | export_records.go:71-81 | the requested names that match no selected collection, and no others |
| ExportRecords.SelectionErrorAsWritten | export_records.go:62-83 | the checks as written: names given and nothing selected reports every name; nothing selected is an error; passing requires as many collections as names; a reported name was requested and has no collection |
| ExportRecords.RepeatedNameAsWritten | export_records.go:70-83 | as written, naming an existing collection twice fails with an error listing no collection |
| ExportRecords.SelectionError | export_records.go:62-83 | names given and nothing selected: every name is reported; nothing selected: "no collections to export records"; otherwise an error exactly when a requested name is missing, listing only such names |
| ExportRecords.SelectionAgrees | export_records.go:70-83 | without repeated names, the check above agrees with the count comparison as written |
| ExportRecords.CloseResult | export_records.go:134-145 | an encoder error is reported, and failing that the close error |
| ExportRecords.EncodeErrorLostAsWritten | export_records.go:139-141 | as written, an encoder error followed by a clean close is lost |
| ExportRecords.WriteOne | export_records.go:127-145 | the collection's rows are encoded into `<dir>/<name>.<ext>`, which holds their encoding when the encoder succeeds; only a failure to read the rows or create the file is reported, since the close result replaces the encoder's error; no other path changes |
| ExportRecords.WriteAll | export_records.go:121-146 | views are skipped; only store and file-system errors stop the loop; on success every other selected collection has exactly one file, holding the encoding of its rows wherever the encoder succeeded, and nothing else changed |
| ExportRecords.Export | export_records.go:111-146 | the directory is wiped only when no names are given, then created, then written as `WriteAll` says; nothing outside it changes |
| ExportRecords.ConfirmExport | export_records.go:85-146 | a declined question changes nothing; a yes exports as `Export` says |
| ExportRecords.ExportRecords | export_records.go:33-149 | validation, handler, query and selection errors (the checks as written, `SelectionErrorAsWritten`) are returned before any change, and a no changes nothing; nothing outside the records directory changes; with names given no file is removed; on success the directory holds the export |
| ExportCollections.Rewrite | export_collections.go:73-78 | only the OAuth2 settings and the update time can change: the OAuth2 settings are zeroed exactly for auth collections when not included, and the update time exactly when reducing the diff |
| ExportCollections.WriteOne | export_collections.go:80-92 | the collection is encoded into `<dir>/<name>.<ext>`, which holds the encoding when the encoder succeeds; only a failure to create the file is reported, since the close result replaces the encoder's error; no other path changes |
| ExportCollections.WriteNext | export_collections.go:80-92 | one pass of the loop for an exported collection: its file is added and holds the encoding where the encoder succeeded, or a file-system error is returned with nothing outside the directory changed |
| ExportCollections.WriteAll | export_collections.go:69-93 | system collections are skipped unless asked for; only file-system errors stop the loop; on success every other collection has exactly one file, holding its rewritten encoding wherever the encoder succeeded, and nothing else changed |
| ExportCollections.Export | export_collections.go:56-93 | the directory is wiped and created before the query; a file on the way gives a file-system error; otherwise a failed query gives exactly the query's database error; on success the directory holds the export |
| ExportCollections.ConfirmExport | export_collections.go:43-93 | a declined question changes nothing; a yes exports as `Export` says, with the query's database error when the query fails and the directory could be created |
| ExportCollections.ExportCollections | export_collections.go:30-95 | validation and handler errors come before any change, and a no changes nothing; nothing outside the collections directory changes; a failed query after a yes gives the query's database error; on success the directory holds the export |
| ImportRecords.FixUp | import_records.go:134-154 | a record is marked new; a supplied id is kept and an empty one drawn; an auth record gets a drawn password with no plain text, a drawn token key, and the overrides that are set; nothing else changes |
| ImportRecords.FixUpHasId | import_records.go:136-141 | every prepared record has an id |
| ImportRecords.Fixed | import_records.go:134-154 | each record of a file is prepared with the draw for its position |
| ImportRecords.Saved | import_records.go:155-163 | a saved row is the record itself, no longer new, in the same position |
| ImportRecords.Appended | import_records.go:134-164 | saving records keeps the same collections with the same schemas |
| ImportRecords.AppendedElsewhere | import_records.go:134-164 | a table that no saved record belongs to is unchanged |
| ImportRecords.AppendedToOne | import_records.go:134-164 | records of one collection are appended to its table, in order |
| ImportRecords.ImportSemantics | import_records.go:111-164 | a file's collection ends up holding exactly the file's records, or the old rows followed by them with `no_delete`; other tables are unchanged |
| ImportRecords.CsvKeepsCollection | handlers/csv/plugin.go:77 | the CSV decoder gives records of the collection it is handed |
| ImportRecords.SaveAll | import_records.go:134-164 | the records are prepared and saved in order; the first failed save stops the loop with the store's error, and the records before it stay saved |
| ImportRecords.DecodeAndSave | import_records.go:117-166 | a decode error (an empty CSV file among them) is returned with the store unchanged; on success the file decoded and every record prepared and saved; with a decoder that keeps the collection, other tables are unchanged |
| ImportRecords.ImportFile | import_records.go:111-166 | the collection is emptied first unless `no_delete`, and a failed deletion is returned with nothing changed; then a decode error is returned with the collection left emptied; on success the file's records are saved after what remains |
| ImportRecords.EmptyCsvFileFails | handlers/csv/plugin.go:67-70 | the CSV handler fails on an empty file with `io.EOF`, so such a file stops the walk after its collection was emptied |
| ImportRecords.ImportAll | import_records.go:95-167 | only files with the codec's extension whose name is wanted are imported; on success each such name is an existing collection; tables of collections no chosen file names are unchanged |
| ImportRecords.BackupAndImport | import_records.go:86-167 | the backup comes first when enabled, and its failure stops everything; then the walk |
| ImportRecords.ConfirmImport | import_records.go:57-167 | a declined question changes nothing; a yes backs up and imports |
| ImportRecords.ImportRecords | import_records.go:40-168 | validation, handler and missing-directory errors come before any change, and a no changes nothing; the backup is made before the walk; only the chosen collections' tables change |
| ImportCollections.Strip | import_collections.go:76-78 | unless included, the `oauth2` key is removed and every other key is untouched |
| ImportCollections.JsonFiles | import_collections.go:62 | exactly the walked paths that are files ending in `.json`, in walk order |
| ImportCollections.GatheredIsDecodedFiles | import_collections.go:61-82 | the walk succeeds exactly when every `.json` file decodes; it then yields one stripped document per such file, in walk order |
| ImportCollections.NoOAuth2Gathered | import_collections.go:76-80 | with OAuth2 not included, no collected document has the `oauth2` key |
| ImportCollections.GatheredErrorStays | import_collections.go:61-85 | after the first error the rest of the walk does not matter |
| ImportCollections.GatherAll | import_collections.go:61-82 | the loop collects exactly the gathered documents, or the first decode error |
| ImportCollections.WalkAndImport | import_collections.go:59-89 | a walk or decode error returns before the bulk import; otherwise the import is called once with every document and delete-missing set |
| ImportCollections.BackupAndImport | import_collections.go:50-89 | the backup comes first when enabled, and its failure stops everything; then the walk and the import |
| ImportCollections.ConfirmImport | import_collections.go:42-89 | a declined question changes nothing; a yes backs up and imports |
| ImportCollections.ImportCollections | import_collections.go:29-92 | validation and handler errors come before any change, and a no changes nothing; otherwise the backup, the walk and one bulk import |

## Left out

- Cobra commands and flags, the command prefix, `MarkFlagsMutuallyExclusive` and the `Set to encoding` and cancellation messages. These are command-line plumbing and output.
- The xpb plugin metadata (`Name`, `Version`, `Description`, `Init`), `RadioValue.Type`, `OptionalBoolValue.String`/`Type`, and the JSON marshalling methods of both flag types.
- The JSON, TOML and YAML codecs are carried only as the functions they compute (`Handlers.Handler.Library`). Their formats are not modelled.
- Byte-level CSV: quoting, and the delimiter's role in splitting cells. A CSV file is the sequence of rows of cells the Go reader yields. A write error from `csv.Writer` is not modelled, so CSV encoding never fails.
- JSON marshalling of non-string cell values. A value of another type carries the text `json.Marshal` gives for it.
- `Handlers.EncodeRecords`, `Handlers.DecodeRecords` and `CsvCodec.CsvPlugin.DecodeRecords`: a CSV plugin whose delimiter is empty would panic in Go (`p.Delimiter[0]`). The model requires a delimiter instead, and every command reaches the codec only after the registry is set up.
- `CsvCodec.ParseDateTime` checks only the shape of the default layout (digits and separators in place). Out-of-range fields such as month 13, which `time.Parse` rejects, are accepted. The library's behaviour on other inputs is not modelled beyond a text of another shape failing.
- `Text.ToLower` lower-cases only 'A' to 'Z', while `strings.ToLower` lower-cases every Unicode upper-case letter. No other letter lower-cases to y, e, s, n or o, so the answers `confirm` recognises are classified the same either way.
- An encoder that fails leaves its file with content the model does not specify: whatever the encoder wrote before failing.
- Store internals: SQL, record validation, and the merge `ImportCollections` performs. A set of faults says which call fails. A bulk import is recorded as a call, not applied to the schemas.
- `Store.App.FindCollection` looks a collection up by name only. The by-id half of `FindCollectionByNameOrId` is not modelled.
- Randomness: `RandomStringByRegex`, `RandomString` and `RefreshTokenKey` are a `draws` parameter. The k-th record read across the whole walk uses draw k, and the draws' shape is `ImportRecords.WellFormed`. A failing random generator is not modelled.
- The clock and `inflector.Snakecase`: the time is an `Instant` parameter and the commands pass the snake-case names `import_records` and `import_collections` already converted.
- `cast.ToBoolE` is modelled by the strings `strconv.ParseBool` accepts. Its handling of numbers and other types is left out.
- File opening and closing: `os.Open` and `file.Close` never fail in the model, and no file is left open. Errors the walk meets below the root are not modelled; a missing root is.
- Files.FileSystem.RemoveAll, Files.FileSystem.MkdirAll, Files.FileSystem.Create, Files.FileSystem.Write: permission and I/O faults are not modelled. `RemoveAll` never fails and has no error result. `MkdirAll` fails only when a file stands on the way. `Create` fails only when the parent is missing or a file, or a directory stands at the path. `Write` always succeeds.
- The filesystem root itself is never an entry.
- `ExportRecords.Quote` stands for Go's `%q` only for paths holding no quote, backslash or control character.
- `ImportRecords.ImportRecords`: the whole store after a successful import is stated per file (`ImportFile`, `ImportSemantics`) and, for the rest, as tables no chosen file names staying unchanged. There is no single closed form for several files.
- `ImportRecords.ImportAll`: the unchanged-tables clause holds only for decoders that return records of the collection they are handed (`KeepsCollection`). The CSV codec does (`CsvKeepsCollection`); a library codec's records may name another collection, and then the model says nothing about which tables change.
- `ExportCollections.Export`: a failed query is reported as an error, but the already-wiped directory is not described in that case.
- CsvCodec.PrepareValue: PocketBase's `record.Set` normalises every value through its field's own `PrepareValue`. Only text, bool and password fields are modelled. Number, JSON, select, relation and file fields keep the cell's string here, where PocketBase stores a float, parsed JSON or a list of strings. The password is kept as given, not hashed.
- `ExportRecords.ExportPrompt`, `ImportRecords.ImportPrompt`, `ExportCollections.ExportPrompt` and `ImportCollections.ImportPrompt` are the prompt texts as computed, with no properties stated about them.

## Findings

The commands follow the code as written in each case below. The corrected member states the evidently intended behaviour and proves it.

| source | as written | input that shows it | evidently intended | confidence | as-written member | corrected member |
|---|---|---|---|---|---|---|
| export_records.go:139-141 | the deferred `err = file.Close()` assigns the closure's named result after `EncodeRecords` returned, so a successful close replaces the encoder's error | a records codec whose `EncodeRecords` fails on a file that then closes cleanly: the command goes on and reports success | the encoder's error is returned, and the close error only when there is none | high; not executed | ExportRecords.EncodeErrorLostAsWritten | ExportRecords.CloseResult |
| export_collections.go:86-88 | the same deferred close overwrites the error of `EncodeCollection` | a collection codec whose `EncodeCollection` fails on a file that then closes cleanly | the encoder's error is returned | high; not executed | ExportRecords.EncodeErrorLostAsWritten | ExportRecords.CloseResult |
| export_records.go:70 | the missing-name check compares the number of selected collections with the number of names given | `--collection users,users` with `users` existing: one collection for two names gives "collection(s) do not exist: " with an empty list | an error only when some requested name has no collection | high; not executed | ExportRecords.RepeatedNameAsWritten | ExportRecords.SelectionError |
| handlers/csv/plugin.go:67-70 | an empty file has no header, so `csvReader.Read` returns `io.EOF` and decoding fails, while `EncodeRecords` writes an empty file for no records (lines 106-108) | exporting a collection with no rows as CSV, then importing: the walk aborts with `EOF` | a file with no rows decodes to no records | medium; not executed | CsvCodec.EmptyExportNotImportable | CsvCodec.DecodeRows |
