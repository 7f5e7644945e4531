# Inventory CSV ingestion, modelled in Dafny

This project models the step of the inventory back end that turns an uploaded
CSV file into rows of the `Stock` table, and proves properties of that model.
It covers three pieces of the repository:

- The `/upload` route of the TypeScript server. This is the multer file
  filter and its 2 MB limit, the `mapHeaders` clean-up handed to csv-parser,
  the required-column check, the decode `map` and validity `filter`, the
  handler's early returns in order, and the sequential `upsert` loop with its
  counter (`upload_server.dfy`).
- `validateRow`, a first-failure validator over JavaScript values that
  returns a message or `null` (`validators.dfy`).
- The earlier `/upload` route of `index.js`, which maps every row without
  trimming or validation and inserts the batch with `createMany` and
  `skipDuplicates` (`legacy_upload.dfy`).

Shared modules:

- `js_strings.dfy`: the JavaScript string operations the code calls.
  Trimming uses the ECMA-262 WhiteSpace and LineTerminator sets, which
  include U+FEFF. The module also has `toLowerCase` for the ASCII capitals
  and the Kelvin sign,
  `replace(/\s+/g, "")`, `join` and integer formatting.
- `js_numbers.dfy`: ECMA-262 numbers, written `Finite(real)`,
  `Infinite(sign)` or `NaN`. It has `parseFloat`, which reads the longest
  decimal prefix, and `Number(string)`, which reads the whole trimmed string
  and also accepts `0x`/`0o`/`0b` literals. It also has truthiness and
  `|| 0`.
- `csv_rows.dfy`: the row objects csv-parser emits. Each is a map from header
  to cell, and a later duplicate header wins.
- `inventory.dfy`: the `Stock` table as a map from SKU to record. On it are
  Prisma's `upsert` (last write wins) and `createMany` with `skipDuplicates`
  (insert if absent, first write wins). Both are pure folds and methods of a
  `StockTable` class whose `rows` field they update in place.

Behaviour of the code worth knowing, all of it stated by lemmas below:

- An absent or unparsable count is stored as 0.
- A file with no data rows is answered 400 with "CSV is empty.".
- Header matching deletes white space and lower-cases, so `Current Stock`
  matches `CurrentStock`, but `current_stock` matches nothing.
- The decoder then reads exact keys, so an all-lower-case header row passes
  the column check and yields no records.
- Rows sharing a SKU are each upserted in turn; the last one is what stays,
  and the returned count includes every one of them.
- The earlier route inserts only SKUs that are not yet stored; a stored
  record is never changed by it.

## Model

| member | source | states |
|---|---|---|
| UploadServer.AcceptsFileIff | backend/src/server.ts:32-37 | multer accepts the file exactly when the mimetype is `text/csv` or the name ends in `.` followed by `c`/`C`, `s`/`S` and `v`/`V`; nothing else in the name matters |
| UploadServer.MapHeader | backend/src/server.ts:51-52 | a mapped header is the trimmed cell with every U+FEFF deleted, so it holds no U+FEFF and has no surrounding white space |
| UploadServer.MapHeaderClean | backend/src/server.ts:51-52 | a header cell that is already trimmed and free of U+FEFF is passed through unchanged |
| UploadServer.MapHeaderIdempotent | backend/src/server.ts:51-52 | mapping a header twice gives the same as mapping it once |
| UploadServer.ParseCsv | backend/src/server.ts:45-59 | `parseCSV` yields one row per record, in stream order, each keyed by the mapped header cells |
| UploadServer.ParsedKeysClean | backend/src/server.ts:50-55 | no key of any parsed row contains U+FEFF or surrounding white space |
| UploadServer.Missing | backend/src/server.ts:92-98 | `missing` for the first row's keys; ScreenPrecedence states that it is empty exactly when every required column is present |
| UploadServer.NormalizeHeader | backend/src/server.ts:92-94 | a normalised header contains no white space and no upper-case letter |
| UploadServer.NormalizeNoWhitespace | backend/src/server.ts:92-94 | a header without white space normalises to its lower-case form |
| UploadServer.NormalizeClean | backend/src/server.ts:92-94 | a header without white space, capitals or the Kelvin sign is its own normal form |
| UploadServer.RequiredColumnsPlain | backend/src/server.ts:82-90 | no required column name contains white space |
| UploadServer.ColumnNamesPass | backend/src/server.ts:92-98 | a first row whose keys include every required column name, each as declared or in lower case, leaves `missing` empty |
| UploadServer.ColumnsPass | backend/src/server.ts:96-98 | the same for any list of names without white space |
| UploadServer.NormalizeIgnoresWhitespace | backend/src/server.ts:92-94 | inserting a white-space character anywhere in a header leaves its normal form unchanged, so `Current Stock` matches `CurrentStock` |
| UploadServer.NormalizeIgnoresCase | backend/src/server.ts:92-94 | lower-casing a header first leaves its normal form unchanged |
| UploadServer.NormalizeKeeps | backend/src/server.ts:92-94 | every character that is neither white space nor changed by lower-casing survives normalisation |
| UploadServer.KelvinSignReadsAsK | backend/src/server.ts:92-94 | a Kelvin sign in a header normalises like `K`, so `S\u212AU` passes the check for the SKU column |
| UploadServer.UnderscoreDistinguishes | backend/src/server.ts:92-98 | inserting `_` changes the normal form, so `current_stock` does not match `CurrentStock` |
| UploadServer.MissingColumns | backend/src/server.ts:96-98 | `missing` holds exactly the required columns whose lower-case form is not a normalised header, as a subsequence of the declared order |
| UploadServer.TextField | backend/src/server.ts:111-118 | a truthy cell is decoded to its trimmed text; the result is empty exactly when the key is absent or holds only white space |
| UploadServer.TextField2 | backend/src/server.ts:110 | the item name is the trimmed `ItemName` when that is truthy, otherwise the decoded `Item Name` |
| UploadServer.NumericField | backend/src/server.ts:114-117 | a count is never NaN; it is 0 when neither key is truthy; otherwise the first truthy key alone is parsed, and the count is its value when that is truthy and 0 when it is NaN or 0 |
| UploadServer.Decode | backend/src/server.ts:108-119 | every decoded text field is trimmed and neither count is NaN; DecodeFields says which keys feed which field |
| UploadServer.DecodeFields | backend/src/server.ts:108-119 | each field is read from its own keys: `ItemName` (else `Item Name`), `SKU`, `Category`, `Unit` and `Status` as text, `CurrentStock` (else `Current Stock`) and `ReorderLevel` (else `Reorder Level`) as counts |
| UploadServer.KeepDecodedIff | backend/src/server.ts:108-129 | a row survives the filter exactly when ItemName (or its fallback), SKU, Category, Unit and Status hold more than white space under the exact keys; the `isNaN` tests never reject |
| UploadServer.BlankItemNameShadowsFallback | backend/src/server.ts:110-122 | a non-empty, white-space-only `ItemName` hides `Item Name`, and the row is dropped |
| UploadServer.Keep | backend/src/server.ts:120-129 | the filter's test; KeepDecodedIff states which raw rows pass it |
| UploadServer.DecodeAll | backend/src/server.ts:108-119 | the `map` step gives one record per row, each the decoding of the row at the same position |
| UploadServer.ValidRecords | backend/src/server.ts:108-129 | `validRecords` is no longer than the input and holds only records that pass the test; ValidRecordsSnoc and ValidRecordsMembers fix it |
| UploadServer.KeptRecords | backend/src/server.ts:120-129 | the filter never lengthens the list, and every record it keeps passes the test |
| UploadServer.KeptMembers | backend/src/server.ts:120-129 | a record is in the filtered list exactly when it is in the input and passes the test |
| UploadServer.ValidRecordsSnoc | backend/src/server.ts:108-129 | appending a row appends its decoded record exactly when that record is kept, so valid records keep the input order |
| UploadServer.DecodeAllSnoc | backend/src/server.ts:108-119 | decoding a longer list appends the new row's record |
| UploadServer.KeptAppend | backend/src/server.ts:120-129 | the filter distributes over concatenation |
| UploadServer.ValidRecordsMembers | backend/src/server.ts:108-129 | a record is valid exactly when it passes the test and is the decoding of some input row |
| UploadServer.NoExactSkuKeyNoRecords | backend/src/server.ts:111-123 | if no row has the exact key `SKU`, no record is valid |
| UploadServer.LowerCaseHeadersQuirk | backend/src/server.ts:92-135 | a file whose headers are all lower case and that passes the column check is always answered "No valid rows found in CSV." |
| UploadServer.LowerCaseHeaderRowRejected | backend/src/server.ts:92-135 | a file whose header row is the required names in lower case passes the column check and is answered "No valid rows found in CSV." |
| UploadServer.StatusCode | backend/src/server.ts:70-166 | only the success answer is 200; the two multer errors are 500 and every other answer is 400 |
| UploadServer.ResponseMessage | backend/src/server.ts:100-106 | MissingColumnsMessage states that the missing-columns answer starts with `Missing columns: ` and names every missing column |
| UploadServer.MissingColumnsMessage | backend/src/server.ts:100-106 | the missing-columns answer starts with `Missing columns: ` and contains every missing column |
| UploadServer.Screen | backend/src/server.ts:76-135 | the handler rejects only with the empty, missing-columns or no-valid-rows answer; when it goes on, the file is non-empty, every required column is present and the records are the non-empty valid records; a missing-columns answer lists exactly `missing` for the first row, which is non-empty |
| UploadServer.ScreenPrecedence | backend/src/server.ts:76-135 | the file is rejected as empty exactly when it has no rows; for missing columns, exactly when it is non-empty and some required column is absent; for no valid rows, exactly when every column is present and no row is valid |
| UploadServer.UpsertAll | backend/src/server.ts:137-153 | the loop leaves the table as the in-order fold of one upsert per valid record, and `upserted` is the number of records, duplicates counted each time |
| UploadServer.HandleUpload | backend/src/server.ts:64-160 | the route answers in order: no file, not a CSV, too large, empty, missing columns, no valid rows, else processed with the record count and the table upserted; every answer but the last leaves the table unchanged; the status is 200 exactly when the file is admitted and passes the three checks |
| Inventory.AfterUpsert | backend/src/server.ts:140-151 | an upsert adds the record's SKU and changes no other key; the stored key is never rewritten; on a table keyed by SKU the record is stored under its SKU |
| Inventory.UpsertsLastWins | backend/src/server.ts:139-153 | after the loop, each SKU of the batch maps to its last occurrence, every other SKU is unchanged, and each record is still stored under its own SKU |
| Inventory.UpsertsIdempotent | backend/src/server.ts:139-153 | running the upsert loop a second time on the same records changes nothing |
| Inventory.StockTable.Upsert | backend/src/server.ts:140-151 | the method applies one upsert in place and keeps every record under its SKU |
| Inventory.AfterUpserts | backend/src/server.ts:139-153 | the upsert loop as a fold; UpsertsLastWins and UpsertsIdempotent state what it leaves |
| Inventory.AfterCreateMany | backend/index.js:42-45 | `createMany` with `skipDuplicates` as a fold; CreateManyFirstWins, CreateManyGrows and CreateManyIdempotent state what it leaves |
| Inventory.AfterInsertIfAbsent | backend/index.js:42-45 | inserting with `skipDuplicates` keeps every stored record and adds the record only when its SKU is new |
| Inventory.CreateManyFirstWins | backend/index.js:42-45 | after `createMany`, stored SKUs are unchanged, and each new SKU maps to its first occurrence in the batch |
| Inventory.CreateManyGrows | backend/index.js:42-45 | `createMany` adds exactly the batch's SKUs and keeps every stored record |
| Inventory.CreateManyIdempotent | backend/index.js:42-45 | inserting the same batch again changes nothing |
| Inventory.StockTable.CreateManySkipDuplicates | backend/index.js:42-45 | the method applies the insert-if-absent fold in place and keeps every record under its SKU |
| Inventory.UpsertsAgreeWithCreateMany | backend/src/server.ts:139-153 | for a batch of distinct SKUs none of which is stored, the upsert loop and `createMany` leave the same table |
| Inventory.DuplicateSkuPolicies | backend/index.js:42-45 | two different records with one SKU: the upsert loop keeps the second and `createMany` keeps the first |
| CsvRows.MakeRow | backend/src/server.ts:55 | a row's keys are header cells, and every header cell that has a value is a key |
| CsvRows.MakeRowAt | backend/src/server.ts:55 | a header cell maps to the cell of the last column, among those with a cell, where it occurs, so a later duplicate header wins |
| CsvRows.MakeRowAbsent | backend/src/server.ts:55 | a label in no column that has a cell is not a key |
| JsStrings.Trim | backend/src/server.ts:52 | the result has no surrounding white space and is empty exactly when the input is all white space; an already trimmed string is unchanged |
| JsStrings.TrimFramed | backend/src/server.ts:52 | the result is the part of the input between white-space margins, so with `Trim`'s own contract it is fixed completely |
| JsStrings.TrimIdempotent | backend/src/server.ts:52 | trimming twice is trimming once |
| JsStrings.RemoveChar | backend/src/server.ts:52 | deleting U+FEFF removes every occurrence, adds no character, and keeps a first character that is not U+FEFF in front |
| JsStrings.RemoveCharKeeps | backend/src/server.ts:52 | every character other than the deleted one survives the deletion |
| JsStrings.RemoveCharAbsent | backend/src/server.ts:52 | a string without the deleted character is left unchanged |
| JsStrings.RemoveCharLast | backend/src/server.ts:52 | a last character other than the deleted one stays last |
| JsStrings.RemoveCharAppend | backend/src/server.ts:52 | deleting a character distributes over concatenation, so what is kept stays in order |
| JsStrings.ToLower | backend/src/server.ts:35 | lower-casing maps each character on its own and leaves a string without capitals or Kelvin signs unchanged |
| JsStrings.RemoveWhitespace | backend/src/server.ts:93 | the result has no white space and only characters of the input |
| JsStrings.RemoveWhitespaceAbsent | backend/src/server.ts:93 | a string without white space is left unchanged; with RemoveWhitespaceAppend this fixes the result of every string |
| JsStrings.RemoveWhitespaceKeeps | backend/src/server.ts:93 | every character other than white space survives |
| JsStrings.RemoveWhitespaceAppend | backend/src/server.ts:93 | removing white space distributes over concatenation |
| JsStrings.Join | backend/src/server.ts:104 | no columns join to the empty string, one column is joined as itself, and several start with the first and `", "` |
| JsStrings.JoinAppend | backend/src/server.ts:104 | joining two non-empty lists is joining each with the separator between, which with the cases above fixes every join |
| JsStrings.JoinContains | backend/src/server.ts:104 | every element occurs in the joined text |
| JsStrings.IntToStringInjective | backend/src/validators.ts:17 | different row numbers print differently |
| JsNumbers.OrZero | backend/src/server.ts:115 | falling back to 0 never yields NaN; a truthy number is kept and a falsy one (0, -0, NaN) becomes 0 |
| JsNumbers.ScanDecimal | backend/src/server.ts:115 | a decimal prefix is found exactly when the text starts like a decimal literal, and its value is never NaN |
| JsNumbers.ParseFloat | backend/src/server.ts:115 | `parseFloat` is NaN exactly when, after leading white space, no decimal literal starts |
| JsNumbers.StringToNumber | backend/src/validators.ts:21-25 | `Number` of blank text is 0; text that does not start like a numeric literal is NaN; and a decimal literal followed by other characters is NaN, so the whole text must be numeric |
| JsNumbers.LetterStartIsNaN | backend/index.js:35-36 | a string starting with a lower-case letter, `"undefined"` among them, parses to NaN |
| JsNumbers.DigitStringValue | backend/src/validators.ts:21 | a string of decimal digits parses, by `parseFloat` and by `Number`, to its decimal value |
| Validators.Rank | backend/src/validators.ts:13 | each field has its position in the fixed order of `requiredFields` |
| Validators.IsMissing | backend/src/validators.ts:16 | the loop's test; IsMissingIff states which values it rejects |
| Validators.ToNumber | backend/src/validators.ts:21-25 | `Number(v)`; NotNumericIsText, DigitTextValue and StringToNumber state what it gives |
| Validators.IsMissingIff | backend/src/validators.ts:16 | a field is missing exactly when it is undefined, a string of white space (the empty string included), or the number 0 or NaN |
| Validators.FirstMissing | backend/src/validators.ts:15-19 | the search finds nothing exactly when no field of the list is missing; otherwise it finds a missing field with no missing field before it |
| Validators.NotNumericIsText | backend/src/validators.ts:16-22 | a present field whose `Number` is NaN is a string |
| Validators.Check | backend/src/validators.ts:15-27 | an invalid-value rejection only ever names CurrentStock or ReorderLevel |
| Validators.ValidateRow | backend/src/validators.ts:12-30 | the result is null exactly when no check fails; otherwise it is `Message` of the first failure: `Row `, the 1-based row number, `: `, then `Missing required field '<name>'` or `Invalid value for <name> (<text>)` (`MessageTail`) |
| Validators.FirstMissingNoneIff | backend/src/validators.ts:15-19 | the loop finds no missing field exactly when all seven fields are present |
| Validators.ValidateRowNullIff | backend/src/validators.ts:12-30 | null exactly when all seven fields are present and both counts convert to a number |
| Validators.FirstMissingReported | backend/src/validators.ts:13-18 | the reported missing field is missing, and every field before it in the fixed order is present |
| Validators.MissingBeforeInvalid | backend/src/validators.ts:15-27 | a missing field is reported ahead of any invalid count |
| Validators.CurrentStockBeforeReorderLevel | backend/src/validators.ts:21-27 | with all fields present and CurrentStock not numeric, CurrentStock is reported with its text, whatever ReorderLevel holds |
| Validators.ReorderLevelReported | backend/src/validators.ts:25-26 | with all fields present, CurrentStock numeric and ReorderLevel not, ReorderLevel is reported with its text |
| Validators.BlankFieldReported | backend/src/validators.ts:16 | a white-space-only string field causes a missing-field report, for it or for an earlier field |
| Validators.DigitTextPresent | backend/src/validators.ts:16 | a non-empty string of digits, `"0"` among them, is never missing |
| Validators.DigitTextValue | backend/src/validators.ts:21 | a non-empty string of digits converts to its decimal value and passes the numeric check |
| Validators.MessagesNameTheRow | backend/src/validators.ts:17-26 | two messages that are equal come from the same row index |
| LegacyUpload.Lookup | backend/index.js:31-37 | a field is defined exactly when its exact key is present, and it then holds the cell unchanged |
| LegacyUpload.CountField | backend/index.js:35-36 | a count is never NaN and is 0 when its key is absent |
| LegacyUpload.CountFieldFaithful | backend/index.js:35-36 | the count equals `parseFloat` of the text form of `row[key]`, falling back to 0, in every case, the absent key included |
| LegacyUpload.ToLegacy | backend/index.js:30-38 | the record pushed for one row; LegacyFields states which key feeds each field |
| LegacyUpload.LegacyFields | backend/index.js:30-38 | each text field is the cell under its exact key (`ItemName`, `SKU`, `Category`, `Unit`, `Status`), undefined when absent; the counts are read only from `Current Stock` and `Reorder Level` |
| LegacyUpload.CollectRows | backend/index.js:26-39 | every parsed row yields exactly one record, in stream order, with nothing filtered |
| LegacyUpload.TextCopiedVerbatim | backend/index.js:31-37 | the SKU is copied as it is; a padded SKU differs from what the newer route stores |
| LegacyUpload.CamelCaseCountIgnored | backend/index.js:35-36 | a `CurrentStock` column without a `Current Stock` one stores 0 |
| LegacyUpload.Batch | backend/index.js:42-45 | the batch is insertable exactly when every record defines every text field, and it is then those records in order |
| LegacyUpload.StoreAll | backend/index.js:42-45 | an insertable batch is inserted if absent, record by record; otherwise the table is unchanged |
| LegacyUpload.LegacyMessage | backend/index.js:19-48 | an answer is sent for every outcome but the unanswered one |
| LegacyUpload.HandleLegacyUpload | backend/index.js:16-49 | no file is the 400 answer with nothing written; otherwise the table is the insert-if-absent result, and the success answer is sent exactly when the batch is insertable; a message goes out exactly when there is no file or the batch is insertable |
| LegacyUpload.LegacyStore | backend/index.js:40-45 | the table after one legacy upload; LegacyStoreOnlyGrows and LegacyReuploadUnchanged state what it leaves |
| LegacyUpload.LegacyStoreOnlyGrows | backend/index.js:42-45 | an upload never changes or removes a stored record, adds only the batch's SKUs, and keeps every record under its SKU |
| LegacyUpload.LegacyReuploadUnchanged | backend/index.js:42-45 | uploading the same file a second time leaves the table as it is |
| LegacyUpload.ByteOrderMarkRejectsBatch | backend/index.js:27-31 | a header starting with U+FEFF before `ItemName` leaves every item name undefined, so nothing is inserted |

## Left out

- Transport is not modelled: Express, CORS, multer's disk storage, the upload directory, the `Date.now()` file name and `app.listen`. The uploaded file is a value holding its mimetype, name, size and already tokenised content.
- File-system effects are not modelled: `createReadStream`, `unlinkSync` and `existsSync`. Nor is the Promise and event callback plumbing; parsing is a loop over the given records.
- CSV tokenising (quoting, field splitting, line endings) is done by csv-parser, which is not part of this model. Rows are given as header cells plus record cells. Cells beyond the header count are not modelled.
- HTTP bodies are not modelled: responses are an outcome tag, the message text and the status code. For the two multer errors, only the message and the 500 status of Express's default error handler are modelled, not its HTML body.
- HandleUpload does not model the `catch` branch. That branch answers 500 with the error's own message, or "Internal server error." when the message is empty. It would be reached by a parse or database failure, and such failures are not modelled. Nor does it model a failure in the middle of the upsert loop that leaves earlier upserts committed.
- Numbers are exact reals. Rounding to binary64, overflow to Infinity from long digit strings, and negative zero are not modelled. `parseFloat` and `Number` follow the ECMA-262 grammar otherwise, with `Infinity` and exponents.
- JsStrings.ToLower: lower-cases the ASCII capitals and U+212A KELVIN SIGN (to `k`), and keeps every other character. Other non-ASCII characters (`Ä`, `Σ`, and so on) are not lower-cased. Among characters that can make a header match a required column name, only the Kelvin sign lower-cases to a single ASCII letter; U+0130 becomes two characters and matches nothing. So the column check is exact for those names, but normalised headers holding other non-ASCII capitals differ from JavaScript's.
- Strings are sequences of code points; UTF-16 surrogate pairs are not modelled.
- NumericField: when neither key is truthy, the source parses the literal `"0"`. The model writes 0 directly. The two agree because `parseFloat("0") || 0` is 0.
- LegacyUpload.CountField: an absent key reads as `undefined`. The model writes 0 directly, and CountFieldFaithful proves this equals parsing the text `"undefined"`.
- The Prisma schema is not part of this model. LegacyUpload.Batch assumes every column is required, so a batch with an undefined text field is rejected as a whole before any insert.
- HandleLegacyUpload: that rejection happens inside the `"end"` callback, which the `try` does not cover. The model answers `Unanswered` and writes nothing; it does not model Node's unhandled-rejection handling.
- LegacyUpload.RawRows: the legacy route passes no `mapHeaders`, so header cells are taken as they are, a leading U+FEFF included.
- Validators.ValidateRow: `index` is a Dafny `int`; a non-integer JavaScript `index` is not modelled. `validateRow` is not called by either route, and the model keeps it separate.
- The health-check route, the frontend (React page, PapaParse, the `fetch` upload), the layout and the Next.js configuration are not part of this model.
- Concurrent uploads are not modelled; each modelled upload runs alone against the table.
