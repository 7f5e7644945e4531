/**
 * The `/upload` route of the TypeScript server without its I/O: the multer
 * file filter, the header mapping handed to csv-parser, the required-column
 * check, the row decoder and filter, the error precedence of the handler
 * and the upsert loop that writes the Stock table.
 */
module UploadServer {

  import opened Wrappers
  import opened JsStrings
  import opened JsNumbers
  import opened CsvRows
  import opened Inventory

  // ---------------------------------------------------------------------------
  // File filter

  /** multer's `fileFilter`: a CSV mimetype, or a name ending in `.csv` in any case. */
  predicate AcceptsFile(mimetype: string, originalName: string) {
    mimetype == "text/csv" || EndsWith(ToLower(originalName), ".csv")
  }

  /** A character lower-cases to the letter `l` exactly when it is `l` or the
      capital `u` of `l` (for every letter but `k`, which the Kelvin sign also
      lower-cases to). */
  lemma LowerCharIs(c: char, l: char, u: char)
    requires 'a' <= l <= 'z' && l != 'k' && u as int == l as int - 32
    ensures LowerChar(c) == l <==> c == l || c == u
  {
  }

  /** The file filter looks only at the mimetype and the last four characters
      of the name. */
  lemma AcceptsFileIff(mimetype: string, name: string)
    ensures AcceptsFile(mimetype, name) <==>
      || mimetype == "text/csv"
      || (&& |name| >= 4
          && name[|name| - 4] == '.'
          && (name[|name| - 3] == 'c' || name[|name| - 3] == 'C')
          && (name[|name| - 2] == 's' || name[|name| - 2] == 'S')
          && (name[|name| - 1] == 'v' || name[|name| - 1] == 'V'))
  {
    if |name| >= 4 {
      var n := |name|;
      EndsWithFour(ToLower(name), ".csv");
      LowerCharIsDot(name[n - 4]);
      LowerCharIs(name[n - 3], 'c', 'C');
      LowerCharIs(name[n - 2], 's', 'S');
      LowerCharIs(name[n - 1], 'v', 'V');
    }
  }

  /** Only `.` lower-cases to `.`. */
  lemma LowerCharIsDot(c: char)
    ensures LowerChar(c) == '.' <==> c == '.'
  {
  }

  /** A four-character suffix, compared character by character. */
  lemma EndsWithFour(s: string, suffix: string)
    requires |s| >= 4 && |suffix| == 4
    ensures EndsWith(s, suffix) <==>
      && s[|s| - 4] == suffix[0] && s[|s| - 3] == suffix[1]
      && s[|s| - 2] == suffix[2] && s[|s| - 1] == suffix[3]
  {
    var n := |s|;
    assert s[n - 4..] == [s[n - 4], s[n - 3], s[n - 2], s[n - 1]];
  }

  // ---------------------------------------------------------------------------
  // Header mapping and parsing

  const BOM: char := '\U{FEFF}'

  /** The `mapHeaders` option: trim the header cell, then delete every U+FEFF;
      an empty cell is passed through. */
  function MapHeader(header: string): (r: string)
    ensures BOM !in r
    ensures IsTrimmed(r)
    ensures r == RemoveChar(Trim(header), BOM)
  {
    if header == "" then
      MapEmptyHeader();
      header
    else
      var t := Trim(header);
      MappedShape(t);
      RemoveChar(t, BOM)
  }

  /** Trimming and deleting U+FEFF leave the empty cell empty. */
  lemma MapEmptyHeader()
    ensures RemoveChar(Trim(""), BOM) == ""
  {
  }

  /** Deleting U+FEFF, which is white space, keeps a trimmed string trimmed. */
  lemma MappedShape(t: string)
    requires IsTrimmed(t)
    ensures BOM !in RemoveChar(t, BOM) && IsTrimmed(RemoveChar(t, BOM))
  {
    if t != [] {
      RemoveCharLast(t, BOM);
    }
  }

  /** A header cell that is already trimmed and free of U+FEFF is kept. */
  lemma MapHeaderClean(header: string)
    requires IsTrimmed(header) && BOM !in header
    ensures MapHeader(header) == header
  {
    RemoveCharAbsent(header, BOM);
  }

  /** Mapping a header twice gives what mapping it once gives. */
  lemma MapHeaderIdempotent(header: string)
    ensures MapHeader(MapHeader(header)) == MapHeader(header)
  {
    var m := MapHeader(header);
    if m != "" {
      assert Trim(m) == m;
      RemoveCharAbsent(m, BOM);
    }
  }

  function MapHeaders(header: seq<string>): (r: seq<string>)
    ensures |r| == |header|
    ensures forall i :: 0 <= i < |header| ==> r[i] == MapHeader(header[i])
  {
    if header == [] then [] else [MapHeader(header[0])] + MapHeaders(header[1..])
  }

  /** What `parseCSV` resolves with: one row per record, keyed by the mapped headers. */
  function ParsedRows(file: CsvFile): seq<Row> {
    var header := MapHeaders(file.header);
    seq(|file.records|, i requires 0 <= i < |file.records| => MakeRow(header, file.records[i]))
  }

  /** `parseCSV`: every "data" event pushes the record's row onto `results`. */
  method ParseCsv(file: CsvFile) returns (results: seq<Row>)
    ensures |results| == |file.records|
    ensures forall i :: 0 <= i < |results| ==> results[i] == MakeRow(MapHeaders(file.header), file.records[i])
  {
    var header := MapHeaders(file.header);
    results := [];
    for i := 0 to |file.records|
      invariant |results| == i
      invariant forall j :: 0 <= j < i ==> results[j] == MakeRow(header, file.records[j])
    {
      results := results + [MakeRow(header, file.records[i])];
    }
  }

  /** Every key of every parsed row is free of U+FEFF and of surrounding white space. */
  lemma ParsedKeysClean(file: CsvFile)
    ensures forall i, k | 0 <= i < |ParsedRows(file)| && k in ParsedRows(file)[i] :: BOM !in k && IsTrimmed(k)
  {
    var header := MapHeaders(file.header);
    forall i | 0 <= i < |file.records|
      ensures forall k | k in ParsedRows(file)[i] :: BOM !in k && IsTrimmed(k)
    {
      RowKeysClean(header, file.records[i]);
    }
  }

  /** A row built on a header of mapped cells has only mapped keys. */
  lemma RowKeysClean(header: seq<string>, cells: seq<string>)
    requires forall j :: 0 <= j < |header| ==> BOM !in header[j] && IsTrimmed(header[j])
    ensures forall k | k in MakeRow(header, cells) :: BOM !in k && IsTrimmed(k)
  {
    forall k | k in MakeRow(header, cells)
      ensures BOM !in k && IsTrimmed(k)
    {
      var j :| 0 <= j < |header| && header[j] == k;
    }
  }

  // ---------------------------------------------------------------------------
  // Required-column check

  const RequiredColumns: seq<string> :=
    ["ItemName", "SKU", "Category", "Unit", "CurrentStock", "ReorderLevel", "Status"]

  /** `h.toLowerCase().replace(/\s+/g, "")`. */
  function NormalizeHeader(h: string): (r: string)
    ensures forall i :: 0 <= i < |r| ==> !IsWhitespace(r[i]) && !IsUpper(r[i])
  {
    var lower := ToLower(h);
    var r := RemoveWhitespace(lower);
    assert forall i :: 0 <= i < |r| ==> r[i] in lower;
    r
  }

  /** A header without white space normalises to its lower-case form. */
  lemma NormalizeNoWhitespace(h: string)
    requires forall i :: 0 <= i < |h| ==> !IsWhitespace(h[i])
    ensures NormalizeHeader(h) == ToLower(h)
  {
    RemoveWhitespaceAbsent(ToLower(h));
  }

  /** A header without white space, capitals or the Kelvin sign is its own
      normal form. */
  lemma NormalizeClean(h: string)
    requires forall i :: 0 <= i < |h| ==> !IsWhitespace(h[i]) && !IsUpper(h[i]) && h[i] != Kelvin
    ensures NormalizeHeader(h) == h
  {
    RemoveWhitespaceAbsent(h);
  }

  function NormalizedHeaders(headers: set<string>): set<string> {
    set h | h in headers :: NormalizeHeader(h)
  }

  /** `xs` is `ys` with some elements deleted, the rest in their order. */
  predicate IsSubsequence(xs: seq<string>, ys: seq<string>)
    decreases |ys|
  {
    || xs == []
    || (&& ys != []
        && ((xs[0] == ys[0] && IsSubsequence(xs[1..], ys[1..])) || IsSubsequence(xs, ys[1..])))
  }

  /** `cols.filter(col => !present.includes(col.toLowerCase()))`. */
  function MissingColumns(present: set<string>, cols: seq<string>): (r: seq<string>)
    ensures forall c :: c in r <==> c in cols && ToLower(c) !in present
    ensures IsSubsequence(r, cols)
  {
    if cols == [] then []
    else
      var rest := MissingColumns(present, cols[1..]);
      if ToLower(cols[0]) in present then
        assert rest == [] || (cols != [] && IsSubsequence(rest, cols[1..]));
        rest
      else
        assert ([cols[0]] + rest)[1..] == rest;
        [cols[0]] + rest
  }

  /** The required columns that no header of the first row names. */
  function Missing(first: Row): seq<string> {
    MissingColumns(NormalizedHeaders(first.Keys), RequiredColumns)
  }

  /** No column name holds white space. */
  lemma RequiredColumnsPlain(j: nat)
    requires j < |RequiredColumns|
    ensures forall i :: 0 <= i < |RequiredColumns[j]| ==> !IsWhitespace(RequiredColumns[j][i])
  {
  }

  /** A header row that holds every column name, each spelled as declared or
      all in lower case, passes the column check. */
  lemma ColumnNamesPass(first: Row)
    requires forall c :: c in RequiredColumns ==> c in first || ToLower(c) in first
    ensures Missing(first) == []
  {
    forall j | 0 <= j < |RequiredColumns|
      ensures forall i :: 0 <= i < |RequiredColumns[j]| ==> !IsWhitespace(RequiredColumns[j][i])
    {
      RequiredColumnsPlain(j);
    }
    ColumnsPass(first, RequiredColumns);
  }

  /** The same for any list of names without white space. */
  lemma ColumnsPass(first: Row, cols: seq<string>)
    requires forall j, i :: 0 <= j < |cols| && 0 <= i < |cols[j]| ==> !IsWhitespace(cols[j][i])
    requires forall c :: c in cols ==> c in first || ToLower(c) in first
    ensures MissingColumns(NormalizedHeaders(first.Keys), cols) == []
  {
    var present := NormalizedHeaders(first.Keys);
    forall j | 0 <= j < |cols|
      ensures ToLower(cols[j]) in present
    {
      ColumnPasses(first, cols[j]);
    }
  }

  /** One column name without white space, present as declared or in lower
      case, is found by the column check. */
  lemma ColumnPasses(first: Row, c: string)
    requires forall i :: 0 <= i < |c| ==> !IsWhitespace(c[i])
    requires c in first || ToLower(c) in first
    ensures ToLower(c) in NormalizedHeaders(first.Keys)
  {
    NormalizeNoWhitespace(c);
    if c in first {
      assert NormalizeHeader(c) in NormalizedHeaders(first.Keys);
    } else {
      NormalizeIgnoresCase(c);
      assert NormalizeHeader(ToLower(c)) in NormalizedHeaders(first.Keys);
    }
  }

  /** White space anywhere in a header is ignored by the column check. */
  lemma NormalizeIgnoresWhitespace(a: string, w: char, b: string)
    requires IsWhitespace(w)
    ensures NormalizeHeader(a + [w] + b) == NormalizeHeader(a + b)
  {
    ToLowerSplice(a, w, b);
    ToLowerAppend(a, b);
    RemoveWhitespaceSplice(ToLower(a), w, ToLower(b));
  }

  lemma ToLowerSplice(a: string, w: char, b: string)
    ensures ToLower(a + [w] + b) == ToLower(a) + [LowerChar(w)] + ToLower(b)
  {
    ToLowerAppend(a, [w]);
    ToLowerAppend(a + [w], b);
  }

  lemma RemoveWhitespaceSplice(a: string, w: char, b: string)
    requires IsWhitespace(w)
    ensures RemoveWhitespace(a + [w] + b) == RemoveWhitespace(a + b)
  {
    assert RemoveWhitespace([w]) == [] by {
      assert [w][1..] == [];
    }
    RemoveWhitespaceAppend(a, [w]);
    RemoveWhitespaceAppend(a + [w], b);
    RemoveWhitespaceAppend(a, b);
  }

  /** The Kelvin sign lower-cases to `k`, so in a header it reads as `K`:
      `S\u212AU` names the SKU column. */
  lemma KelvinSignReadsAsK(a: string, b: string)
    ensures NormalizeHeader(a + [Kelvin] + b) == NormalizeHeader(a + ['K'] + b)
  {
    ToLowerSplice(a, Kelvin, b);
    ToLowerSplice(a, 'K', b);
  }

  /** Letter case in a header is ignored by the column check. */
  lemma NormalizeIgnoresCase(h: string)
    ensures NormalizeHeader(ToLower(h)) == NormalizeHeader(h)
  {
  }

  /** Any character that is neither white space nor changed by lower-casing
      survives normalisation. */
  lemma NormalizeKeeps(h: string, c: char)
    requires c in h && !IsWhitespace(c) && !IsUpper(c) && c != Kelvin
    ensures c in NormalizeHeader(h)
  {
    var i :| 0 <= i < |h| && h[i] == c;
    assert ToLower(h)[i] == c;
    RemoveWhitespaceKeeps(ToLower(h), c);
  }

  /** An underscore is kept, so "current_stock" and "currentstock" name
      different columns. */
  lemma UnderscoreDistinguishes(a: string, b: string)
    requires '_' !in a + b
    ensures NormalizeHeader(a + ['_'] + b) != NormalizeHeader(a + b)
  {
    assert (a + ['_'] + b)[|a|] == '_';
    NormalizeKeeps(a + ['_'] + b, '_');
    ToLowerAbsent(a + b, '_');
  }

  // ---------------------------------------------------------------------------
  // Row decoding and filtering

  /** `row.key` is truthy: present and not the empty string. */
  predicate Has(row: Row, key: string) {
    key in row && row[key] != ""
  }

  /** `String(row.key || "").trim()`. */
  function TextField(row: Row, key: string): (t: string)
    ensures IsTrimmed(t)
    ensures Has(row, key) ==> t == Trim(row[key])
    ensures t == "" <==> key !in row || AllWhitespace(row[key])
  {
    if Has(row, key) then Trim(row[key]) else ""
  }

  /** `String(row.k1 || row.k2 || "").trim()`: the first truthy of the two
      keys is trimmed, even when it is only white space. */
  function TextField2(row: Row, k1: string, k2: string): (t: string)
    ensures IsTrimmed(t)
    ensures Has(row, k1) ==> t == Trim(row[k1])
    ensures !Has(row, k1) ==> t == TextField(row, k2)
  {
    if Has(row, k1) then Trim(row[k1]) else TextField(row, k2)
  }

  /** `parseFloat(row.k1 || row.k2 || "0") || 0`. When neither key is truthy
      the string parsed is "0", whose value 0 is written directly. A truthy
      first key is parsed even when it gives NaN or 0; the second key is then
      never looked at. */
  function NumericField(row: Row, k1: string, k2: string): (n: Number)
    ensures !n.NaN?
    ensures !Has(row, k1) && !Has(row, k2) ==> n == Finite(0.0)
    ensures Has(row, k1) && Truthy(ParseFloat(row[k1])) ==> n == ParseFloat(row[k1])
    ensures !Has(row, k1) && Has(row, k2) && Truthy(ParseFloat(row[k2])) ==> n == ParseFloat(row[k2])
    ensures Has(row, k1) && !Truthy(ParseFloat(row[k1])) ==> n == Finite(0.0)
    ensures !Has(row, k1) && Has(row, k2) && !Truthy(ParseFloat(row[k2])) ==> n == Finite(0.0)
  {
    if Has(row, k1) then OrZero(ParseFloat(row[k1]))
    else if Has(row, k2) then OrZero(ParseFloat(row[k2]))
    else Finite(0.0)
  }

  /** The object literal of the `data.map(...)` step. */
  function Decode(row: Row): (r: StockRecord)
    ensures IsTrimmed(r.itemName) && IsTrimmed(r.sku) && IsTrimmed(r.category)
    ensures IsTrimmed(r.unit) && IsTrimmed(r.status)
    ensures !r.currentStock.NaN? && !r.reorderLevel.NaN?
  {
    StockRecord(
      itemName := TextField2(row, "ItemName", "Item Name"),
      sku := TextField(row, "SKU"),
      category := TextField(row, "Category"),
      unit := TextField(row, "Unit"),
      currentStock := NumericField(row, "CurrentStock", "Current Stock"),
      reorderLevel := NumericField(row, "ReorderLevel", "Reorder Level"),
      status := TextField(row, "Status"))
  }

  /** Which keys feed which field of the decoded record. */
  lemma DecodeFields(row: Row)
    ensures Decode(row).itemName == TextField2(row, "ItemName", "Item Name")
    ensures Decode(row).sku == TextField(row, "SKU")
    ensures Decode(row).category == TextField(row, "Category")
    ensures Decode(row).unit == TextField(row, "Unit")
    ensures Decode(row).status == TextField(row, "Status")
    ensures Decode(row).currentStock == NumericField(row, "CurrentStock", "Current Stock")
    ensures Decode(row).reorderLevel == NumericField(row, "ReorderLevel", "Reorder Level")
  {
  }

  /** The predicate of the `.filter(...)` step. */
  predicate Keep(r: StockRecord) {
    && r.itemName != ""
    && r.sku != ""
    && r.category != ""
    && r.unit != ""
    && !r.currentStock.NaN?
    && !r.reorderLevel.NaN?
    && r.status != ""
  }

  /** A decoded row is kept exactly when its five text fields hold something
      other than white space under the exact keys read (for ItemName, in the
      first truthy of "ItemName" and "Item Name"); the NaN tests never reject. */
  lemma KeepDecodedIff(row: Row)
    ensures Keep(Decode(row)) <==>
      && (if Has(row, "ItemName") then !AllWhitespace(row["ItemName"])
          else "Item Name" in row && !AllWhitespace(row["Item Name"]))
      && "SKU" in row && !AllWhitespace(row["SKU"])
      && "Category" in row && !AllWhitespace(row["Category"])
      && "Unit" in row && !AllWhitespace(row["Unit"])
      && "Status" in row && !AllWhitespace(row["Status"])
  {
  }

  /** A whitespace-only "ItemName" is truthy, so it shadows "Item Name" and
      the row is dropped, whatever "Item Name" holds. */
  lemma BlankItemNameShadowsFallback(row: Row)
    requires "ItemName" in row && row["ItemName"] != "" && AllWhitespace(row["ItemName"])
    ensures !Keep(Decode(row))
  {
  }

  /** The `data.map(...)` step. */
  function DecodeAll(data: seq<Row>): (rs: seq<StockRecord>)
    ensures |rs| == |data|
    ensures forall i :: 0 <= i < |data| ==> rs[i] == Decode(data[i])
  {
    seq(|data|, i requires 0 <= i < |data| => Decode(data[i]))
  }

  /** The `.filter(...)` step: the records that pass `Keep`, in order. */
  function KeptRecords(rs: seq<StockRecord>): (ks: seq<StockRecord>)
    ensures |ks| <= |rs|
    ensures forall i :: 0 <= i < |ks| ==> Keep(ks[i])
  {
    if rs == [] then []
    else (if Keep(rs[0]) then [rs[0]] else []) + KeptRecords(rs[1..])
  }

  /** `validRecords`. */
  function ValidRecords(data: seq<Row>): (rs: seq<StockRecord>)
    ensures |rs| <= |data|
    ensures forall i :: 0 <= i < |rs| ==> Keep(rs[i])
  {
    KeptRecords(DecodeAll(data))
  }

  /** Filtering a longer list appends the new record exactly when it is kept,
      so the kept records follow the input order. */
  lemma KeptSnoc(rs: seq<StockRecord>, r: StockRecord)
    ensures KeptRecords(rs + [r]) == KeptRecords(rs) + (if Keep(r) then [r] else [])
  {
    KeptAppend(rs, [r]);
    KeptUnfold([r]);
    assert [r][1..] == [];
  }

  /** Filtering distributes over concatenation. */
  lemma {:induction false} KeptAppend(a: seq<StockRecord>, b: seq<StockRecord>)
    ensures KeptRecords(a + b) == KeptRecords(a) + KeptRecords(b)
  {
    if a == [] {
      assert a + b == b;
    } else {
      var head := if Keep(a[0]) then [a[0]] else [];
      assert (a + b)[0] == a[0];
      assert (a + b)[1..] == a[1..] + b;
      KeptAppend(a[1..], b);
      calc {
        KeptRecords(a + b);
        { KeptUnfold(a + b); }
        head + KeptRecords(a[1..] + b);
        head + (KeptRecords(a[1..]) + KeptRecords(b));
        (head + KeptRecords(a[1..])) + KeptRecords(b);
        { KeptUnfold(a); }
        KeptRecords(a) + KeptRecords(b);
      }
    }
  }

  /** One step of the filter: the first record is dropped or kept. */
  lemma KeptUnfold(rs: seq<StockRecord>)
    requires rs != []
    ensures KeptRecords(rs) == (if Keep(rs[0]) then [rs[0]] else []) + KeptRecords(rs[1..])
  {
  }

  /** The filter drops nothing it should keep and keeps nothing it should drop. */
  lemma {:induction false} KeptMembers(rs: seq<StockRecord>, r: StockRecord)
    ensures r in KeptRecords(rs) <==> r in rs && Keep(r)
  {
    if rs != [] {
      KeptMembers(rs[1..], r);
      assert rs == [rs[0]] + rs[1..];
    }
  }

  /** A list none of whose records passes filters to nothing. */
  lemma {:induction false} KeptNone(rs: seq<StockRecord>)
    requires forall i :: 0 <= i < |rs| ==> !Keep(rs[i])
    ensures KeptRecords(rs) == []
  {
    if rs != [] {
      KeptNone(rs[1..]);
    }
  }

  /** Appending a row appends its record exactly when the record is kept. */
  lemma ValidRecordsSnoc(data: seq<Row>, row: Row)
    ensures ValidRecords(data + [row]) ==
      ValidRecords(data) + (if Keep(Decode(row)) then [Decode(row)] else [])
  {
    DecodeAllSnoc(data, row);
    KeptSnoc(DecodeAll(data), Decode(row));
  }

  /** Decoding a longer list appends the new row's record. */
  lemma DecodeAllSnoc(data: seq<Row>, row: Row)
    ensures DecodeAll(data + [row]) == DecodeAll(data) + [Decode(row)]
  {
    var ds, es := DecodeAll(data + [row]), DecodeAll(data) + [Decode(row)];
    forall i | 0 <= i < |ds|
      ensures ds[i] == es[i]
    {
      if i < |data| {
        assert (data + [row])[i] == data[i];
      } else {
        assert (data + [row])[i] == row;
      }
    }
  }

  /** A record is valid exactly when it is kept and decodes some input row. */
  lemma ValidRecordsMembers(data: seq<Row>, r: StockRecord)
    ensures r in ValidRecords(data) <==>
      Keep(r) && exists i :: 0 <= i < |data| && Decode(data[i]) == r
  {
    KeptMembers(DecodeAll(data), r);
  }

  /** Without the exact key "SKU" in any row, every SKU decodes to "" and
      every row is dropped. */
  lemma NoExactSkuKeyNoRecords(data: seq<Row>)
    requires forall i :: 0 <= i < |data| ==> "SKU" !in data[i]
    ensures ValidRecords(data) == []
  {
    KeptNone(DecodeAll(data));
  }

  // ---------------------------------------------------------------------------
  // The handler

  /** An upload as multer sees it: the client's mimetype and file name, the
      byte size and the CSV content the parser will read. */
  datatype UploadedFile = UploadedFile(mimetype: string, originalName: string, size: nat, content: CsvFile)

  /** The `limits.fileSize` option: 2 MB. */
  const MaxFileSize: nat := 2 * 1024 * 1024

  /** The route's answers, as a tag: the two multer errors, which reach
      Express's default error handler before the handler runs, the four 400
      responses of the handler and its 200 one. */
  datatype Outcome =
    | NotCsv
    | FileTooLarge
    | NoFile
    | EmptyCsv
    | MissingColumnsError(columns: seq<string>)
    | NoValidRows
    | Processed(count: nat)

  /** The `error` text of a 400 response, the `message` of the 200 one, or the
      message of the error that multer raises. */
  function ResponseMessage(o: Outcome): string {
    match o
    case NotCsv => "Only CSV files are allowed."
    case FileTooLarge => "File too large"
    case NoFile => "No file uploaded."
    case EmptyCsv => "CSV is empty."
    case MissingColumnsError(columns) => "Missing columns: " + Join(columns, ", ")
    case NoValidRows => "No valid rows found in CSV."
    case Processed(_) => "CSV processed successfully (duplicates updated)."
  }

  /** Express answers an error without a status with 500. */
  function StatusCode(o: Outcome): (code: nat)
    ensures code == 200 <==> o.Processed?
    ensures code == 500 <==> o.NotCsv? || o.FileTooLarge?
    ensures code == 200 || code == 400 || code == 500
  {
    if o.Processed? then 200 else if o.NotCsv? || o.FileTooLarge? then 500 else 400
  }

  /** The missing-columns answer starts with its fixed text and names every
      missing column; with `JoinAppend` the rest is the columns in order,
      separated by `", "`. */
  lemma MissingColumnsMessage(columns: seq<string>)
    ensures StartsWith(ResponseMessage(MissingColumnsError(columns)), "Missing columns: ")
    ensures forall i :: 0 <= i < |columns| ==>
      Contains(ResponseMessage(MissingColumnsError(columns)), columns[i])
  {
    var prefix := "Missing columns: ";
    var joined := Join(columns, ", ");
    assert (prefix + joined)[..|prefix|] == prefix;
    forall i | 0 <= i < |columns|
      ensures Contains(prefix + joined, columns[i])
    {
      JoinContains(columns, ", ", i);
      ContainsWithin(prefix, joined, "", columns[i]);
      assert prefix + joined + "" == prefix + joined;
    }
  }

  /** What the checks before the upsert loop decide about a parse result. */
  datatype Screened = Rejected(outcome: Outcome) | Accepted(records: seq<StockRecord>)

  /** The three early returns of the handler, in the order it tests them. */
  function Screen(data: seq<Row>): (v: Screened)
    ensures v.Rejected? ==> v.outcome.EmptyCsv? || v.outcome.MissingColumnsError? || v.outcome.NoValidRows?
    ensures v.Accepted? ==>
      && data != []
      && (forall c :: c in RequiredColumns ==> ToLower(c) in NormalizedHeaders(data[0].Keys))
      && v.records == ValidRecords(data) && v.records != []
    ensures v.Rejected? && v.outcome.MissingColumnsError? ==>
      data != [] && v.outcome.columns == Missing(data[0]) && v.outcome.columns != []
  {
    if data == [] then Rejected(EmptyCsv)
    else if Missing(data[0]) != [] then Rejected(MissingColumnsError(Missing(data[0])))
    else if ValidRecords(data) == [] then Rejected(NoValidRows)
    else Accepted(ValidRecords(data))
  }

  /** Error precedence: an empty parse result first, then missing columns
      (whatever the rows hold), then the absence of valid rows. */
  lemma ScreenPrecedence(data: seq<Row>)
    ensures Screen(data) == Rejected(EmptyCsv) <==> data == []
    ensures (Screen(data).Rejected? && Screen(data).outcome.MissingColumnsError?) <==>
      data != [] && exists c :: c in RequiredColumns && ToLower(c) !in NormalizedHeaders(data[0].Keys)
    ensures Screen(data) == Rejected(NoValidRows) <==>
      && data != []
      && (forall c :: c in RequiredColumns ==> ToLower(c) in NormalizedHeaders(data[0].Keys))
      && ValidRecords(data) == []
  {
    if data != [] {
      var m := Missing(data[0]);
      if m != [] {
        assert m[0] in m;
      }
    }
  }

  /** A header row spelled all in lower case may pass the column check, but
      then no row survives decoding, because the decoder reads the exact key
      "SKU". */
  lemma LowerCaseHeadersQuirk(data: seq<Row>)
    requires data != [] && Missing(data[0]) == []
    requires forall i, k :: 0 <= i < |data| && k in data[i] ==>
      (forall j :: 0 <= j < |k| ==> !IsUpper(k[j]))
    ensures Screen(data) == Rejected(NoValidRows)
  {
    forall i | 0 <= i < |data|
      ensures "SKU" !in data[i]
    {
      NoCapitalsNoSku(data[i]);
    }
    NoExactSkuKeyNoRecords(data);
  }

  /** The column names written in lower case as the header row: the column
      check passes and the decoder then finds no row. */
  lemma LowerCaseHeaderRowRejected(data: seq<Row>)
    requires data != []
    requires forall c :: c in RequiredColumns ==> ToLower(c) in data[0]
    requires forall i, k :: 0 <= i < |data| && k in data[i] ==>
      (forall j :: 0 <= j < |k| ==> !IsUpper(k[j]))
    ensures Screen(data) == Rejected(NoValidRows)
  {
    ColumnNamesPass(data[0]);
    LowerCaseHeadersQuirk(data);
  }

  /** A row whose keys hold no capital letter has no "SKU" key. */
  lemma NoCapitalsNoSku(row: Row)
    requires forall k :: k in row ==> (forall j :: 0 <= j < |k| ==> !IsUpper(k[j]))
    ensures "SKU" !in row
  {
    assert IsUpper("SKU"[0]);
  }

  /** The upsert loop: one `upsert` per valid record, in order, counting each. */
  method UpsertAll(db: StockTable, records: seq<StockRecord>) returns (upserted: nat)
    requires db.Valid()
    modifies db
    ensures db.Valid()
    ensures db.rows == AfterUpserts(old(db.rows), records)
    ensures upserted == |records|
  {
    upserted := 0;
    for i := 0 to |records|
      invariant db.Valid()
      invariant db.rows == AfterUpserts(old(db.rows), records[..i])
      invariant upserted == i
    {
      assert records[..i + 1][..i] == records[..i];
      db.Upsert(records[i]);
      upserted := upserted + 1;
    }
    assert records[..|records|] == records;
  }

  /** The `/upload` route: multer's filter and size limit, then the handler,
      which parses, screens, and upserts only when every check passes. */
  method HandleUpload(db: StockTable, upload: Option<UploadedFile>) returns (o: Outcome)
    requires db.Valid()
    modifies db
    ensures db.Valid()
    ensures upload.None? ==> o == NoFile
    ensures upload.Some? && !AcceptsFile(upload.value.mimetype, upload.value.originalName) ==> o == NotCsv
    ensures (&& upload.Some? && AcceptsFile(upload.value.mimetype, upload.value.originalName)
             && upload.value.size > MaxFileSize) ==> o == FileTooLarge
    ensures Admitted(upload) && Screen(ParsedRows(upload.value.content)).Rejected? ==>
      o == Screen(ParsedRows(upload.value.content)).outcome
    ensures Admitted(upload) && Screen(ParsedRows(upload.value.content)).Accepted? ==>
      var records := Screen(ParsedRows(upload.value.content)).records;
      o == Processed(|records|) && db.rows == AfterUpserts(old(db.rows), records)
    ensures !o.Processed? ==> db.rows == old(db.rows)
    ensures StatusCode(o) == 200 <==> Admitted(upload) && Screen(ParsedRows(upload.value.content)).Accepted?
    ensures StatusCode(o) != 200 ==> db.rows == old(db.rows)
  {
    if upload.None? {
      return NoFile;
    }
    var file := upload.value;
    if !AcceptsFile(file.mimetype, file.originalName) {
      return NotCsv;
    }
    if file.size > MaxFileSize {
      return FileTooLarge;
    }
    var data := ParseCsv(file.content);
    assert data == ParsedRows(file.content);
    match Screen(data)
    case Rejected(outcome) =>
      o := outcome;
    case Accepted(records) =>
      var count := UpsertAll(db, records);
      o := Processed(count);
  }

  /** multer hands the file to the handler: it passed the filter and the limit. */
  predicate Admitted(upload: Option<UploadedFile>) {
    && upload.Some?
    && AcceptsFile(upload.value.mimetype, upload.value.originalName)
    && upload.value.size <= MaxFileSize
  }
}
