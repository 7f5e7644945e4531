/**
 * The earlier `/upload` route of `backend/index.js`: every parsed row is
 * mapped to a record without trimming or validation, and the whole batch is
 * handed to `createMany` with `skipDuplicates`, so stored SKUs are never
 * rewritten.
 */
module LegacyUpload {

  import opened Wrappers
  import opened JsStrings
  import opened JsNumbers
  import opened CsvRows
  import opened Inventory
  import UploadServer

  /** One element of `results`. A text field is `undefined` when its column is
      absent; the counts are always numbers. */
  datatype LegacyRecord = LegacyRecord(
    itemName: Option<string>,
    sku: Option<string>,
    category: Option<string>,
    unit: Option<string>,
    currentStock: Number,
    reorderLevel: Number,
    status: Option<string>)

  /** `row[key]`. */
  function Lookup(row: Row, key: string): (v: Option<string>)
    ensures v.Some? <==> key in row
    ensures v.Some? ==> v.value == row[key]
  {
    if key in row then Some(row[key]) else None
  }

  /** `String(v)`, the conversion `parseFloat` applies to its argument. */
  function JsText(v: Option<string>): string {
    match v
    case Some(s) => s
    case None => "undefined"
  }

  /** `parseFloat(row[key]) || 0`. An absent key reads as `undefined`, which
      parses to NaN and so becomes 0; that value is written directly. */
  function CountField(row: Row, key: string): (n: Number)
    ensures !n.NaN?
    ensures key !in row ==> n == Finite(0.0)
  {
    if key in row then OrZero(ParseFloat(row[key])) else Finite(0.0)
  }

  /** `CountField` is `parseFloat(String(row[key])) || 0` in every case. */
  lemma CountFieldFaithful(row: Row, key: string)
    ensures CountField(row, key) == OrZero(ParseFloat(JsText(Lookup(row, key))))
  {
    if key !in row {
      var undefined := JsText(None);
      assert undefined[0] == 'u';
      LetterStartIsNaN(undefined);
    }
  }

  /** The object pushed for each `"data"` event. */
  function ToLegacy(row: Row): LegacyRecord {
    LegacyRecord(
      itemName := Lookup(row, "ItemName"),
      sku := Lookup(row, "SKU"),
      category := Lookup(row, "Category"),
      unit := Lookup(row, "Unit"),
      currentStock := CountField(row, "Current Stock"),
      reorderLevel := CountField(row, "Reorder Level"),
      status := Lookup(row, "Status"))
  }

  /** Which key feeds which field of the pushed record. */
  lemma LegacyFields(row: Row)
    ensures ToLegacy(row).itemName == Lookup(row, "ItemName")
    ensures ToLegacy(row).sku == Lookup(row, "SKU")
    ensures ToLegacy(row).category == Lookup(row, "Category")
    ensures ToLegacy(row).unit == Lookup(row, "Unit")
    ensures ToLegacy(row).status == Lookup(row, "Status")
    ensures ToLegacy(row).currentStock == CountField(row, "Current Stock")
    ensures ToLegacy(row).reorderLevel == CountField(row, "Reorder Level")
  {
  }

  /** The `"data"` handler: one record per row, appended in stream order,
      nothing filtered. */
  method CollectRows(rows: seq<Row>) returns (results: seq<LegacyRecord>)
    ensures |results| == |rows|
    ensures forall i :: 0 <= i < |rows| ==> results[i] == ToLegacy(rows[i])
  {
    results := [];
    for i := 0 to |rows|
      invariant |results| == i
      invariant forall j :: 0 <= j < i ==> results[j] == ToLegacy(rows[j])
    {
      results := results + [ToLegacy(rows[i])];
    }
  }

  /** The records of one upload, as `CollectRows` builds them. */
  function LegacyRecords(rows: seq<Row>): seq<LegacyRecord> {
    seq(|rows|, i requires 0 <= i < |rows| => ToLegacy(rows[i]))
  }

  /** Text fields are copied verbatim: no trimming, no default. Where the new
      route would trim a padded SKU, this one stores the padding. */
  lemma TextCopiedVerbatim(row: Row)
    requires "SKU" in row
    ensures ToLegacy(row).sku == Some(row["SKU"])
    ensures !IsTrimmed(row["SKU"]) ==> ToLegacy(row).sku.value != UploadServer.Decode(row).sku
  {
  }

  /** The counts are read only from the spaced keys: a file with a
      "CurrentStock" column but no "Current Stock" one stores 0. */
  lemma CamelCaseCountIgnored(row: Row)
    requires "CurrentStock" in row && "Current Stock" !in row
    ensures ToLegacy(row).currentStock == Finite(0.0)
  {
  }

  /** Every field the Prisma model requires is defined. */
  predicate Complete(r: LegacyRecord) {
    r.itemName.Some? && r.sku.Some? && r.category.Some? && r.unit.Some? && r.status.Some?
  }

  /** The row Prisma would insert for a complete record. */
  function ToStock(r: LegacyRecord): (s: StockRecord)
    requires Complete(r)
    ensures s.sku == r.sku.value
  {
    StockRecord(r.itemName.value, r.sku.value, r.category.value, r.unit.value,
                r.currentStock, r.reorderLevel, r.status.value)
  }

  /** The batch `createMany` validates as a whole: every record complete, or
      no insert at all. */
  function Batch(results: seq<LegacyRecord>): (b: Option<seq<StockRecord>>)
    ensures b.Some? <==> forall i :: 0 <= i < |results| ==> Complete(results[i])
    ensures b.Some? ==>
      (&& |b.value| == |results|
       && forall i :: 0 <= i < |results| ==> b.value[i] == ToStock(results[i]))
  {
    if forall i :: 0 <= i < |results| ==> Complete(results[i]) then
      Some(seq(|results|, i requires 0 <= i < |results| => ToStock(results[i])))
    else None
  }

  /** The Stock table after the `"end"` handler of one upload. */
  function LegacyStore(t: Table, rows: seq<Row>): Table {
    match Batch(LegacyRecords(rows))
    case Some(records) => AfterCreateMany(t, records)
    case None => t
  }

  /** `prisma.stock.createMany({ data: results, skipDuplicates: true })`. */
  method StoreAll(db: StockTable, results: seq<LegacyRecord>) returns (stored: bool)
    requires db.Valid()
    modifies db
    ensures db.Valid()
    ensures stored <==> Batch(results).Some?
    ensures stored ==> db.rows == AfterCreateMany(old(db.rows), Batch(results).value)
    ensures !stored ==> db.rows == old(db.rows)
  {
    var batch := Batch(results);
    if batch.None? {
      return false;
    }
    db.CreateManySkipDuplicates(batch.value);
    return true;
  }

  /** What the client gets: the 400 answer, the success answer, or none at
      all when `createMany` rejects inside the `"end"` callback, which the
      `try` block does not cover. */
  datatype LegacyOutcome = NoFile | Stored | Unanswered

  function LegacyMessage(o: LegacyOutcome): (m: Option<string>)
    ensures m.None? <==> o == Unanswered
  {
    match o
    case NoFile => Some("No file uploaded")
    case Stored => Some("CSV uploaded and data stored successfully!")
    case Unanswered => None
  }

  /** The legacy route: no file filter and no header mapping, so rows are
      keyed by the raw header cells. */
  method HandleLegacyUpload(db: StockTable, upload: Option<CsvFile>) returns (o: LegacyOutcome)
    requires db.Valid()
    modifies db
    ensures db.Valid()
    ensures upload.None? ==> o == NoFile && db.rows == old(db.rows)
    ensures upload.Some? ==>
      var rows := RawRows(upload.value);
      && (o == Stored <==> Batch(LegacyRecords(rows)).Some?)
      && (o != Stored ==> o == Unanswered)
      && db.rows == LegacyStore(old(db.rows), rows)
    ensures LegacyMessage(o).Some? <==> upload.None? || Batch(LegacyRecords(RawRows(upload.value))).Some?
  {
    if upload.None? {
      return NoFile;
    }
    var rows := RawRows(upload.value);
    var results := CollectRows(rows);
    assert results == LegacyRecords(rows);
    var stored := StoreAll(db, results);
    o := if stored then Stored else Unanswered;
  }

  /** csv-parser's rows with its default header handling. */
  function RawRows(file: CsvFile): seq<Row> {
    seq(|file.records|, i requires 0 <= i < |file.records| => MakeRow(file.header, file.records[i]))
  }

  /** A stored SKU keeps its record, and only the upload's SKUs are added. */
  lemma LegacyStoreOnlyGrows(t: Table, rows: seq<Row>)
    requires KeyedBySku(t)
    ensures t.Keys <= LegacyStore(t, rows).Keys
    ensures forall k | k in t :: LegacyStore(t, rows)[k] == t[k]
    ensures KeyedBySku(LegacyStore(t, rows))
    ensures Batch(LegacyRecords(rows)).Some? ==>
      LegacyStore(t, rows).Keys == t.Keys + Skus(Batch(LegacyRecords(rows)).value)
  {
    var b := Batch(LegacyRecords(rows));
    if b.Some? {
      CreateManyGrows(t, b.value);
    }
  }

  /** Uploading the same file again changes nothing. */
  lemma LegacyReuploadUnchanged(t: Table, rows: seq<Row>)
    ensures LegacyStore(LegacyStore(t, rows), rows) == LegacyStore(t, rows)
  {
    var b := Batch(LegacyRecords(rows));
    if b.Some? {
      CreateManyIdempotent(t, b.value);
    }
  }

  /** A header cell that starts with U+FEFF is kept as it is, so the first
      column's key is not "ItemName" and every item name is undefined; the
      batch is then rejected as a whole. */
  lemma ByteOrderMarkRejectsBatch(file: CsvFile)
    requires file.header != [] && file.header[0] == [UploadServer.BOM] + "ItemName"
    requires forall j :: 1 <= j < |file.header| ==> file.header[j] != "ItemName"
    requires file.records != []
    ensures Batch(LegacyRecords(RawRows(file))).None?
  {
    var row := RawRows(file)[0];
    assert "ItemName" !in row by {
      assert "ItemName" != file.header[0] by {
        assert file.header[0][0] != "ItemName"[0];
      }
    }
    assert !Complete(LegacyRecords(RawRows(file))[0]);
  }
}
