/**
 * `validateRow` of the TypeScript backend: a first-failure check of one
 * parsed row that answers with an error message, or with nothing when the
 * row is acceptable.
 */
module Validators {

  import opened Wrappers
  import opened JsStrings
  import opened JsNumbers

  /** What a `StockRow` property holds at run time. The interface promises a
      string (or a number for the two counts), but nothing checks it, so a
      property may also be a number where a string is declared, or absent. */
  datatype FieldValue = Text(s: string) | Num(n: Number) | Undefined

  datatype StockRow = StockRow(
    itemName: FieldValue,
    sku: FieldValue,
    category: FieldValue,
    unit: FieldValue,
    currentStock: FieldValue,
    reorderLevel: FieldValue,
    status: FieldValue)

  /** The seven required fields. */
  datatype Field = ItemName | Sku | Category | Unit | CurrentStock | ReorderLevel | Status

  /** The property name, as written in `requiredFields` and in the messages. */
  function Name(f: Field): string {
    match f
    case ItemName => "ItemName"
    case Sku => "SKU"
    case Category => "Category"
    case Unit => "Unit"
    case CurrentStock => "CurrentStock"
    case ReorderLevel => "ReorderLevel"
    case Status => "Status"
  }

  /** `requiredFields`, in the order the loop visits them. */
  const RequiredFields: seq<Field> :=
    [ItemName, Sku, Category, Unit, CurrentStock, ReorderLevel, Status]

  /** The position of a field in `requiredFields`. */
  function Rank(f: Field): (k: nat)
    ensures k < |RequiredFields| && RequiredFields[k] == f
  {
    match f
    case ItemName => 0
    case Sku => 1
    case Category => 2
    case Unit => 3
    case CurrentStock => 4
    case ReorderLevel => 5
    case Status => 6
  }

  /** `row[field]`. */
  function Get(row: StockRow, f: Field): FieldValue {
    match f
    case ItemName => row.itemName
    case Sku => row.sku
    case Category => row.category
    case Unit => row.unit
    case CurrentStock => row.currentStock
    case ReorderLevel => row.reorderLevel
    case Status => row.status
  }

  /** JavaScript truthiness of a property. */
  predicate IsTruthy(v: FieldValue) {
    match v
    case Text(s) => s != ""
    case Num(n) => Truthy(n)
    case Undefined => false
  }

  /** The loop's test: `!v || v.toString().trim() === ""`. A number never
      prints as blank, so only strings reach the second half. */
  predicate IsMissing(v: FieldValue) {
    !IsTruthy(v) || (v.Text? && Trim(v.s) == "")
  }

  /** A property is missing exactly when it is absent, a string of white space
      only (the empty string included), or a falsy number: 0 or NaN. */
  lemma IsMissingIff(v: FieldValue)
    ensures IsMissing(v) <==>
      || v.Undefined?
      || (v.Text? && AllWhitespace(v.s))
      || (v.Num? && (v.n == Finite(0.0) || v.n.NaN?))
  {
  }

  /** `Number(v)`. */
  function ToNumber(v: FieldValue): Number {
    match v
    case Text(s) => StringToNumber(s)
    case Num(n) => n
    case Undefined => NaN
  }

  /** The `for … of requiredFields` loop with its early return: the first
      field of `fields` that is missing, if any. */
  function FirstMissing(row: StockRow, fields: seq<Field>): (r: Option<Field>)
    ensures r.None? <==> forall i :: 0 <= i < |fields| ==> !IsMissing(Get(row, fields[i]))
    ensures r.Some? ==> exists i :: && 0 <= i < |fields| && fields[i] == r.value
                                    && IsMissing(Get(row, fields[i]))
                                    && forall j :: 0 <= j < i ==> !IsMissing(Get(row, fields[j]))
  {
    if fields == [] then None
    else if IsMissing(Get(row, fields[0])) then
      Some(fields[0])
    else
      var r := FirstMissing(row, fields[1..]);
      if r.Some? then
        var i :| && 0 <= i < |fields[1..]| && fields[1..][i] == r.value
                 && IsMissing(Get(row, fields[1..][i]))
                 && forall j :: 0 <= j < i ==> !IsMissing(Get(row, fields[1..][j]));
        assert fields[i + 1] == r.value;
        assert forall j :: 0 <= j < i + 1 ==> !IsMissing(Get(row, fields[j])) by {
          forall j | 0 <= j < i + 1
            ensures !IsMissing(Get(row, fields[j]))
          {
            if j > 0 {
              assert fields[j] == fields[1..][j - 1];
            }
          }
        }
        r
      else
        assert forall i :: 0 <= i < |fields| ==> !IsMissing(Get(row, fields[i])) by {
          forall i | 0 <= i < |fields|
            ensures !IsMissing(Get(row, fields[i]))
          {
            if i > 0 {
              assert fields[i] == fields[1..][i - 1];
            }
          }
        }
        r
  }

  /** Why a row is rejected: a missing field, or a count that is not a number
      together with the text it holds. */
  datatype Rejection = MissingField(field: Field) | InvalidValue(field: Field, text: string)

  /** Both counts convert: `Number(v)` is not NaN. */
  predicate NumericOk(v: FieldValue) {
    !ToNumber(v).NaN?
  }

  /** A present property whose `Number(...)` is NaN is a string: absent and
      falsy values are caught as missing first, and a truthy number is not NaN. */
  lemma NotNumericIsText(v: FieldValue)
    requires !IsMissing(v) && !NumericOk(v)
    ensures v.Text?
  {
  }

  /** `validateRow` without its message text: the first missing field, then
      CurrentStock, then ReorderLevel. */
  function Check(row: StockRow): (r: Option<Rejection>)
    ensures r.Some? && r.value.InvalidValue? ==>
      (r.value.field == CurrentStock || r.value.field == ReorderLevel)
  {
    var missing := FirstMissing(row, RequiredFields);
    if missing.Some? then Some(MissingField(missing.value))
    else
      assert !IsMissing(row.currentStock) && !IsMissing(row.reorderLevel) by {
        assert RequiredFields[4] == CurrentStock && RequiredFields[5] == ReorderLevel;
      }
      if !NumericOk(row.currentStock) then
        NotNumericIsText(row.currentStock);
        Some(InvalidValue(CurrentStock, row.currentStock.s))
      else if !NumericOk(row.reorderLevel) then
        NotNumericIsText(row.reorderLevel);
        Some(InvalidValue(ReorderLevel, row.reorderLevel.s))
      else None
  }

  /** The part of a message after the row number and `": "`. */
  function MessageTail(rejection: Rejection): string {
    match rejection
    case MissingField(f) => "Missing required field '" + Name(f) + "'"
    case InvalidValue(f, text) => "Invalid value for " + Name(f) + " (" + text + ")"
  }

  /** The text of a rejection for the row at 0-based position `index`. */
  function Message(index: int, rejection: Rejection): string {
    "Row " + (IntToString(index + 1) + (": " + MessageTail(rejection)))
  }

  /** `validateRow(row, index)`: null, or the message of the first failure. */
  function ValidateRow(row: StockRow, index: int): (r: Option<string>)
    ensures r.None? <==> Check(row).None?
    ensures r.Some? ==> StartsWith(r.value, "Row " + IntToString(index + 1) + ": ")
    ensures r.Some? ==> r.value == Message(index, Check(row).value)
  {
    match Check(row)
    case None => None
    case Some(rejection) =>
      var p := IntToString(index + 1);
      StartsWithConcat("Row " + p, ": ", MessageTail(rejection));
      StartsWithConcat("Row ", p, ": " + MessageTail(rejection));
      Some(Message(index, rejection))
  }

  /** No field of the row is missing. */
  predicate AllPresent(row: StockRow) {
    && !IsMissing(row.itemName) && !IsMissing(row.sku) && !IsMissing(row.category)
    && !IsMissing(row.unit) && !IsMissing(row.currentStock) && !IsMissing(row.reorderLevel)
    && !IsMissing(row.status)
  }

  lemma FirstMissingNoneIff(row: StockRow)
    ensures FirstMissing(row, RequiredFields).None? <==> AllPresent(row)
  {
    if AllPresent(row) {
      forall i | 0 <= i < |RequiredFields|
        ensures !IsMissing(Get(row, RequiredFields[i]))
      {
      }
    } else {
      var f :| IsMissing(Get(row, f));
      assert RequiredFields[Rank(f)] == f;
    }
  }

  /** The row is accepted exactly when all seven fields are present and both
      counts convert to a number. */
  lemma ValidateRowNullIff(row: StockRow, index: int)
    ensures ValidateRow(row, index).None? <==>
      AllPresent(row) && NumericOk(row.currentStock) && NumericOk(row.reorderLevel)
  {
    FirstMissingNoneIff(row);
  }

  /** A missing-field report names a missing field, and every field before it
      in `requiredFields` is present. */
  lemma FirstMissingReported(row: StockRow, f: Field)
    requires Check(row) == Some(MissingField(f))
    ensures IsMissing(Get(row, f))
    ensures forall g :: Rank(g) < Rank(f) ==> !IsMissing(Get(row, g))
  {
    var i :| && 0 <= i < |RequiredFields| && RequiredFields[i] == f
             && IsMissing(Get(row, RequiredFields[i]))
             && forall j :: 0 <= j < i ==> !IsMissing(Get(row, RequiredFields[j]));
    assert i == Rank(f);
    forall g | Rank(g) < Rank(f)
      ensures !IsMissing(Get(row, g))
    {
      assert RequiredFields[Rank(g)] == g;
    }
  }

  /** Missing fields take precedence over counts that do not convert. */
  lemma MissingBeforeInvalid(row: StockRow)
    requires !AllPresent(row)
    ensures Check(row).Some? && Check(row).value.MissingField?
  {
    FirstMissingNoneIff(row);
  }

  /** CurrentStock is checked before ReorderLevel, and the report carries the
      text that failed to convert. */
  lemma CurrentStockBeforeReorderLevel(row: StockRow)
    requires AllPresent(row) && !NumericOk(row.currentStock)
    ensures row.currentStock.Text?
    ensures Check(row) == Some(InvalidValue(CurrentStock, row.currentStock.s))
  {
    FirstMissingNoneIff(row);
  }

  lemma ReorderLevelReported(row: StockRow)
    requires AllPresent(row) && NumericOk(row.currentStock) && !NumericOk(row.reorderLevel)
    ensures row.reorderLevel.Text?
    ensures Check(row) == Some(InvalidValue(ReorderLevel, row.reorderLevel.s))
  {
    FirstMissingNoneIff(row);
  }

  /** A field holding only white space is reported missing: the report names
      it or a field before it. */
  lemma BlankFieldReported(row: StockRow, f: Field)
    requires Get(row, f).Text? && AllWhitespace(Get(row, f).s)
    ensures Check(row).Some? && Check(row).value.MissingField?
    ensures Rank(Check(row).value.field) <= Rank(f)
  {
    var r := FirstMissing(row, RequiredFields);
    assert IsMissing(Get(row, RequiredFields[Rank(f)]));
    var i :| && 0 <= i < |RequiredFields| && RequiredFields[i] == r.value
             && IsMissing(Get(row, RequiredFields[i]))
             && forall j :: 0 <= j < i ==> !IsMissing(Get(row, RequiredFields[j]));
    assert Rank(r.value) == i;
  }

  /** A digit string, "0" among them, is present. */
  lemma DigitTextPresent(ds: string)
    requires ds != [] && AllDigits(ds)
    ensures !IsMissing(Text(ds))
  {
    assert !IsWhitespace(ds[0]) by {
      assert IsDigit(ds[0]);
    }
  }

  /** A digit string converts to its decimal value, so it passes the numeric
      checks; had the value arrived as the number 0 instead of the string "0",
      it would have been reported missing (see `IsMissingIff`). */
  lemma DigitTextValue(ds: string)
    requires ds != [] && AllDigits(ds)
    ensures ToNumber(Text(ds)) == Finite(DecimalValue(ds) as real)
    ensures NumericOk(Text(ds))
  {
    DigitStringValue(ds);
  }

  /** Every message names the 1-based row: different rows give different
      messages, whatever the rejections are. */
  lemma MessagesNameTheRow(i: int, j: int, a: Rejection, b: Rejection)
    requires Message(i, a) == Message(j, b)
    ensures i == j
  {
    var p, q := IntToString(i + 1), IntToString(j + 1);
    var x, y := ": " + MessageTail(a), ": " + MessageTail(b);
    DropRowWord(p + x);
    DropRowWord(q + y);
    assert x[0] == ':' && y[0] == ':';
    NoColonInNumeral(i + 1);
    NoColonInNumeral(j + 1);
    DelimitedPrefix(p, q, x, y, ':');
    IntToStringInjective(i + 1, j + 1);
  }

  lemma DropRowWord(t: string)
    ensures ("Row " + t)[4..] == t
  {
  }

  /** A printed integer holds no colon. */
  lemma NoColonInNumeral(n: int)
    ensures ':' !in IntToString(n)
  {
    if n < 0 {
      assert IntToString(n) == "-" + NatToString(-n);
    }
  }

  /** Two words free of a delimiter, each followed by text starting with that
      delimiter, can be split apart: equal concatenations mean equal words. */
  lemma DelimitedPrefix(p: string, q: string, x: string, y: string, d: char)
    requires d !in p && d !in q
    requires x != [] && x[0] == d && y != [] && y[0] == d
    requires p + x == q + y
    ensures p == q
  {
    DelimiterAt(p, x, d);
    DelimiterAt(q, y, d);
    assert |p| == |q|;
    assert p == (p + x)[..|p|];
    assert q == (q + y)[..|q|];
  }

  /** In `p + x`, the first `d` sits right after `p`. */
  lemma DelimiterAt(p: string, x: string, d: char)
    requires d !in p && x != [] && x[0] == d
    ensures (p + x)[|p|] == d
    ensures forall i :: 0 <= i < |p| ==> (p + x)[i] != d
  {
  }
}
