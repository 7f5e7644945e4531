/**
 * What the csv-parser library hands to its "data" listeners: one object per
 * record, keyed by the (possibly mapped) header cells. Tokenising the text
 * into cells is the library's business and is not modelled; a file is given
 * here as its header cells and the cells of each later record.
 */
module CsvRows {

  /** A parsed record: header label to cell text. A label absent from the
      map is `undefined` in JavaScript. */
  type Row = map<string, string>

  /** A tokenised CSV file: the header line's cells and each record's cells. */
  datatype CsvFile = CsvFile(header: seq<string>, records: seq<seq<string>>)

  /** The object built for one record: the i-th header keys the i-th cell;
      when two header cells are equal the later column's cell is kept. */
  function MakeRow(header: seq<string>, cells: seq<string>): (r: Row)
    ensures forall k :: k in r ==> k in header
    ensures forall i :: 0 <= i < |header| && i < |cells| ==> header[i] in r
    decreases |header|
  {
    if header == [] || cells == [] then map[]
    else map[header[0] := cells[0]] + MakeRow(header[1..], cells[1..])
  }

  /** A header label keys the cell of the last column, among those that have
      a cell, where it occurs: a later duplicate overwrites an earlier one. */
  lemma {:induction false} MakeRowAt(header: seq<string>, cells: seq<string>, i: nat)
    requires i < |header| && i < |cells|
    requires forall j :: i < j < |header| && j < |cells| ==> header[j] != header[i]
    ensures MakeRow(header, cells)[header[i]] == cells[i]
  {
    if i == 0 {
      MakeRowAbsent(header[1..], cells[1..], header[0]);
    } else {
      MakeRowAt(header[1..], cells[1..], i - 1);
    }
  }

  /** A label in no column that has a cell is not a key. */
  lemma {:induction false} MakeRowAbsent(header: seq<string>, cells: seq<string>, k: string)
    requires forall j :: 0 <= j < |header| && j < |cells| ==> header[j] != k
    ensures k !in MakeRow(header, cells)
    decreases |header|
  {
    if header != [] && cells != [] {
      MakeRowAbsent(header[1..], cells[1..], k);
    }
  }
}
