/**
 * The three output tables: the per-file outcome log (`file_report.csv`) and the
 * two structured tables (`classified_data_license.csv`, `classified_data_agreement.csv`).
 * A table is a file that is created, with its header, by the first append and only
 * grows afterwards.
 */
module Reporting {
  import opened Schema
  import opened Consensus

  const REPORT_HEADER: seq<string> := ["file", "readable", "classification", "completed"]

  function YesNo(b: bool): string {
    if b then "YES" else "NO"
  }

  /** How a reader of the outcome log decodes a YES/NO cell. */
  predicate ReadYesNo(cell: string) {
    cell == "YES"
  }

  /** The row `log_file_report` writes under `REPORT_HEADER`. */
  function ReportRow(file: string, readable: bool, classification: string, completed: bool): (row: seq<string>)
    ensures |row| == |REPORT_HEADER|
    ensures row[0] == file && row[2] == classification
    ensures ReadYesNo(row[1]) == readable && ReadYesNo(row[3]) == completed
    ensures row[1] in {"YES", "NO"} && row[3] in {"YES", "NO"}
  {
    [file, YesNo(readable), classification, YesNo(completed)]
  }

  /** Two outcome rows are equal exactly when they record the same outcome. */
  lemma ReportRowInjective(f: string, r: bool, c: string, d: bool, f': string, r': bool, c': string, d': bool)
    ensures ReportRow(f, r, c, d) == ReportRow(f', r', c', d') <==> f == f' && r == r' && c == c' && d == d'
  {
    if ReportRow(f, r, c, d) == ReportRow(f', r', c', d') {
      assert ReportRow(f, r, c, d)[1] == ReportRow(f', r', c', d')[1];
      assert ReportRow(f, r, c, d)[3] == ReportRow(f', r', c', d')[3];
    }
  }

  /** The columns of the structured table of `docType`: LICENSE selects the license fields, any other type the agreement fields. */
  function RecordColumns(schema: FieldSchema, docType: DocType): (columns: seq<string>)
    ensures |columns| == 1 + |Group(schema, docType)| && columns[0] == "file"
    ensures forall i :: 0 <= i < |Group(schema, docType)| ==> columns[i + 1] == Group(schema, docType)[i].name
  {
    ["file"] + Names(Group(schema, docType))
  }

  /**
   * The cell of column `c`: the extracted value when the record has key `c` (this
   * includes a key "file"), otherwise the file name for the "file" column, otherwise "".
   */
  function Cell(fileName: string, data: Record, c: string): string {
    if c in data then data[c] else if c == "file" then fileName else ""
  }

  /** The row `append_to_csv` writes: one cell per column, in column order. */
  function RecordRow(fileName: string, columns: seq<string>, data: Record): (row: seq<string>)
    ensures |row| == |columns|
  {
    seq(|columns|, i requires 0 <= i < |columns| => Cell(fileName, data, columns[i]))
  }

  /** A record without a "file" key leaves the file name in every "file" column; columns it does not supply are empty. */
  lemma RecordRowCells(fileName: string, columns: seq<string>, data: Record, i: nat)
    requires i < |columns|
    ensures columns[i] in data ==> RecordRow(fileName, columns, data)[i] == data[columns[i]]
    ensures columns[i] !in data && columns[i] == "file" ==> RecordRow(fileName, columns, data)[i] == fileName
    ensures columns[i] !in data && columns[i] != "file" ==> RecordRow(fileName, columns, data)[i] == ""
  {
  }

  /** Keys of the record that are not columns are dropped: the row depends only on the record restricted to the columns. */
  lemma RecordRowIgnoresOtherKeys(fileName: string, columns: seq<string>, data: Record, other: Record)
    requires forall c :: c in columns ==> (c in data <==> c in other)
    requires forall c :: c in columns && c in data ==> data[c] == other[c]
    ensures RecordRow(fileName, columns, data) == RecordRow(fileName, columns, other)
  {
    var r, r' := RecordRow(fileName, columns, data), RecordRow(fileName, columns, other);
    forall i | 0 <= i < |columns| ensures r[i] == r'[i] {
      assert columns[i] in columns;
    }
  }

  /** An empty extraction gives the file name followed by empty cells. */
  lemma EmptyRecordRow(fileName: string, schema: FieldSchema, docType: DocType)
    ensures var row := RecordRow(fileName, RecordColumns(schema, docType), map[]);
      && row[0] == fileName
      && forall i :: 1 <= i < |row| && Group(schema, docType)[i - 1].name != "file" ==> row[i] == ""
  {
  }

  /**
   * The row of `append_to_csv`: a dictionary with an empty cell per column and the file
   * name under "file", overwritten by every record key that is a column.
   */
  method BuildRecordRow(fileName: string, columns: seq<string>, data: Record) returns (row: seq<string>)
    ensures row == RecordRow(fileName, columns, data)
  {
    var cells: map<string, string> := map c | c in columns :: "";
    cells := cells["file" := fileName];
    var keys := data.Keys;
    while keys != {}
      invariant keys <= data.Keys
      invariant forall c :: c in columns ==> c in cells
      invariant forall c :: c in cells ==> c in columns || c == "file"
      invariant forall c :: c in cells ==>
        cells[c] == (if c in data && c !in keys then data[c] else if c == "file" then fileName else "")
      decreases keys
    {
      var k :| k in keys;
      if k in cells {
        cells := cells[k := data[k]];
      }
      keys := keys - {k};
    }
    row := seq(|columns|, i requires 0 <= i < |columns| => cells[columns[i]]);
  }

  /**
   * An append-only table file. `created` is whether the file exists; the header is written
   * by the append that creates it. A table either starts absent or is opened with the rows
   * an earlier run left (`prior`), and every append adds exactly one row after those.
   */
  class CsvTable {
    const header: seq<string>
    var created: bool
    var rows: seq<seq<string>>
    ghost const existed: bool
    ghost const prior: seq<seq<string>>
    ghost var records: seq<seq<string>>

    ghost predicate Valid()
      reads this
    {
      && (existed ==> created)
      && (!existed ==> prior == [] && (records != [] ==> created))
      && rows == prior + (if created && !existed then [header] else []) + records
    }

    /** A table whose file does not exist yet. */
    constructor Create(header: seq<string>)
      ensures Valid()
      ensures this.header == header && !created && !existed && rows == [] && records == []
    {
      this.header := header;
      created := false;
      rows := [];
      existed := false;
      prior := [];
      records := [];
    }

    /** A table whose file an earlier run left with `existing` rows. */
    constructor Open(header: seq<string>, existing: seq<seq<string>>)
      ensures Valid()
      ensures this.header == header && created && existed && prior == existing && rows == existing && records == []
    {
      this.header := header;
      created := true;
      rows := existing;
      existed := true;
      prior := existing;
      records := [];
    }

    /** Write the header if the file does not exist yet, then the row. */
    method Append(row: seq<string>)
      requires Valid()
      modifies this
      ensures Valid()
      ensures created && records == old(records) + [row]
      ensures rows == old(rows) + (if old(created) then [] else [header]) + [row]
      ensures !existed ==> rows == [header] + records
      ensures existed ==> rows == prior + records
    {
      if !created {
        rows := rows + [header];
        created := true;
      }
      rows := rows + [row];
      records := records + [row];
    }
  }
}
