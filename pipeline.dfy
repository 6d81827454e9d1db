/**
 * The batch run of `main`: for each file, extract its text, classify it, extract its
 * fields by consensus, check the required fields and write one outcome row and, for a
 * classified file, one structured row.
 */
module Pipeline {
  import opened Wrappers
  import opened Schema
  import opened TextExtractor
  import opened DocumentClassifier
  import opened Consensus
  import opened Reporting

  /** One row of the outcome log. */
  datatype FileOutcome = FileOutcome(file: string, readable: bool, classification: DocType, completed: bool)

  /**
   * One file of the batch: its path, what the format libraries read from it, the
   * classification model (prompt to parsed `doc_type`) and the extraction attempts
   * (prompt to parsed record, one per attempt).
   */
  datatype FileJob = FileJob(path: string, parsed: ParsedFile,
                             classify: string -> Option<string>,
                             extract: seq<string -> Option<Record>>)

  predicate TruthyField(data: Record, name: string) {
    name in data && data[name] != ""
  }

  /** The required fields without a truthy value, in schema order. */
  function MissingFields(required: seq<string>, data: Record): (missing: seq<string>)
    ensures |missing| <= |required|
    ensures forall n :: n in missing <==> n in required && !TruthyField(data, n)
  {
    if |required| == 0 then []
    else
      var front := MissingFields(required[..|required| - 1], data);
      var last := required[|required| - 1];
      assert required == required[..|required| - 1] + [last];
      front + (if TruthyField(data, last) then [] else [last])
  }

  /** A file is complete exactly when every required field of its group has a truthy value. */
  predicate Complete(schema: FieldSchema, docType: DocType, data: Record) {
    MissingFields(RequiredNames(Group(schema, docType)), data) == []
  }

  lemma CompleteIff(schema: FieldSchema, docType: DocType, data: Record)
    ensures Complete(schema, docType, data) <==>
      forall i :: 0 <= i < |Group(schema, docType)| && Group(schema, docType)[i].required ==>
        TruthyField(data, Group(schema, docType)[i].name)
  {
    var fields := Group(schema, docType);
    var missing := MissingFields(RequiredNames(fields), data);
    if !Complete(schema, docType, data) {
      assert missing[0] in missing;
    }
  }

  /** With an empty record a file is complete exactly when its group has no required field. */
  lemma EmptyRecordComplete(schema: FieldSchema, docType: DocType)
    ensures Complete(schema, docType, map[]) <==>
      forall i :: 0 <= i < |Group(schema, docType)| ==> !Group(schema, docType)[i].required
  {
    CompleteIff(schema, docType, map[]);
  }

  /** With a single extraction attempt no classified file with a required field is ever complete. */
  lemma SingleAttemptIncomplete(schema: FieldSchema, docType: DocType, results: seq<Record>, final: Record, i: nat)
    requires |results| == 1 && IsConsensus(results, final)
    requires i < |Group(schema, docType)| && Group(schema, docType)[i].required
    ensures !Complete(schema, docType, final)
  {
    SingleAttemptKeepsNothing(results, final);
    EmptyRecordComplete(schema, docType);
  }

  /** The consensus record of a classified file. */
  ghost predicate ExtractedFor(job: FileJob, text: string, docType: DocType, schema: FieldSchema, data: Record) {
    IsConsensus(Attempts(ExtractionPromptText(text, docType, Group(schema, docType)), job.extract), data)
  }

  /**
   * Steps 3 and 4 of the loop of `main` for a classified file: the consensus record of the
   * extraction attempts, and whether it leaves no required field of the group missing.
   */
  method ExtractRecord(schema: FieldSchema, job: FileJob, text: string, docType: DocType)
    returns (extracted: Record, complete: bool)
    ensures ExtractedFor(job, text, docType, schema, extracted)
    ensures complete == Complete(schema, docType, extracted)
  {
    var fields := Group(schema, docType);
    extracted := ExtractStableFields(text, docType, fields, job.extract);
    var missing := MissingFields(RequiredNames(fields), extracted);
    complete := missing == [];
  }

  /** The state of one run: the schema, the three tables it appends to and the summary lists. */
  class Run {
    const schema: FieldSchema
    const report: CsvTable
    const licenseTable: CsvTable
    const agreementTable: CsvTable
    var readableFiles: seq<string>
    var unreadableFiles: seq<string>

    ghost predicate Valid()
      reads this, report, licenseTable, agreementTable
    {
      && report != licenseTable && report != agreementTable && licenseTable != agreementTable
      && report.Valid() && licenseTable.Valid() && agreementTable.Valid()
      && report.header == REPORT_HEADER
      && licenseTable.header == RecordColumns(schema, License)
      && agreementTable.header == RecordColumns(schema, Agreement)
    }

    /** The table `append_to_csv` selects for a document type. */
    function TableFor(docType: DocType): CsvTable {
      if docType == License then licenseTable else agreementTable
    }

    constructor(schema: FieldSchema, report: CsvTable, licenseTable: CsvTable, agreementTable: CsvTable)
      requires report != licenseTable && report != agreementTable && licenseTable != agreementTable
      requires report.Valid() && licenseTable.Valid() && agreementTable.Valid()
      requires report.header == REPORT_HEADER
      requires licenseTable.header == RecordColumns(schema, License)
      requires agreementTable.header == RecordColumns(schema, Agreement)
      ensures Valid()
      ensures this.schema == schema && this.report == report
      ensures this.licenseTable == licenseTable && this.agreementTable == agreementTable
      ensures readableFiles == [] && unreadableFiles == []
    {
      this.schema := schema;
      this.report := report;
      this.licenseTable := licenseTable;
      this.agreementTable := agreementTable;
      readableFiles := [];
      unreadableFiles := [];
    }

    /** `log_file_report`: one outcome row. */
    method LogFileReport(outcome: FileOutcome)
      requires Valid()
      modifies report
      ensures Valid()
      ensures report.records == old(report.records) + [OutcomeRow(outcome)]
    {
      report.Append(OutcomeRow(outcome));
    }

    /** `append_to_csv`: one structured row in the table of the document type. */
    method AppendToCsv(fileName: string, docType: DocType, data: Record)
      requires Valid()
      modifies licenseTable, agreementTable
      ensures Valid()
      ensures TableFor(docType).records == old(TableFor(docType).records) + [RecordRow(fileName, RecordColumns(schema, docType), data)]
      ensures TableFor(docType) == licenseTable ==> unchanged(agreementTable)
      ensures TableFor(docType) == agreementTable ==> unchanged(licenseTable)
    {
      var columns := RecordColumns(schema, docType);
      var row := BuildRecordRow(fileName, columns, data);
      if docType == License {
        licenseTable.Append(row);
      } else {
        agreementTable.Append(row);
      }
    }

    /**
     * Steps 2 to 5 of the loop of `main` for a file whose text was extracted: an UNKNOWN
     * file gets an outcome row only and goes to the unreadable list; a classified file gets
     * its consensus record as a structured row in the table of its type, is complete
     * exactly when no required field is missing, and goes to the readable list.
     */
    method ProcessText(job: FileJob, text: string) returns (outcome: FileOutcome, extracted: Record)
      requires Valid()
      modifies this, report, licenseTable, agreementTable
      ensures Valid()
      ensures report.records == old(report.records) + [OutcomeRow(outcome)]
      ensures outcome.file == job.path && outcome.readable
      ensures outcome.completed ==> outcome.classification != Unknown
      ensures |readableFiles| + |unreadableFiles| == |old(readableFiles)| + |old(unreadableFiles)| + 1
      ensures var docType := ClassifyDocument(text, job.classify);
        && (docType == Unknown ==>
              && outcome == FileOutcome(job.path, true, Unknown, false)
              && unreadableFiles == old(unreadableFiles) + [job.path] && readableFiles == old(readableFiles)
              && unchanged(licenseTable, agreementTable))
        && (docType != Unknown ==>
              && ExtractedFor(job, text, docType, schema, extracted)
              && outcome == FileOutcome(job.path, true, docType, Complete(schema, docType, extracted))
              && TableFor(docType).records
                 == old(TableFor(docType).records) + [RecordRow(job.path, RecordColumns(schema, docType), extracted)]
              && (docType == License ==> unchanged(agreementTable))
              && (docType == Agreement ==> unchanged(licenseTable))
              && readableFiles == old(readableFiles) + [job.path] && unreadableFiles == old(unreadableFiles))
    {
      extracted := map[];
      var classification := ClassifyDocument(text, job.classify);
      if classification == Unknown {
        outcome := FileOutcome(job.path, true, Unknown, false);
        LogFileReport(outcome);
        unreadableFiles := unreadableFiles + [job.path];
        return;
      }
      var complete;
      extracted, complete := ExtractRecord(schema, job, text, classification);
      AppendToCsv(job.path, classification, extracted);
      outcome := FileOutcome(job.path, true, classification, complete);
      LogFileReport(outcome);
      readableFiles := readableFiles + [job.path];
    }

    /**
     * The body of the loop of `main` for one file: a file without extracted text gets an
     * outcome row only and goes to the unreadable list; any other file is handled by
     * `ProcessText`.
     */
    method ProcessFile(job: FileJob) returns (outcome: FileOutcome, extracted: Record)
      requires Valid()
      modifies this, report, licenseTable, agreementTable
      ensures Valid()
      ensures report.records == old(report.records) + [OutcomeRow(outcome)]
      ensures outcome.file == job.path
      ensures outcome.completed ==> outcome.readable && outcome.classification != Unknown
      ensures |readableFiles| + |unreadableFiles| == |old(readableFiles)| + |old(unreadableFiles)| + 1
      ensures ExtractedText(job.path, job.parsed).None? ==>
        && outcome == FileOutcome(job.path, false, Unknown, false)
        && unreadableFiles == old(unreadableFiles) + [job.path] && readableFiles == old(readableFiles)
        && unchanged(licenseTable, agreementTable)
      ensures ExtractedText(job.path, job.parsed).Some? ==>
        var text := ExtractedText(job.path, job.parsed).value;
        var docType := ClassifyDocument(text, job.classify);
        && (docType == Unknown ==>
              && outcome == FileOutcome(job.path, true, Unknown, false)
              && unreadableFiles == old(unreadableFiles) + [job.path] && readableFiles == old(readableFiles)
              && unchanged(licenseTable, agreementTable))
        && (docType != Unknown ==>
              && ExtractedFor(job, text, docType, schema, extracted)
              && outcome == FileOutcome(job.path, true, docType, Complete(schema, docType, extracted))
              && TableFor(docType).records
                 == old(TableFor(docType).records) + [RecordRow(job.path, RecordColumns(schema, docType), extracted)]
              && (docType == License ==> unchanged(agreementTable))
              && (docType == Agreement ==> unchanged(licenseTable))
              && readableFiles == old(readableFiles) + [job.path] && unreadableFiles == old(unreadableFiles))
    {
      var text := ExtractTextFromFile(job.path, job.parsed);
      if text.None? {
        extracted := map[];
        unreadableFiles := unreadableFiles + [job.path];
        outcome := FileOutcome(job.path, false, Unknown, false);
        LogFileReport(outcome);
        return;
      }
      outcome, extracted := ProcessText(job, text.value);
    }

    /** One iteration of the loop of `main`, as the loop over the batch relies on it: one outcome row naming the file. */
    method Iterate(job: FileJob) returns (row: seq<string>)
      requires Valid()
      modifies this, report, licenseTable, agreementTable
      ensures Valid()
      ensures report.records == old(report.records) + [row] && FirstCell(row) == job.path
      ensures |readableFiles| + |unreadableFiles| == |old(readableFiles)| + |old(unreadableFiles)| + 1
    {
      var outcome, extracted := ProcessFile(job);
      row := OutcomeRow(outcome);
    }

    /** The loop of `main` over all files: exactly one outcome row per file, in order. */
    method ProcessFiles(jobs: seq<FileJob>)
      requires Valid()
      modifies this, report, licenseTable, agreementTable
      ensures Valid()
      ensures |old(report.records)| <= |report.records| && report.records[..|old(report.records)|] == old(report.records)
      ensures FileColumn(report.records[|old(report.records)|..]) == Paths(jobs)
      ensures |readableFiles| + |unreadableFiles| == |old(readableFiles)| + |old(unreadableFiles)| + |jobs|
    {
      ghost var before := report.records;
      ghost var rows: seq<seq<string>> := [];
      for i := 0 to |jobs|
        invariant Valid()
        invariant report.records == before + rows
        invariant FileColumn(rows) == Paths(jobs[..i])
        invariant |readableFiles| + |unreadableFiles| == |old(readableFiles)| + |old(unreadableFiles)| + i
      {
        var row := Iterate(jobs[i]);
        assert (rows + [row])[..|rows|] == rows;
        assert jobs[..i + 1][..i] == jobs[..i];
        rows := rows + [row];
      }
      assert jobs[..|jobs|] == jobs;
      assert report.records[|before|..] == rows;
    }
  }

  function FirstCell(row: seq<string>): string {
    if |row| == 0 then "" else row[0]
  }

  /** The "file" column of the outcome log: the first cell of every row. */
  function FileColumn(rows: seq<seq<string>>): (column: seq<string>)
    ensures |column| == |rows|
  {
    if |rows| == 0 then [] else FileColumn(rows[..|rows| - 1]) + [FirstCell(rows[|rows| - 1])]
  }

  function Paths(jobs: seq<FileJob>): (paths: seq<string>)
    ensures |paths| == |jobs|
  {
    if |jobs| == 0 then [] else Paths(jobs[..|jobs| - 1]) + [jobs[|jobs| - 1].path]
  }

  lemma {:induction false} FileColumnAt(rows: seq<seq<string>>, n: nat)
    requires n < |rows|
    ensures FileColumn(rows)[n] == FirstCell(rows[n])
  {
    if n < |rows| - 1 {
      FileColumnAt(rows[..|rows| - 1], n);
    }
  }

  lemma {:induction false} PathsAt(jobs: seq<FileJob>, n: nat)
    requires n < |jobs|
    ensures Paths(jobs)[n] == jobs[n].path
  {
    if n < |jobs| - 1 {
      PathsAt(jobs[..|jobs| - 1], n);
    }
  }

  /** After a batch, the outcome row of the `n`-th file is the `n`-th new row, and it names that file. */
  lemma BatchRowNamesFile(rows: seq<seq<string>>, jobs: seq<FileJob>, n: nat)
    requires FileColumn(rows) == Paths(jobs)
    requires n < |jobs|
    ensures n < |rows| && FirstCell(rows[n]) == jobs[n].path
  {
    FileColumnAt(rows, n);
    PathsAt(jobs, n);
  }

  /** The outcome log row of a file. */
  function OutcomeRow(outcome: FileOutcome): (row: seq<string>)
    ensures |row| == 4 && row[0] == outcome.file
    ensures ReadYesNo(row[1]) == outcome.readable && ReadYesNo(row[3]) == outcome.completed
    ensures row[2] == outcome.classification.Name()
  {
    ReportRow(outcome.file, outcome.readable, outcome.classification.Name(), outcome.completed)
  }
}
