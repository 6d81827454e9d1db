# Document categorizer: a verified model

This project models the decision logic of a small batch pipeline. The pipeline reads
documents (PDF, TXT, DOCX, EML, MSG, RTF and anything else as plain text), sorts each
one as AGREEMENT, LICENSE or UNKNOWN, pulls structured fields out of the classified ones
by majority vote over language-model replies, and records the outcome in three
append-only CSV tables.

Every library, network and file-system call is an input to the model:
- what a format parser hands back for a file (page texts, paragraphs, an e-mail
  message, `None` for an exception);
- the classification model's parsed `doc_type`;
- each extraction attempt's parsed JSON record;
- the HTTP transport's decoded reply.

The modules follow the program:

- `Strings`: the Python string operations the code relies on, over ASCII (`strip`,
  `lower`, `join`, `+=`, substring search).
- `Schema`: the document types and the two ordered field groups.
- `TextExtractor`: the readability gate, the per-format extractors and the extension
  dispatch.
- `Classifier`: the PDF text-density test.
- `DocumentClassifier`: the keyword fallback and the model-first classification.
- `OllamaClient`: the `format` schema, the request body and the shape of the reply.
- `Consensus`: the extraction prompt, the attempts and the majority-vote reduction.
- `Reporting`: the outcome row, the structured row and the append-only table, a class
  whose header is written by the first append only.
- `Pipeline`: the per-file branch of `main` and its loop over the batch, as methods of a
  `Run` class that owns the tables and the readable/unreadable lists.

Code loops become methods proved against specification functions. The properties the
code promises are stated as postconditions and lemmas about those functions.

Two places where the model follows the code as written:
- **Readability at exactly one half.** The gate compares `ratio >= min_ratio`, so a text
  of length at least 5 that is exactly half non-printable is accepted at 0.5, not
  rejected. `TextExtractor.HalfPrintableAccepted` states this.
- **The "file" column.** It holds the path handed to the loop. `main` computes a base
  name (`npl_extraction_mistral.py:135`) but never uses it.

## Model

| member | source | states |
|---|---|---|
| Strings.Strip | text_extractor.py:53 | the result has no whitespace at either end and sits in the input at some position with only whitespace before and after it; it is empty exactly when the input is all whitespace, and is the input itself when that is already stripped |
| Strings.StripIdempotent | text_extractor.py:53 | stripping twice is stripping once |
| Strings.LowerIdempotent | document_classifier.py:55 | lower-casing twice is lower-casing once |
| Strings.JoinAllSpace | text_extractor.py:53 | joining whitespace-only parts with a whitespace separator gives whitespace only |
| Strings.ConcatLength | classifier.py:17-18 | accumulating the page texts with `+=` loses no character and adds none: the length is the sum of the page lengths |
| Strings.ContainsIff | document_classifier.py:57-59 | the substring test `k in text` holds exactly when `k` occurs at some position of `text` |
| Schema.Names | npl_extraction_mistral.py:35-36 | the field names of a group, one per field, in schema order |
| Schema.RequiredNames | npl_extraction_mistral.py:168-172 | a name is listed exactly when some field of the group with that name is required, and there are no more names than fields |
| Schema.RequiredNamesAppend | ollamaClient.py:39-44 | the required names of two concatenated groups are those of the first, then those of the second: the list follows schema order |
| Schema.RequiredNamesOne | ollamaClient.py:43-44 | a single field contributes its name exactly when it is required |
| TextExtractor.PrintableCount | text_extractor.py:38 | the printable count never exceeds the length |
| TextExtractor.AllPrintableCount | text_extractor.py:38 | the count equals the length exactly when every character is in `string.printable` |
| TextExtractor.IsTextReadable | text_extractor.py:23-41 | a text shorter than 5 is rejected at every threshold; otherwise it is accepted exactly when printable count >= min_ratio * length, the ratio test without division |
| TextExtractor.DefaultThreshold | text_extractor.py:40-41 | at the default 0.5: accepted exactly when the text has at least 5 characters and twice the printable count reaches the length |
| TextExtractor.AllPrintableAccepted | text_extractor.py:35-41 | a text of at least 5 characters, all in `string.printable`, is accepted at every threshold up to 1 |
| TextExtractor.ThresholdMonotone | text_extractor.py:41 | a text accepted at a threshold is accepted at every lower threshold |
| TextExtractor.HalfPrintableAccepted | text_extractor.py:40-41 | a six-character text with exactly three printable characters is accepted at 0.5 |
| TextExtractor.Accept | text_extractor.py:53-56 | the shared ending of the extractors: the result is nothing or the stripped text, and it is nothing exactly when the text is whitespace only or the stripped text is unreadable |
| TextExtractor.PdfText | text_extractor.py:44-59 | a PDF gives nothing when it cannot be opened, and otherwise nothing or the stripped newline join of its pages, which is non-empty and readable |
| TextExtractor.DecodedText | text_extractor.py:62-79 | a decoded text file gives nothing when reading fails, and otherwise nothing or the stripped text, which is non-empty and readable |
| TextExtractor.DocxText | text_extractor.py:82-95 | a DOCX file gives nothing when it cannot be opened, and otherwise nothing or the stripped newline join of its paragraphs, which is non-empty and readable |
| TextExtractor.EmlText | text_extractor.py:98-122 | an `.eml` message gives nothing when it cannot be parsed, and otherwise nothing or the stripped newline join of its cleaned lines, which is non-empty and readable |
| TextExtractor.MsgText | text_extractor.py:125-142 | an Outlook message gives nothing when it cannot be read, and otherwise nothing or the stripped newline join of its truthy subject line and truthy body, which is non-empty and readable |
| TextExtractor.RtfText | text_extractor.py:145-165 | an RTF file gives nothing when no RTF reader is installed or reading fails, and otherwise nothing or the stripped plain text, which is non-empty and readable |
| TextExtractor.ExtractTextFromPdf | text_extractor.py:44-59 | the page loop collects the pages in order; the result is the gated newline join of the pages, and nothing when the document cannot be opened |
| TextExtractor.CollectEmailLines | text_extractor.py:105-114 | the lines are the subject line (when the subject is truthy), then the text/plain parts of a multipart message in walk order, or the single body |
| TextExtractor.NonEmptyLines | text_extractor.py:116 | the `if line` filter keeps only non-empty lines and keeps every non-empty line as often as it occurs in the input |
| TextExtractor.NonEmptyLinesAppend | text_extractor.py:116 | filtering two runs of lines one after the other is filtering each and concatenating: the kept lines stay in input order |
| TextExtractor.NonEmptyLinesOne | text_extractor.py:116 | a single line is kept exactly when it is non-empty |
| TextExtractor.NonEmptyLinesKeepsAll | text_extractor.py:116 | when no line is empty the filter keeps every line |
| TextExtractor.CleanLines | text_extractor.py:116 | one line per kept non-empty line, in the same order, each the stripped form of that line |
| TextExtractor.CleanLinesWithoutEmpty | text_extractor.py:116 | when no line is empty, cleaning strips each line in place |
| TextExtractor.ExtractTextFromEml | text_extractor.py:98-122 | the result is the gated newline join of the cleaned message lines, and nothing when the message cannot be parsed |
| TextExtractor.FormatOf | text_extractor.py:176-189 | the generic fallback is chosen exactly when the extension is none of .pdf .txt .docx .eml .msg .rtf |
| TextExtractor.Extension | text_extractor.py:173 | `splitext` gives "" or a suffix of the path that starts with its only dot and holds no '/'; it is non-empty exactly when some character after the last '/' and before the last '.' is not a dot, and then it starts at the last '.' |
| TextExtractor.LastIndexOfLower | text_extractor.py:173 | lower-casing a path leaves its last '/' and its last '.' where they are |
| TextExtractor.ExtensionOfLower | text_extractor.py:173 | the extension of the lower-cased path is the lower-cased extension |
| TextExtractor.DispatchIgnoresCase | text_extractor.py:173-187 | lower-casing the whole path first does not change which extractor the file goes to |
| TextExtractor.UpperCaseExtension | text_extractor.py:173-177 | `a/b.PDF` goes to the PDF extractor |
| TextExtractor.DotFileHasNoExtension | text_extractor.py:173-200 | `a/.pdf` has no extension and goes to the generic fallback |
| TextExtractor.ExtractedText | text_extractor.py:168-200 | whatever the extension, the result is nothing or stripped, non-empty text that passes the readability gate |
| TextExtractor.ExtractTextFromFile | text_extractor.py:168-200 | the if/elif chain on the lower-cased extension computes the dispatch of every format, and its result is gated |
| TextExtractor.BlankPages | text_extractor.py:53-55 | whitespace-only pages or paragraphs give nothing |
| TextExtractor.BlankEmail | text_extractor.py:98-122 | a message without subject and with whitespace-only text gives nothing |
| TextExtractor.BlankOutlook | text_extractor.py:125-142 | an Outlook message without subject and with a whitespace-only body gives nothing |
| TextExtractor.BlankFileUnreadable | text_extractor.py:168-200 | a file whose every parser output is whitespace only is unreadable, whatever its extension |
| Classifier.IsMachineReadable | classifier.py:3-26 | true exactly when the document opened, has at least one page, and its concatenated text is strictly longer than min_ratio * pages * 1000; zero pages or a failure gives false |
| Classifier.DefaultDensity | classifier.py:20-22 | at the default 0.01 the test is: more than 10 characters per page |
| DocumentClassifier.AnyKeywordIff | document_classifier.py:57-59 | the `any(k in text ...)` search holds exactly when some keyword occurs at some position |
| DocumentClassifier.FallbackClassification | document_classifier.py:50-62 | LICENSE exactly when a license keyword occurs in the lower-cased text; AGREEMENT exactly when none does but an agreement keyword does; UNKNOWN exactly when no keyword of either list occurs |
| DocumentClassifier.FallbackIgnoresCase | document_classifier.py:55 | the keyword search gives the same answer on the text and on its lower-cased form |
| DocumentClassifier.ServiceLevelSubscription | document_classifier.py:57-58 | a text naming both a service level agreement and a subscription is LICENSE |
| DocumentClassifier.InitPrompt | document_classifier.py:9-23 | the classification prompt contains the document text verbatim |
| DocumentClassifier.ClassifyDocument | document_classifier.py:31-48 | the model's answer is kept when it is exactly AGREEMENT or LICENSE; any other answer, or a failed call, gives the keyword fallback |
| DocumentClassifier.ClassifyUnknownIff | document_classifier.py:31-62 | the classification is UNKNOWN exactly when the model gave neither AGREEMENT nor LICENSE and no keyword of either list occurs |
| DocumentClassifier.ModelUnknownIsRedecided | document_classifier.py:37-48 | a model UNKNOWN and a failed call both end in the keyword fallback |
| OllamaClient.PropertiesOf | ollamaClient.py:38-52 | the properties are keyed by exactly the field names of the group |
| OllamaClient.PropertiesCount | ollamaClient.py:39-42 | with unique field names there is one property per field |
| OllamaClient.PropertiesTyped | ollamaClient.py:40-42 | with unique field names each field's property holds that field's type |
| OllamaClient.CollectFields | ollamaClient.py:39-44 | the loop over one group builds its properties and its required names in schema order |
| OllamaClient.SchemaFor | ollamaClient.py:38-66 | every required name is a property; LICENSE and AGREEMENT key the properties by exactly the group's field names; CLASSIFY asks for the single required `doc_type`; any other doc_type gives no properties and no required names |
| OllamaClient.RequestFor | ollamaClient.py:62-80 | every request carries the model and the prompt, does not stream, and carries `format` exactly when the properties are not empty |
| OllamaClient.BuildRequest | ollamaClient.py:24-80 | the branch on doc_type and the loops build that request |
| OllamaClient.GroupRequest | ollamaClient.py:38-74 | for LICENSE and AGREEMENT the properties are keyed by exactly the group's names, `required` lists the required names in order, and `format` is sent exactly when the group has a field |
| OllamaClient.ClassifyRequest | ollamaClient.py:54-58 | CLASSIFY asks for the single required string property `doc_type` |
| OllamaClient.OtherRequest | ollamaClient.py:68-80 | any other doc_type sends no `format` |
| OllamaClient.Generate | ollamaClient.py:91-107 | nothing when the transport fails; otherwise the reply's `response`, or the fixed default text when the reply has none |
| Consensus.ExtractionPrompt | npl_extraction_mistral.py:78-88 | the `+=` loop builds the head with the text, one line per field in schema order, then the tail |
| Consensus.PromptHoldsText | npl_extraction_mistral.py:78-81 | the extraction prompt holds the document text verbatim right after its opening |
| Consensus.PromptListsField | npl_extraction_mistral.py:85-86 | each field's line appears in the prompt, and the next field's line starts where it ends |
| Consensus.RefineExtraction | npl_extraction_mistral.py:77-95 | an attempt gives the decoded reply, or {} when the call or the decoding fails |
| Consensus.Attempts | npl_extraction_mistral.py:100-104 | one record per attempt, in order, {} for a failed attempt |
| Consensus.TruthyValues | npl_extraction_mistral.py:111 | the values collected for a key are non-empty, each given for that key by some attempt, and no more of them than attempts |
| Consensus.CountGiving | npl_extraction_mistral.py:111 | no more attempts give a value than there are attempts |
| Consensus.TruthyValuesCount | npl_extraction_mistral.py:111 | each non-empty value occurs among the collected values exactly as often as attempts give it for that key |
| Consensus.ConsensusCountsAt | npl_extraction_mistral.py:107-116 | with any number of attempts, a key is kept exactly when some non-empty value is given for it by at least two attempts, and it is kept with a non-empty value that no other non-empty value is given more often than |
| Consensus.CollectValues | npl_extraction_mistral.py:111 | the comprehension loop collects exactly those values |
| Consensus.MostCommon | npl_extraction_mistral.py:112-113 | frequency 0 exactly for no values; otherwise the most frequent value, the first-seen one on ties, with its count |
| Consensus.ReduceKey | npl_extraction_mistral.py:110-115 | a key is kept only with its most common value occurring twice or more, and is dropped only when no value recurs |
| Consensus.Reduce | npl_extraction_mistral.py:107-116 | the loop over the union of the attempts' keys produces the consensus record |
| Consensus.ExtractStableFields | npl_extraction_mistral.py:97-118 | with N attempts the result is the consensus of their records; with one attempt it is empty |
| Consensus.SingleAttemptKeepsNothing | npl_extraction_mistral.py:102-114 | with the single attempt the code makes, no value can recur and the consensus is empty |
| Consensus.ModeUnique | npl_extraction_mistral.py:113 | the most common value with the first-seen tie-break is unique |
| Consensus.KeptRecurring | npl_extraction_mistral.py:113-115 | a kept key has a value that recurs |
| Consensus.ConsensusUnique | npl_extraction_mistral.py:107-116 | the consensus contract determines the reduced record completely |
| Consensus.KeptValueFromAttempt | npl_extraction_mistral.py:111-115 | a kept value is non-empty and was given for that key by some attempt |
| Consensus.TwoAttemptsAgree | npl_extraction_mistral.py:107-116 | over two attempts, a key both give with the same non-empty value is kept with it |
| Consensus.TwoAttemptsDisagree | npl_extraction_mistral.py:107-116 | over two attempts, any other key is dropped |
| Consensus.TwoAttempts | npl_extraction_mistral.py:107-116 | over two attempts the consensus is exactly the keys both give with the same non-empty value, with that value |
| Reporting.ReportRow | npl_extraction_mistral.py:49-54 | four cells: the file, YES/NO for readable, the classification, YES/NO for completed, each flag decoding back to its boolean |
| Reporting.ReportRowInjective | npl_extraction_mistral.py:49-54 | two outcome rows are equal exactly when they record the same outcome |
| Reporting.RecordColumns | npl_extraction_mistral.py:57-62 | "file" and then the names of the group LICENSE selects (license fields) or every other type selects (agreement fields) |
| Reporting.RecordRow | npl_extraction_mistral.py:70-75 | one cell per column |
| Reporting.RecordRowCells | npl_extraction_mistral.py:70-74 | a column takes the record's value; failing that, "file" takes the file name; every other column takes "" |
| Reporting.RecordRowIgnoresOtherKeys | npl_extraction_mistral.py:72-74 | record keys that are not columns do not affect the row |
| Reporting.EmptyRecordRow | npl_extraction_mistral.py:70-71 | an empty record gives the file name followed by empty cells |
| Reporting.BuildRecordRow | npl_extraction_mistral.py:70-75 | the dictionary of empty cells, overwritten with the file name and then with every record key that is a column, gives that row |
| Reporting.CsvTable.Create | npl_extraction_mistral.py:64 | a table whose file does not exist yet holds no row |
| Reporting.CsvTable.Open | npl_extraction_mistral.py:64 | a table left by an earlier run keeps its rows |
| Reporting.CsvTable.Append | npl_extraction_mistral.py:66-75 | the header is written only by the append that creates the file, and then the row; a new table is always its header followed by the appended rows |
| Pipeline.MissingFields | npl_extraction_mistral.py:173 | a name is missing exactly when it is required and has no non-empty value |
| Pipeline.CompleteIff | npl_extraction_mistral.py:168-186 | a record is complete exactly when every required field of the group has a non-empty value |
| Pipeline.EmptyRecordComplete | npl_extraction_mistral.py:168-173 | an empty record is complete exactly when the group has no required field |
| Pipeline.SingleAttemptIncomplete | npl_extraction_mistral.py:102-173 | with one attempt, no file whose group has a required field is ever complete |
| Pipeline.ExtractRecord | npl_extraction_mistral.py:164-173 | the record of a classified file is the consensus of its attempts, and the completeness flag is whether no required field is missing |
| Pipeline.Run.constructor | npl_extraction_mistral.py:121-123 | a run starts with the given tables and empty readable and unreadable lists |
| Pipeline.Run.LogFileReport | npl_extraction_mistral.py:42-54 | appends exactly the outcome row to the outcome log |
| Pipeline.Run.AppendToCsv | npl_extraction_mistral.py:56-75 | appends exactly the structured row to the table of the document type and leaves the other table alone |
| Pipeline.Run.ProcessText | npl_extraction_mistral.py:149-187 | UNKNOWN gives the outcome (YES, UNKNOWN, NO), no structured row and an unreadable entry; a classified file gives one structured row of its consensus record in its table, an outcome completed exactly when complete, and a readable entry |
| Pipeline.Run.ProcessFile | npl_extraction_mistral.py:138-187 | a file with no text gives the outcome (NO, UNKNOWN, NO), no structured row and an unreadable entry; any other file is handled as above; exactly one outcome row either way |
| Pipeline.Run.Iterate | npl_extraction_mistral.py:134-187 | one loop turn adds exactly one outcome row, naming the file, and one list entry |
| Pipeline.Run.ProcessFiles | npl_extraction_mistral.py:134-187 | earlier outcome rows are kept; the new rows name the files of the batch, one each, in order; the readable and unreadable lists grow by as many entries together as there are files |
| Pipeline.BatchRowNamesFile | npl_extraction_mistral.py:134-144 | after a batch, the n-th new outcome row names the n-th file |
| Pipeline.OutcomeRow | npl_extraction_mistral.py:49-54 | the outcome row holds the file, the readable flag, the type name and the completed flag |

## Left out

- The format libraries (PyMuPDF, python-docx, extract_msg, the e-mail parser, chardet, pyth) are not modelled. What each parser would return for a file is an input, and `None` stands for an exception it raises.
- Non-text e-mail payloads are not modelled: the content of a walked part is a string, and a failure to decode is a parse failure.
- The network is not modelled: the HTTP post, the unused SSH client and the curl command string. The transport is a function from request to decoded reply.
- JSON decoding of model replies is not modelled. A classification reply is an optional `doc_type` string. An extraction reply is an optional map from field name to string. Non-string JSON values, whose truthiness and hashability differ, are not modelled.
- `fields.json` loading is not modelled: the field schema is a parameter.
- `os.walk` directory enumeration is not modelled: the batch is a given sequence of files.
- Logging, progress bars, `dotenv` and `print` output are not modelled.
- Floating-point rounding is not modelled: both ratio tests use exact rationals (`real`).
- Unicode `str.strip` and `str.lower` are not modelled: whitespace and case are modelled over ASCII only.
- `os.path.splitext` follows POSIX separators ('/') only.
- Exact CSV quoting and the ';' delimiter are not modelled: a table is a sequence of rows of cells.
- `DictWriter` is not modelled: a structured row is built only from the dictionary of declared columns.
- The classification and extraction prompts: only the parts the properties speak about are kept verbatim (the embedded text, the field lines, their order). The rest of the classification wording is condensed.
- `document_classifier.extract_text_from_pdf` is an unused library wrapper and is not modelled.
- The exception handler around `classify_document` in `main` is not modelled: its body is total in the model, so the handler is unreachable.
- `vision.py` is not part of this model.
- An extraction reply that decodes to JSON but not to an object (`null`, a list, a string) is not modelled. The source returns it from `refine_extraction_with_mistral` (npl_extraction_mistral.py:92), and `r.keys()` (npl_extraction_mistral.py:107) then raises outside any handler and ends the whole batch. The model's attempt is an optional map, so every attempt yields a record; the one-outcome-row-per-file property of `Pipeline.Run.ProcessFiles` rests on that.
- Pipeline.Run.ProcessFiles: states the file column and the list counts of the batch, not every individual cell. The cells of each row are stated per call by `Pipeline.Run.ProcessFile`.
