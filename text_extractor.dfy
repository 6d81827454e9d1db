/**
 * Format dispatch and the readability gate of the text extractor.
 * Each format library (PDF, DOCX, e-mail and Outlook parsers, the RTF reader,
 * the encoding-guessing decoder) is replaced by what it hands back for a file,
 * with `None` standing for any exception it raises.
 */
module TextExtractor {
  import opened Wrappers
  import opened Strings

  const MIN_LENGTH: nat := 5
  const DEFAULT_MIN_RATIO: real := 0.5

  /** Membership in Python's `string.printable`: 0x20-0x7E and \t \n \v \f \r. */
  predicate IsPrintable(c: char) {
    (' ' <= c <= '~') || ('\t' <= c <= '\r')
  }

  /** `sum(ch in printable_set for ch in text)`. */
  function PrintableCount(text: string): (n: nat)
    ensures n <= |text|
  {
    if |text| == 0 then 0
    else PrintableCount(text[..|text| - 1]) + (if IsPrintable(text[|text| - 1]) then 1 else 0)
  }

  /** Every character is counted exactly when every character is printable. */
  lemma {:induction false} AllPrintableCount(text: string)
    ensures PrintableCount(text) == |text| <==> forall i :: 0 <= i < |text| ==> IsPrintable(text[i])
  {
    if |text| > 0 {
      var front := text[..|text| - 1];
      assert forall i :: 0 <= i < |front| ==> front[i] == text[i];
      AllPrintableCount(front);
    }
  }

  lemma RatioAtLeast(count: real, total: real, minRatio: real)
    requires total > 0.0
    ensures count / total >= minRatio <==> count >= minRatio * total
  {
    var q := count / total;
    assert q * total == count;
    if q >= minRatio {
      assert (q - minRatio) * total >= 0.0;
    } else {
      assert (minRatio - q) * total > 0.0;
    }
  }

  /**
   * `is_text_readable(text, min_ratio)`: too short is rejected whatever the threshold;
   * otherwise the share of printable characters must reach the threshold, stated
   * here without division as printable >= min_ratio * length.
   */
  function IsTextReadable(text: string, minRatio: real): (ok: bool)
    ensures |text| < MIN_LENGTH ==> !ok
    ensures |text| >= MIN_LENGTH ==> (ok <==> PrintableCount(text) as real >= minRatio * |text| as real)
  {
    if |text| < MIN_LENGTH then false
    else
      var ratio := PrintableCount(text) as real / |text| as real;
      RatioAtLeast(PrintableCount(text) as real, |text| as real, minRatio);
      ratio >= minRatio
  }

  /** At the default threshold 0.5: at least five characters and at least half of them printable. */
  lemma DefaultThreshold(text: string)
    ensures IsTextReadable(text, DEFAULT_MIN_RATIO) <==> |text| >= 5 && 2 * PrintableCount(text) >= |text|
  {
  }

  /** A text of at least five characters, all printable, is accepted at every threshold up to 1. */
  lemma AllPrintableAccepted(text: string, minRatio: real)
    requires |text| >= MIN_LENGTH
    requires forall i :: 0 <= i < |text| ==> IsPrintable(text[i])
    requires minRatio <= 1.0
    ensures IsTextReadable(text, minRatio)
  {
    AllPrintableCount(text);
    var n := |text| as real;
    assert (1.0 - minRatio) * n >= 0.0;
  }

  /** Lowering the threshold never rejects a text that was accepted. */
  lemma ThresholdMonotone(text: string, minRatio: real, lower: real)
    requires lower <= minRatio
    requires IsTextReadable(text, minRatio)
    ensures IsTextReadable(text, lower)
  {
    var n := |text| as real;
    assert (minRatio - lower) * n >= 0.0;
  }

  /** Exactly half printable is accepted at the default threshold (the comparison is `>=`). */
  lemma HalfPrintableAccepted()
    ensures IsTextReadable("abc\0\0\0", DEFAULT_MIN_RATIO)
  {
    assert PrintableCount("abc\0\0\0") == 3 by {
      assert "abc\0\0\0"[..5] == "abc\0\0";
      assert "abc\0\0"[..4] == "abc\0";
      assert "abc\0"[..3] == "abc";
      assert "abc"[..2] == "ab";
      assert "ab"[..1] == "a";
      assert "a"[..0] == "";
    }
  }

  /** What every extractor can return: nothing, or stripped, non-empty, readable text. */
  predicate Gated(r: Option<string>) {
    r.None? || (r.value != "" && IsStripped(r.value) && IsTextReadable(r.value, DEFAULT_MIN_RATIO))
  }

  /** The common ending of every extractor: strip, then keep the text only if it is non-empty and readable. */
  function Accept(raw: string): (r: Option<string>)
    ensures Gated(r)
    ensures r.Some? ==> r.value == Strip(raw)
    ensures r.None? <==> AllSpace(raw) || !IsTextReadable(Strip(raw), DEFAULT_MIN_RATIO)
  {
    var text := Strip(raw);
    if text != "" && IsTextReadable(text, DEFAULT_MIN_RATIO) then Some(text) else None
  }

  /** What the e-mail parser yields: a subject header and either the walked parts of a multipart message or one body. */
  datatype EmailPart = EmailPart(contentType: string, content: string)
  datatype EmailBody = Multipart(walk: seq<EmailPart>) | SinglePart(content: string)
  datatype EmailMessage = EmailMessage(subject: Option<string>, body: EmailBody)

  /** What the Outlook `.msg` reader yields. */
  datatype OutlookMessage = OutlookMessage(subject: Option<string>, body: Option<string>)

  /** What each parser would hand back for one file; `None` is a parser exception. */
  datatype ParsedFile = ParsedFile(
    pdfPages: Option<seq<string>>,
    decoded: Option<string>,
    docxParagraphs: Option<seq<string>>,
    email: Option<EmailMessage>,
    outlook: Option<OutlookMessage>,
    rtfText: Option<string>,
    rtfReaderInstalled: bool)

  predicate Truthy(s: Option<string>) {
    s.Some? && s.value != ""
  }

  /** A PDF yields its page texts joined by newlines, stripped and gated; a parser failure yields nothing. */
  function PdfText(pages: Option<seq<string>>): (r: Option<string>)
    ensures Gated(r)
    ensures pages.None? ==> r.None?
    ensures r.Some? ==> r.value == Strip(Join(pages.value, "\n"))
  {
    match pages
    case None => None
    case Some(p) => Accept(Join(p, "\n"))
  }

  /** Reading a decoded plain-text file: used for `.txt` and for every unrecognised extension. */
  function DecodedText(decoded: Option<string>): (r: Option<string>)
    ensures Gated(r)
    ensures decoded.None? ==> r.None?
    ensures r.Some? ==> r.value == Strip(decoded.value)
  {
    match decoded
    case None => None
    case Some(t) => Accept(t)
  }

  /** A DOCX file yields its paragraph texts joined by newlines, stripped and gated. */
  function DocxText(paragraphs: Option<seq<string>>): (r: Option<string>)
    ensures Gated(r)
    ensures paragraphs.None? ==> r.None?
    ensures r.Some? ==> r.value == Strip(Join(paragraphs.value, "\n"))
  {
    match paragraphs
    case None => None
    case Some(p) => Accept(Join(p, "\n"))
  }

  function SubjectLines(subject: Option<string>): seq<string> {
    if Truthy(subject) then ["Subject: " + subject.value] else []
  }

  /** The contents of the walked parts whose content type is text/plain, in walk order. */
  function PlainTextParts(parts: seq<EmailPart>): seq<string> {
    if |parts| == 0 then []
    else
      var last := parts[|parts| - 1];
      PlainTextParts(parts[..|parts| - 1]) + (if last.contentType == "text/plain" then [last.content] else [])
  }

  function EmailLines(msg: EmailMessage): seq<string> {
    SubjectLines(msg.subject) + match msg.body
      case Multipart(parts) => PlainTextParts(parts)
      case SinglePart(content) => [content]
  }

  /**
   * The `if line` filter: the non-empty lines, each as often as in the input
   * (the order is kept: see `NonEmptyLinesAppend`).
   */
  function NonEmptyLines(lines: seq<string>): (r: seq<string>)
    ensures |r| <= |lines|
    ensures forall i :: 0 <= i < |r| ==> r[i] != "" && r[i] in lines
    ensures forall x :: x != "" ==> multiset(r)[x] == multiset(lines)[x]
  {
    if |lines| == 0 then []
    else
      var front := lines[..|lines| - 1];
      var last := lines[|lines| - 1];
      assert lines == front + [last];
      NonEmptyLines(front) + (if last != "" then [last] else [])
  }

  /** Filtering distributes over concatenation, so the kept lines stay in input order. */
  lemma {:induction false} NonEmptyLinesAppend(a: seq<string>, b: seq<string>)
    ensures NonEmptyLines(a + b) == NonEmptyLines(a) + NonEmptyLines(b)
  {
    if |b| == 0 {
      assert a + b == a;
    } else {
      var front := b[..|b| - 1];
      assert (a + b)[..|a + b| - 1] == a + front;
      NonEmptyLinesAppend(a, front);
    }
  }

  /** A single line is kept exactly when it is non-empty. */
  lemma NonEmptyLinesOne(line: string)
    ensures NonEmptyLines([line]) == if line != "" then [line] else []
  {
    assert [line][..0] == [];
  }

  /** `line.strip() for line in lines if line`: empty lines are dropped, the others stripped. */
  function CleanLines(lines: seq<string>): (r: seq<string>)
    ensures |r| <= |lines|
    ensures forall i :: 0 <= i < |r| ==> IsStripped(r[i])
    ensures |r| == |NonEmptyLines(lines)|
    ensures forall i :: 0 <= i < |r| ==> r[i] == Strip(NonEmptyLines(lines)[i])
  {
    var kept := NonEmptyLines(lines);
    seq(|kept|, i requires 0 <= i < |kept| => Strip(kept[i]))
  }

  /** The filter keeps every line when none is empty. */
  lemma {:induction false} NonEmptyLinesKeepsAll(lines: seq<string>)
    requires forall i :: 0 <= i < |lines| ==> lines[i] != ""
    ensures NonEmptyLines(lines) == lines
  {
    if |lines| > 0 {
      var front := lines[..|lines| - 1];
      assert forall i :: 0 <= i < |front| ==> front[i] == lines[i];
      NonEmptyLinesKeepsAll(front);
      assert lines == front + [lines[|lines| - 1]];
    }
  }

  /** Without empty lines, cleaning is stripping each line in place. */
  lemma CleanLinesWithoutEmpty(lines: seq<string>)
    requires forall i :: 0 <= i < |lines| ==> lines[i] != ""
    ensures |CleanLines(lines)| == |lines|
    ensures forall i :: 0 <= i < |lines| ==> CleanLines(lines)[i] == Strip(lines[i])
  {
    NonEmptyLinesKeepsAll(lines);
  }

  /** An `.eml` message yields its cleaned lines joined by newlines, stripped and gated. */
  function EmlText(email: Option<EmailMessage>): (r: Option<string>)
    ensures Gated(r)
    ensures email.None? ==> r.None?
    ensures r.Some? ==> r.value == Strip(Join(CleanLines(EmailLines(email.value)), "\n"))
  {
    match email
    case None => None
    case Some(m) => Accept(Join(CleanLines(EmailLines(m)), "\n"))
  }

  /** The lines of an Outlook message: the subject line, then the body, each only when non-empty. */
  function OutlookLines(m: OutlookMessage): seq<string> {
    SubjectLines(m.subject) + (if Truthy(m.body) then [m.body.value] else [])
  }

  /** A `.msg` file yields the subject line and the body, each only when non-empty, stripped and gated. */
  function MsgText(outlook: Option<OutlookMessage>): (r: Option<string>)
    ensures Gated(r)
    ensures outlook.None? ==> r.None?
    ensures r.Some? ==> r.value == Strip(Join(OutlookLines(outlook.value), "\n"))
  {
    match outlook
    case None => None
    case Some(m) =>
      Accept(Join(OutlookLines(m), "\n"))
  }

  /** An RTF file yields its plain text, stripped and gated, and nothing when no RTF reader is installed. */
  function RtfText(readerInstalled: bool, rtfText: Option<string>): (r: Option<string>)
    ensures Gated(r)
    ensures !readerInstalled || rtfText.None? ==> r.None?
    ensures r.Some? ==> r.value == Strip(rtfText.value)
  {
    if !readerInstalled then None
    else match rtfText
      case None => None
      case Some(t) => Accept(t)
  }

  /** Extract text from a PDF: page texts are collected in order and joined with newlines. */
  method ExtractTextFromPdf(pages: Option<seq<string>>) returns (r: Option<string>)
    ensures r == PdfText(pages)
    ensures Gated(r)
  {
    if pages.None? {
      return None;
    }
    var doc := pages.value;
    var extracted: seq<string> := [];
    for i := 0 to |doc|
      invariant extracted == doc[..i]
    {
      extracted := extracted + [doc[i]];
    }
    assert extracted == doc;
    r := Accept(Join(extracted, "\n"));
  }

  /** The lines of an e-mail message: the subject line, then the text/plain parts or the single body. */
  method CollectEmailLines(msg: EmailMessage) returns (lines: seq<string>)
    ensures lines == EmailLines(msg)
  {
    lines := [];
    if Truthy(msg.subject) {
      lines := lines + ["Subject: " + msg.subject.value];
    }
    match msg.body {
      case Multipart(parts) =>
        for i := 0 to |parts|
          invariant lines == SubjectLines(msg.subject) + PlainTextParts(parts[..i])
        {
          assert parts[..i + 1][..i] == parts[..i];
          if parts[i].contentType == "text/plain" {
            lines := lines + [parts[i].content];
          }
        }
        assert parts[..|parts|] == parts;
      case SinglePart(content) =>
        lines := lines + [content];
    }
  }

  /** Extract text from an `.eml` message. */
  method ExtractTextFromEml(email: Option<EmailMessage>) returns (r: Option<string>)
    ensures r == EmlText(email)
    ensures Gated(r)
  {
    if email.None? {
      return None;
    }
    var lines := CollectEmailLines(email.value);
    r := Accept(Join(CleanLines(lines), "\n"));
  }

  /** The extractor an extension is routed to. */
  datatype Format = Pdf | Txt | Docx | Eml | Msg | Rtf | Other

  function FormatOf(ext: string): (f: Format)
    ensures f == Other <==> ext !in [".pdf", ".txt", ".docx", ".eml", ".msg", ".rtf"]
  {
    if ext == ".pdf" then Pdf
    else if ext == ".txt" then Txt
    else if ext == ".docx" then Docx
    else if ext == ".eml" then Eml
    else if ext == ".msg" then Msg
    else if ext == ".rtf" then Rtf
    else Other
  }

  function LastIndexOf(s: string, c: char): (k: int)
    ensures -1 <= k < |s|
    ensures k >= 0 ==> s[k] == c
    ensures forall j :: k < j < |s| ==> s[j] != c
  {
    if |s| == 0 then -1
    else if s[|s| - 1] == c then |s| - 1
    else LastIndexOf(s[..|s| - 1], c)
  }

  /**
   * `os.path.splitext(path)[1]` with '/' as the separator: from the last dot of the
   * last path component, unless that component has only dots before it.
   */
  function Extension(path: string): (ext: string)
    ensures ext == [] || (ext[0] == '.' && |ext| <= |path| && ext == path[|path| - |ext|..])
    ensures forall i :: 0 <= i < |ext| ==> ext[i] != '/'
    ensures forall i :: 0 < i < |ext| ==> ext[i] != '.'
    ensures ext != [] <==> exists k :: LastIndexOf(path, '/') < k < LastIndexOf(path, '.') && path[k] != '.'
    ensures ext != [] ==> |path| - |ext| == LastIndexOf(path, '.')
  {
    var sepIndex := LastIndexOf(path, '/');
    var dotIndex := LastIndexOf(path, '.');
    if dotIndex > sepIndex && exists k :: sepIndex < k < dotIndex && path[k] != '.' then
      path[dotIndex..]
    else
      ""
  }

  /** The extension decides the extractor after lower-casing. */
  function DispatchFormat(path: string): Format {
    FormatOf(Lower(Extension(path)))
  }

  /** Lower-casing never moves a '/' or a '.', so both are found at the same place. */
  lemma LastIndexOfLower(s: string, c: char)
    requires c == '/' || c == '.'
    ensures LastIndexOf(Lower(s), c) == LastIndexOf(s, c)
  {
    var k, m := LastIndexOf(Lower(s), c), LastIndexOf(s, c);
    if m >= 0 {
      assert Lower(s)[m] == c;
    }
    if k >= 0 {
      assert s[k] == c;
    }
  }

  /** The extension of the lower-cased path is the lower-cased extension. */
  lemma ExtensionOfLower(path: string)
    ensures Extension(Lower(path)) == Lower(Extension(path))
  {
    var low := Lower(path);
    LastIndexOfLower(path, '/');
    LastIndexOfLower(path, '.');
    var sepIndex, dotIndex := LastIndexOf(path, '/'), LastIndexOf(path, '.');
    assert forall k :: 0 <= k < |path| ==> (low[k] != '.' <==> path[k] != '.');
    if Extension(path) != [] {
      LowerSlice(path, dotIndex, |path|);
      assert path[dotIndex..|path|] == path[dotIndex..];
    }
  }

  /** The whole path may be lower-cased first: only its extension decides, and only up to case. */
  lemma DispatchIgnoresCase(path: string)
    ensures DispatchFormat(Lower(path)) == DispatchFormat(path)
  {
    ExtensionOfLower(path);
    LowerIdempotent(Extension(path));
  }

  lemma UpperCaseExtension()
    ensures DispatchFormat("a/b.PDF") == Pdf
  {
    UpperCasePdfPath();
    assert Lower(".PDF") == ".pdf";
  }

  lemma UpperCasePdfPath()
    ensures Extension("a/b.PDF") == ".PDF"
  {
    var p := "a/b.PDF";
    assert p[..6] == "a/b.PD" && p[..5] == "a/b.P" && p[..4] == "a/b.";
    assert "a/b."[..3] == "a/b" && "a/b"[..2] == "a/";
    assert LastIndexOf(p, '.') == LastIndexOf("a/b.PD", '.') == LastIndexOf("a/b.P", '.') == LastIndexOf("a/b.", '.') == 3;
    assert LastIndexOf(p, '/') == LastIndexOf("a/b.", '/') == LastIndexOf("a/", '/') == 1;
    assert p[2] != '.';
  }

  /** A file whose name is only an extension, such as `.pdf`, has no extension and goes to the fallback. */
  lemma DotFileHasNoExtension()
    ensures DispatchFormat("a/.pdf") == Other
  {
    var p := "a/.pdf";
    assert p[..5] == "a/.pd" && p[..4] == "a/.p" && p[..3] == "a/.";
    assert "a/."[..2] == "a/";
    assert LastIndexOf(p, '.') == LastIndexOf("a/.pd", '.') == LastIndexOf("a/.p", '.') == LastIndexOf("a/.", '.') == 2;
    assert LastIndexOf(p, '/') == LastIndexOf("a/.", '/') == LastIndexOf("a/", '/') == 1;
    assert Extension(p) == "";
  }

  /** `extract_text_from_file(path)`. */
  function ExtractedText(path: string, file: ParsedFile): (r: Option<string>)
    ensures Gated(r)
  {
    match DispatchFormat(path)
    case Pdf => PdfText(file.pdfPages)
    case Txt => DecodedText(file.decoded)
    case Docx => DocxText(file.docxParagraphs)
    case Eml => EmlText(file.email)
    case Msg => MsgText(file.outlook)
    case Rtf => RtfText(file.rtfReaderInstalled, file.rtfText)
    case Other => DecodedText(file.decoded)
  }

  method ExtractTextFromFile(path: string, file: ParsedFile) returns (r: Option<string>)
    ensures r == ExtractedText(path, file)
    ensures Gated(r)
  {
    var ext := Lower(Extension(path));
    assert FormatOf(ext) == DispatchFormat(path);
    if ext == ".pdf" {
      r := ExtractTextFromPdf(file.pdfPages);
    } else if ext == ".txt" {
      r := DecodedText(file.decoded);
    } else if ext == ".docx" {
      r := DocxText(file.docxParagraphs);
    } else if ext == ".eml" {
      r := ExtractTextFromEml(file.email);
    } else if ext == ".msg" {
      r := MsgText(file.outlook);
    } else if ext == ".rtf" {
      r := RtfText(file.rtfReaderInstalled, file.rtfText);
    } else {
      assert FormatOf(ext) == Other;
      r := DecodedText(file.decoded);
    }
  }

  /** Every parser output of a file with no content: whitespace only, or no e-mail subject. */
  predicate Blank(file: ParsedFile) {
    && (file.pdfPages.Some? ==> forall i :: 0 <= i < |file.pdfPages.value| ==> AllSpace(file.pdfPages.value[i]))
    && (file.decoded.Some? ==> AllSpace(file.decoded.value))
    && (file.docxParagraphs.Some? ==> forall i :: 0 <= i < |file.docxParagraphs.value| ==> AllSpace(file.docxParagraphs.value[i]))
    && (file.email.Some? ==> !Truthy(file.email.value.subject) && BlankBody(file.email.value.body))
    && (file.outlook.Some? ==> !Truthy(file.outlook.value.subject) && (file.outlook.value.body.Some? ==> AllSpace(file.outlook.value.body.value)))
    && (file.rtfText.Some? ==> AllSpace(file.rtfText.value))
  }

  predicate BlankBody(body: EmailBody) {
    match body
    case Multipart(parts) => forall i :: 0 <= i < |parts| ==> AllSpace(parts[i].content)
    case SinglePart(content) => AllSpace(content)
  }

  lemma {:induction false} BlankPlainTextParts(parts: seq<EmailPart>)
    requires forall i :: 0 <= i < |parts| ==> AllSpace(parts[i].content)
    ensures forall i :: 0 <= i < |PlainTextParts(parts)| ==> AllSpace(PlainTextParts(parts)[i])
  {
    if |parts| > 0 {
      BlankPlainTextParts(parts[..|parts| - 1]);
    }
  }

  lemma BlankCleanLines(lines: seq<string>)
    requires forall i :: 0 <= i < |lines| ==> AllSpace(lines[i])
    ensures forall i :: 0 <= i < |CleanLines(lines)| ==> CleanLines(lines)[i] == ""
  {
    var kept := NonEmptyLines(lines);
    assert forall i :: 0 <= i < |kept| ==> AllSpace(kept[i]);
  }

  lemma NewlineIsSpace()
    ensures AllSpace("\n")
  {
    assert IsSpace("\n"[0]);
  }

  lemma BlankPages(pages: seq<string>)
    requires forall i :: 0 <= i < |pages| ==> AllSpace(pages[i])
    ensures Accept(Join(pages, "\n")) == None
  {
    NewlineIsSpace();
    JoinAllSpace(pages, "\n");
  }

  lemma BlankEmail(m: EmailMessage)
    requires !Truthy(m.subject) && BlankBody(m.body)
    ensures EmlText(Some(m)) == None
  {
    if m.body.Multipart? {
      BlankPlainTextParts(m.body.walk);
    }
    var lines := EmailLines(m);
    assert forall i :: 0 <= i < |lines| ==> AllSpace(lines[i]);
    BlankCleanLines(lines);
    var cleaned := CleanLines(lines);
    assert forall i :: 0 <= i < |cleaned| ==> AllSpace(cleaned[i]);
    BlankPages(cleaned);
  }

  lemma BlankOutlook(m: OutlookMessage)
    requires !Truthy(m.subject) && (m.body.Some? ==> AllSpace(m.body.value))
    ensures MsgText(Some(m)) == None
  {
    BlankPages(OutlookLines(m));
  }

  /** A file with no content is unreadable whatever its extension. */
  lemma BlankFileUnreadable(path: string, file: ParsedFile)
    requires Blank(file)
    ensures ExtractedText(path, file) == None
  {
    match DispatchFormat(path)
    case Pdf =>
      if file.pdfPages.Some? { BlankPages(file.pdfPages.value); }
    case Docx =>
      if file.docxParagraphs.Some? { BlankPages(file.docxParagraphs.value); }
    case Eml =>
      if file.email.Some? { BlankEmail(file.email.value); }
    case Msg =>
      if file.outlook.Some? { BlankOutlook(file.outlook.value); }
    case _ =>
  }
}
