/** Per-file text extraction: suffix dispatch, the PDF and DOCX assembly of
    parser output, and the tabular reader's encoding fallback. The parsers
    themselves (pdfplumber, python-docx, pandas) are oracles bundled in
    `Oracles`. */
module Extractors {
  import opened Wrappers
  import opened Text

  /** The encodings tried for a tabular file, in the order they are tried. */
  const Encodings: seq<string> := ["utf-8", "ISO-8859-1", "latin1", "cp1252", "utf-16", "utf-32"]

  /** The suffixes the corpus builder accepts (after lower-casing). */
  const SupportedSuffixes: seq<string> := [".pdf", ".docx", ".csv", ".xlsx"]

  /** What one attempt of the table reader does: it parses, or it raises a
      `ValueError` (which includes `UnicodeDecodeError`, its subclass), or it
      raises anything else. Only the second kind moves on to the next
      encoding. */
  datatype ReadOutcome<T> = Parsed(table: T) | ValueError(message: string) | OtherError(message: string)

  /** Why a file yields no text: an exception from a parser, every encoding
      rejected, or a PDF page without a text layer (whose `None` text makes
      the `+=` raise). */
  datatype ExtractError = Failed(message: string) | EncodingsExhausted | PageWithoutText

  /** The three extractors `process_file` can pick. */
  datatype Extractor = PdfExtractor | DocxExtractor | TabularExtractor

  /** Which pandas reader the tabular extractor uses. */
  datatype TableReader = CsvReader | ExcelReader

  /** The foreign parsers, as functions of the path: the page texts of a
      PDF (`None` for a page with no text), the paragraph texts of a DOCX,
      one read attempt of a table with a given reader and encoding, and
      `to_csv(index=False)` of a parsed table. */
  datatype Oracles<!T> = Oracles(
    pdfPages: string -> Result<seq<Option<string>>, string>,
    docxParagraphs: string -> Result<seq<string>, string>,
    readTable: (TableReader, string, string) -> ReadOutcome<T>,
    toCsv: T -> string)

  /** The fallback's result together with the encodings it tried, in order. */
  datatype Fallback<T> = Fallback(result: Result<T, ExtractError>, tried: seq<string>)

  /** Encoding `k` is the first one the reader accepts: it parses, and
      every earlier one was rejected with a `ValueError`. */
  predicate ParsesFirstAt<T>(read: string -> ReadOutcome<T>, encodings: seq<string>, k: nat) {
    && k < |encodings|
    && read(encodings[k]).Parsed?
    && forall j | 0 <= j < k :: read(encodings[j]).ValueError?
  }

  predicate EndsWithAny(s: string, suffixes: seq<string>) {
    exists i | 0 <= i < |suffixes| :: EndsWith(s, suffixes[i])
  }

  /** The corpus builder's filter: a case-insensitive supported suffix. */
  predicate IsSupported(name: string) {
    EndsWithAny(Lower(name), SupportedSuffixes)
  }

  // ---------------------------------------------------------------------
  // Encoding fallback
  // ---------------------------------------------------------------------

  /** The `for encoding in encodings` loop of the tabular extractor: the
      first attempt that parses wins, a `ValueError` moves on, any other
      error propagates at once, and running out of encodings raises. The
      encodings tried form a prefix of the list, all but the last of them
      rejected with a `ValueError`, so nothing after a success is tried. */
  function ReadWithFallback<T>(read: string -> ReadOutcome<T>, encodings: seq<string>): (f: Fallback<T>)
    ensures f.tried <= encodings
    ensures forall i | 0 <= i < |f.tried| - 1 :: read(f.tried[i]).ValueError?
    ensures f.result.Success? ==>
      |f.tried| > 0 && read(f.tried[|f.tried| - 1]) == Parsed(f.result.value)
    ensures f.result.Failure? && f.result.error.Failed? ==>
      |f.tried| > 0 && read(f.tried[|f.tried| - 1]) == OtherError(f.result.error.message)
    ensures f.result == Failure(EncodingsExhausted) <==>
      forall i | 0 <= i < |encodings| :: read(encodings[i]).ValueError?
    ensures f.result == Failure(EncodingsExhausted) ==> f.tried == encodings
    ensures f.result.Failure? ==> f.result.error.Failed? || f.result.error.EncodingsExhausted?
    decreases |encodings|
  {
    if |encodings| == 0 then Fallback(Failure(EncodingsExhausted), [])
    else
      match read(encodings[0])
      case Parsed(t) => Fallback(Success(t), [encodings[0]])
      case OtherError(m) => Fallback(Failure(Failed(m)), [encodings[0]])
      case ValueError(_) =>
        var f := ReadWithFallback(read, encodings[1..]);
        assert forall i | 1 <= i < |encodings| :: encodings[i] == encodings[1..][i - 1];
        Fallback(f.result, [encodings[0]] + f.tried)
  }

  /** The fallback returns the table of the first encoding the reader
      accepts, provided every earlier one was rejected with a `ValueError`,
      and it stops right there. */
  lemma {:induction false} FallbackPicksFirstSuccess<T>(read: string -> ReadOutcome<T>, encodings: seq<string>, k: nat)
    requires ParsesFirstAt(read, encodings, k)
    ensures ReadWithFallback(read, encodings) == Fallback(Success(read(encodings[k]).table), encodings[..k + 1])
    decreases k
  {
    if k > 0 {
      assert read(encodings[0]).ValueError?;
      forall j | 0 <= j < k - 1 ensures read(encodings[1..][j]).ValueError? {
        assert encodings[1..][j] == encodings[j + 1];
      }
      FallbackPicksFirstSuccess(read, encodings[1..], k - 1);
      assert encodings[1..][k - 1] == encodings[k];
      assert [encodings[0]] + encodings[1..][..k] == encodings[..k + 1];
    }
  }

  // ---------------------------------------------------------------------
  // PDF and DOCX assembly
  // ---------------------------------------------------------------------

  /** The page loop of `extract_text_from_pdf`: the page texts concatenated
      in page order with no separator, or nothing when some page has no
      text. */
  function PdfText(pages: seq<Option<string>>): (r: Option<string>)
    ensures r.Some? && |pages| > 0 ==> pages[0].Some? && pages[0].value <= r.value
    decreases |pages|
  {
    if |pages| == 0 then Some("")
    else if pages[0].None? then None
    else
      match PdfText(pages[1..])
      case None => None
      case Some(rest) => Some(pages[0].value + rest)
  }

  /** The page text exists exactly when every page has text. */
  lemma {:induction false} PdfTextSomeIff(pages: seq<Option<string>>)
    ensures PdfText(pages).Some? <==> forall i | 0 <= i < |pages| :: pages[i].Some?
    decreases |pages|
  {
    if |pages| > 0 {
      PdfTextSomeIff(pages[1..]);
      assert forall i | 1 <= i < |pages| :: pages[i] == pages[1..][i - 1];
    }
  }

  lemma PdfTextCons(pages: seq<Option<string>>)
    requires |pages| > 0 && pages[0].Some? && PdfText(pages[1..]).Some?
    ensures PdfText(pages) == Some(pages[0].value + PdfText(pages[1..]).value)
  {
  }

  /** A single page with text yields exactly that text: the assembly adds
      no separator. With `PdfTextAppend` and `PdfTextSomeIff` this fixes
      the text of every document. */
  lemma {:induction false} PdfTextSingle(x: string)
    ensures PdfText([Some(x)]) == Some(x)
  {
    assert [Some(x)][1..] == [];
    assert PdfText([Some(x)][1..]) == Some("");
    assert x + "" == x;
  }

  /** Page texts compose: the text of two runs of pages is the text of the
      first run followed by the text of the second. */
  lemma {:induction false} PdfTextAppend(a: seq<Option<string>>, b: seq<Option<string>>)
    requires PdfText(a).Some? && PdfText(b).Some?
    ensures PdfText(a + b) == Some(PdfText(a).value + PdfText(b).value)
    decreases |a|
  {
    if |a| == 0 {
      assert a + b == b;
      assert PdfText(a).value == "";
      assert PdfText(a).value + PdfText(b).value == PdfText(b).value;
    } else {
      var head := a[0].value;
      assert PdfText(a[1..]).Some?;
      PdfTextCons(a);
      PdfTextAppend(a[1..], b);
      assert (a + b)[1..] == a[1..] + b;
      PdfTextCons(a + b);
      var rest, tail := PdfText(a[1..]).value, PdfText(b).value;
      assert head + (rest + tail) == (head + rest) + tail;
    }
  }

  /** `extract_text_from_pdf`: a failure to open propagates; otherwise the
      assembled page text, or `PageWithoutText`. */
  function ExtractPdf(loaded: Result<seq<Option<string>>, string>): (r: Result<string, ExtractError>)
    ensures loaded.Failure? ==> r == Failure(Failed(loaded.error))
    ensures loaded.Success? ==>
      (r.Success? <==> forall i | 0 <= i < |loaded.value| :: loaded.value[i].Some?)
    ensures loaded.Success? && r.Failure? ==> r.error == PageWithoutText
    ensures loaded.Success? && r.Success? ==> PdfText(loaded.value) == Some(r.value)
  {
    match loaded
    case Failure(m) => Failure(Failed(m))
    case Success(pages) =>
      PdfTextSomeIff(pages);
      match PdfText(pages)
      case None => Failure(PageWithoutText)
      case Some(t) => Success(t)
  }

  /** `extract_text_from_docx`: paragraph texts joined by newlines. No
      paragraphs give the empty text. Otherwise the result's lines are the
      paragraphs' own lines in order, so a paragraph holding a line break
      reads back as several; when none does, the lines are the paragraphs
      themselves. */
  function ExtractDocx(loaded: Result<seq<string>, string>): (r: Result<string, ExtractError>)
    ensures loaded.Failure? <==> r.Failure?
    ensures loaded.Failure? ==> r == Failure(Failed(loaded.error))
    ensures loaded.Success? && |loaded.value| >= 1
         && (forall i | 0 <= i < |loaded.value| :: '\n' !in loaded.value[i])
         ==> SplitOn('\n', r.value) == loaded.value
    ensures loaded.Success? && loaded.value == [] ==> r == Success("")
    ensures loaded.Success? && |loaded.value| >= 1 ==>
      r.Success? && SplitOn('\n', r.value) == SplitAll('\n', loaded.value)
  {
    match loaded
    case Failure(m) => Failure(Failed(m))
    case Success(paragraphs) =>
      assert |paragraphs| >= 1 ==> SplitOn('\n', JoinWith('\n', paragraphs)) == SplitAll('\n', paragraphs) by {
        if |paragraphs| >= 1 { SplitOnOfJoinAll('\n', paragraphs); }
      }
      assert (forall i | 0 <= i < |paragraphs| :: '\n' !in paragraphs[i]) ==> SplitAll('\n', paragraphs) == paragraphs by {
        if forall i | 0 <= i < |paragraphs| :: '\n' !in paragraphs[i] { SplitAllOfFree('\n', paragraphs); }
      }
      Success(JoinWith('\n', paragraphs))
  }

  // ---------------------------------------------------------------------
  // Dispatch
  // ---------------------------------------------------------------------

  lemma SuffixChar(s: string, suffix: string, k: nat)
    requires EndsWith(s, suffix) && 0 < k <= |suffix|
    ensures s[|s| - k] == suffix[|suffix| - k]
  {
    assert s[|s| - |suffix|..][|suffix| - k] == s[|s| - k];
  }

  /** No string ends with two different supported suffixes. */
  lemma SupportedSuffixesExclusive(s: string)
    ensures !(EndsWith(s, ".pdf") && EndsWith(s, ".docx"))
    ensures !(EndsWith(s, ".pdf") && EndsWith(s, ".csv"))
    ensures !(EndsWith(s, ".pdf") && EndsWith(s, ".xlsx"))
    ensures !(EndsWith(s, ".docx") && EndsWith(s, ".csv"))
    ensures !(EndsWith(s, ".docx") && EndsWith(s, ".xlsx"))
    ensures !(EndsWith(s, ".csv") && EndsWith(s, ".xlsx"))
  {
    if EndsWith(s, ".pdf") { SuffixChar(s, ".pdf", 1); }
    if EndsWith(s, ".docx") { SuffixChar(s, ".docx", 1); SuffixChar(s, ".docx", 2); }
    if EndsWith(s, ".csv") { SuffixChar(s, ".csv", 1); }
    if EndsWith(s, ".xlsx") { SuffixChar(s, ".xlsx", 1); SuffixChar(s, ".xlsx", 2); }
  }

  /** The suffix tests of `process_file`, on the lower-cased path: each
      extractor is chosen exactly when its suffix matches, whatever the
      order of the tests, and no extractor exactly when the corpus builder's
      filter would reject the name. */
  function Dispatch(path: string): (k: Option<Extractor>)
    ensures k == Some(PdfExtractor) <==> EndsWith(Lower(path), ".pdf")
    ensures k == Some(DocxExtractor) <==> EndsWith(Lower(path), ".docx")
    ensures k == Some(TabularExtractor) <==>
      EndsWith(Lower(path), ".csv") || EndsWith(Lower(path), ".xlsx")
    ensures k.None? <==> !IsSupported(path)
  {
    var lower := Lower(path);
    SupportedSuffixesExclusive(lower);
    assert SupportedSuffixes[0] == ".pdf" && SupportedSuffixes[1] == ".docx";
    assert SupportedSuffixes[2] == ".csv" && SupportedSuffixes[3] == ".xlsx";
    var tabular: seq<string> := [".csv", ".xlsx"];
    assert tabular[0] == ".csv" && tabular[1] == ".xlsx";
    if EndsWith(lower, ".pdf") then Some(PdfExtractor)
    else if EndsWith(lower, ".docx") then Some(DocxExtractor)
    else if EndsWithAny(lower, tabular) then Some(TabularExtractor)
    else None
  }

  /** Inside the tabular extractor the CSV reader is chosen by a
      case-SENSITIVE `.csv` test on the original path. */
  function ReaderFor(path: string): (r: TableReader)
    ensures r == CsvReader <==> EndsWith(path, ".csv")
  {
    if EndsWith(path, ".csv") then CsvReader else ExcelReader
  }

  /** An upper-case `.CSV` passes the case-insensitive dispatch to the
      tabular extractor and is then handed to the Excel reader. */
  lemma UpperCaseCsvReadAsExcel()
    ensures Dispatch("X.CSV") == Some(TabularExtractor)
    ensures ReaderFor("X.CSV") == ExcelReader
  {
    assert Lower("X.CSV") == "x.csv";
    assert "x.csv"[1..] == ".csv";
    assert "X.CSV"[1..] != ".csv" by { assert "X.CSV"[1..][1] == 'C'; }
  }

  /** One read attempt of `path` as a function of the encoding. */
  function AttemptFor<T>(o: Oracles<T>, path: string): string -> ReadOutcome<T> {
    encoding => o.readTable(ReaderFor(path), path, encoding)
  }

  /** `extract_data_from_csv_excel` followed by `to_csv`. */
  function ExtractTabular<T>(path: string, o: Oracles<T>): (r: Result<string, ExtractError>)
    ensures r == Failure(EncodingsExhausted) <==>
      forall i | 0 <= i < |Encodings| :: o.readTable(ReaderFor(path), path, Encodings[i]).ValueError?
    ensures r.Success? <==> exists k: nat :: ParsesFirstAt(AttemptFor(o, path), Encodings, k)
    ensures forall k: nat | ParsesFirstAt(AttemptFor(o, path), Encodings, k) ::
      r == Success(o.toCsv(o.readTable(ReaderFor(path), path, Encodings[k]).table))
  {
    var read := AttemptFor(o, path);
    var f := ReadWithFallback(read, Encodings);
    TabularSuccessIff(read, Encodings);
    forall k: nat | ParsesFirstAt(read, Encodings, k)
      ensures f.result == Success(read(Encodings[k]).table)
    {
      FallbackPicksFirstSuccess(read, Encodings, k);
    }
    match f.result
    case Success(table) => Success(o.toCsv(table))
    case Failure(e) => Failure(e)
  }

  /** The fallback succeeds exactly when some encoding parses after only
      `ValueError` rejections. */
  lemma TabularSuccessIff<T>(read: string -> ReadOutcome<T>, encodings: seq<string>)
    ensures ReadWithFallback(read, encodings).result.Success? <==>
      exists k: nat :: ParsesFirstAt(read, encodings, k)
  {
    var f := ReadWithFallback(read, encodings);
    if f.result.Success? {
      var k := |f.tried| - 1;
      assert f.tried == encodings[..|f.tried|];
      assert forall j | 0 <= j < k :: encodings[j] == f.tried[j];
      assert read(encodings[k]).Parsed?;
      assert ParsesFirstAt(read, encodings, k);
    } else {
      if k: nat :| ParsesFirstAt(read, encodings, k) {
        FallbackPicksFirstSuccess(read, encodings, k);
      }
    }
  }

  /** The extractor chosen for a path, run on it. */
  function RunExtractor<T>(k: Extractor, path: string, o: Oracles<T>): (r: Result<string, ExtractError>)
    ensures k == PdfExtractor ==> r == ExtractPdf(o.pdfPages(path))
    ensures k == DocxExtractor ==> r == ExtractDocx(o.docxParagraphs(path))
    ensures k == TabularExtractor ==> r == ExtractTabular(path, o)
  {
    match k
    case PdfExtractor => ExtractPdf(o.pdfPages(path))
    case DocxExtractor => ExtractDocx(o.docxParagraphs(path))
    case TabularExtractor => ExtractTabular(path, o)
  }

  /** `process_file`: `Success(None)` for an unsupported suffix, otherwise
      the chosen extractor's text or its failure. */
  function ProcessFile<T>(path: string, o: Oracles<T>): (r: Result<Option<string>, ExtractError>)
    ensures r == Success(None) <==> !IsSupported(path)
    ensures IsSupported(path) && r.Success? ==> r.value.Some?
  {
    match Dispatch(path)
    case None => Success(None)
    case Some(k) => Lift(RunExtractor(k, path, o))
  }

  /** A supported file succeeds exactly when the extractor its suffix
      selects succeeds, and then carries that extractor's text. */
  lemma ProcessFileRunsDispatched<T>(path: string, o: Oracles<T>)
    requires IsSupported(path)
    ensures Dispatch(path).Some?
    ensures ProcessFile(path, o).Success? <==> RunExtractor(Dispatch(path).value, path, o).Success?
    ensures ProcessFile(path, o).Success? ==>
      ProcessFile(path, o).value == Some(RunExtractor(Dispatch(path).value, path, o).value)
  {
  }

  function Lift(r: Result<string, ExtractError>): (l: Result<Option<string>, ExtractError>)
    ensures r.Success? ==> l == Success(Some(r.value))
    ensures r.Failure? ==> l == Failure(r.error)
  {
    match r
    case Success(t) => Success(Some(t))
    case Failure(e) => Failure(e)
  }
}
