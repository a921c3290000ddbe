# Document Q&A assistant: ingestion, budget and transcript model

A Dafny model of the server core of a small document question-answering
assistant (`app.py`). At start-up the server lists a data folder, extracts
text from every PDF, DOCX, CSV and XLSX file, concatenates the texts under
"Content from <name>:" headers, trims the result to a word budget and seeds
a two-message chat transcript with it. Each `POST /ask` then appends the
question, sends the whole transcript to a chat-completion service and
appends its answer.

Modules, leaves first:

- `Wrappers` (`wrappers.dfy`): `Option` and `Result`.
- `Text` (`text.dfy`): Python's `str.split()`, `str.split(sep)`, `sep.join`,
  `str.lower()` and `str.endswith()` over `seq<char>`. The whitespace set is
  that of Python's `str.isspace()`. `Words` is characterised by three
  equations: an all-whitespace string has no words, a word splits to itself,
  and a whitespace character separates (`WordsAroundSpace`).
- `Budget` (`budget.dfy`): `estimate_token_count`,
  `trim_text_to_token_limit` and the start-up guard, with the single
  constant 9000.
- `Extractors` (`extractors.dfy`): the PDF page loop and the DOCX paragraph
  join over parser oracles. Also the tabular extractor's encoding fallback
  over a reader oracle, and the suffix dispatch of `process_file`.
- `Corpus` (`corpus.dfy`): the start-up loop over the directory listing,
  both as a function and as the accumulating loop itself. It is stated over
  any per-file processor; the server's is `ProcessFile` over the parsers
  (`Corpus.FileProcessor`).
- `Conversation` (`conversation.dfy`): the seed messages, start-up,
  `ask_question` over a completion oracle, and sessions of several requests.
  Start-up and the seed take the system instruction as a parameter. The
  server passes the fixed `SystemPrompt` (`Conversation.ServerStartup`).

Where the code and its own comments disagree, the model follows the code.
The trim target and the guard both use 9000 (`app.py:47`, `app.py:84`).
The comment at `app.py:46` and the log message at `app.py:86` say 10,000;
the model uses 9000.

Behaviour of the code that the model keeps as written:

- `process_file` lower-cases the path before its suffix tests. The tabular
  extractor then picks the CSV reader with a case-sensitive `.csv` test
  (`app.py:33`). So `X.CSV` reaches the tabular extractor and is read by the
  Excel reader (`Extractors.UpperCaseCsvReadAsExcel`).
- The except clause at `app.py:37` names `UnicodeDecodeError` and
  `ValueError`. The first is a subclass of the second, so every `ValueError`
  moves on to the next encoding. Any other exception leaves the fallback at
  once. It then reaches the corpus loop, which skips the file.
- Whether a PDF page with no text yields `None` or `""` depends on the
  pdfplumber version. Each page is an `Option<string>`, so both are covered.
  A `None` page makes the append raise, so the whole file fails
  (`PageWithoutText`) and is skipped. An empty page adds nothing.
- A failed completion leaves the question in the transcript without an
  answer.
- Without the guard, trimming a text under the limit would still collapse
  its whitespace runs (`Budget.TrimWithoutGuardCollapsesSpaces`). The guard
  is what keeps a small corpus unchanged.

## Model

| member | source | states |
|---|---|---|
| Text.Words | app.py:44 | every token of `str.split()` is non-empty and holds no whitespace |
| Text.WordsEmptyIff | app.py:43-44 | a text has no tokens exactly when it is empty or all whitespace |
| Text.WordsOfWord | app.py:44 | a single whitespace-free non-empty string splits to itself |
| Text.WordsAroundSpace | app.py:44 | a whitespace character separates: the tokens of `a + c + b` are those of `a` followed by those of `b` |
| Text.WordsOfJoin | app.py:48-49 | joining tokens with single spaces and splitting again returns the same tokens |
| Text.JoinOfSplitOn | app.py:26 | joining the newline-split parts of any text with newlines rebuilds the text |
| Text.SplitOnAtSep | app.py:26 | a newline cuts anywhere: the newline-split parts of `a + "\n" + b` are those of `a` followed by those of `b`, even when `a` holds newlines |
| Text.SplitOnOfJoinAll | app.py:26 | newline-splitting a newline-join of at least one part gives every part's own lines, in order |
| Text.Lower | app.py:54-58 | the lower-cased path has the same length, with each ASCII capital replaced by its small letter and every other character kept |
| Text.SplitAllOfFree | app.py:26 | paragraphs free of newlines split back to exactly themselves |
| Text.SplitOnOfJoin | app.py:26 | splitting a newline-join of at least one newline-free part on newlines returns the parts |
| Budget.EstimateTokenCount | app.py:43-44 | the estimate is 0 exactly when the text is empty or all whitespace |
| Budget.TrimToTokenLimit | app.py:47-50 | the trimmed text's tokens are the first `min(n, count)` tokens of the input, so it has exactly that many |
| Budget.TrimIdempotent | app.py:47-50 | trimming twice to the same limit equals trimming once |
| Budget.TrimFixesExactlyNormalized | app.py:47-50 | trimming leaves a text unchanged exactly when it is within the limit and already its words joined by single spaces |
| Budget.ApplyBudget | app.py:83-86 | a corpus of at most 9000 tokens is unchanged; a longer one becomes its first 9000 tokens joined by single spaces; the result never exceeds 9000 tokens |
| Budget.ApplyBudgetIdempotent | app.py:83-86 | budgeting an already budgeted corpus changes nothing |
| Budget.TrimWithoutGuardCollapsesSpaces | app.py:83-85 | `"a  b"` is under the limit and kept by the guard, yet trimming it directly would give `"a b"` |
| Extractors.ReadWithFallback | app.py:29-40 | tries a prefix of the encoding list; all but the last tried raised `ValueError`; a parse returns that table; another error propagates; exhaustion happens exactly when every encoding raised `ValueError` and then all were tried |
| Extractors.FallbackPicksFirstSuccess | app.py:30-34 | when encoding `k` is the first accepted, the result is its table and exactly the encodings up to `k` were tried |
| Extractors.TabularSuccessIff | app.py:30-40 | the fallback succeeds exactly when some encoding parses after only `ValueError` rejections |
| Extractors.ExtractTabular | app.py:29-40 | fails with exhaustion exactly when all six encodings raise `ValueError`; succeeds exactly when one parses first, returning the CSV rendering of that encoding's table |
| Extractors.PdfText | app.py:18-20 | an assembled page text starts with the first page's text |
| Extractors.PdfTextSingle | app.py:18-20 | one page with text gives exactly that text, with no separator added; with the next two lemmas this fixes the text of every document |
| Extractors.PdfTextSomeIff | app.py:18-20 | the page texts assemble exactly when every page has text |
| Extractors.PdfTextAppend | app.py:19-20 | the text of two runs of pages is the first run's text followed by the second's |
| Extractors.ExtractPdf | app.py:16-21 | an open failure propagates; otherwise success exactly when every page has text, the text being the pages' assembled text, and `PageWithoutText` otherwise |
| Extractors.ExtractDocx | app.py:24-26 | fails exactly when the document cannot be read; no paragraphs give the empty text; otherwise the result's lines are the paragraphs' own lines in order, and are the paragraphs themselves when none holds a newline |
| Extractors.SupportedSuffixesExclusive | app.py:54-58 | no string ends with two different supported suffixes, so the order of the suffix tests is irrelevant |
| Extractors.Dispatch | app.py:53-61 | each extractor is chosen exactly when its suffix matches the lower-cased path; none is chosen exactly when the name is unsupported |
| Extractors.ReaderFor | app.py:33-36 | the CSV reader is used exactly when the original path ends with `.csv`, case-sensitively |
| Extractors.UpperCaseCsvReadAsExcel | app.py:33 | `X.CSV` goes to the tabular extractor and then to the Excel reader |
| Extractors.RunExtractor | app.py:54-60 | the PDF, DOCX and tabular extractors return exactly the outcome of `ExtractPdf` on the pages, `ExtractDocx` on the paragraphs and `ExtractTabular` on the path, each specified above |
| Extractors.ProcessFile | app.py:53-61 | returns no text exactly for an unsupported name; a supported file's success always carries text |
| Extractors.ProcessFileRunsDispatched | app.py:53-60 | a supported file succeeds exactly when the extractor its suffix selects succeeds, and then carries that extractor's text |
| Corpus.Contribution | app.py:69-76 | an entry contributes a non-empty text exactly when it is a supported regular file whose extraction gives non-empty text, and then that text is its "Content from" section |
| Corpus.BuildCorpusEmptyIff | app.py:67-80 | the corpus is empty exactly when no entry contributes, which is the fatal start-up case |
| Corpus.BuildCorpusAppend | app.py:67-73 | the corpus of two listings is the corpus of the first followed by that of the second |
| Corpus.SkippedEntryIsInvisible | app.py:69-77 | a directory, unsupported name, failed or empty extraction leaves the corpus as if the entry were not listed |
| Corpus.ContributingEntryInPlace | app.py:67-73 | a contributing entry's section sits between the text of the entries before it and after it |
| Corpus.LoadCorpus | app.py:65-77 | the accumulating loop produces exactly the in-order concatenation of the entries' contributions |
| Conversation.Seed | app.py:89-92 | two messages: the system prompt, then a user message whose middle is the corpus between the fixed intro and outro |
| Conversation.Startup | app.py:79-92 | start-up fails with the "No supported files" message exactly when no entry contributes; otherwise it yields a well-formed two-message transcript embedding the budgeted corpus |
| Conversation.ServerStartup | app.py:79-92 | with the fixed system instruction and `ProcessFile` as processor: fails with the "No supported files" message exactly when no listed file yields text; otherwise two well-formed messages, the first being the system instruction |
| Conversation.StartupCorpusWithinBudget | app.py:83-91 | the embedded corpus has at most 9000 tokens and is the built corpus itself when that is within the limit |
| Conversation.Ask | app.py:94-113 | a missing or empty question gives 400 and no change; otherwise the question is appended and sent; an answer is appended and returned with 200; a service error gives 500 with the question left in place; the transcript only grows and stays well-formed |
| Conversation.Run | app.py:94-113 | over a session the transcript only grows, stays well-formed, and grows by two per answered request and one per failed completion |
| Conversation.TwoAnsweredQuestions | app.py:89-110 | the seed plus two answered questions gives six messages, in call order |

## Left out

- Parsing itself (pdfplumber, python-docx, pandas `read_csv`/`read_excel`, `to_csv(index=False)`) is foreign code. Each is an oracle in `Extractors.Oracles`.
- Whether `read_excel` accepts an `encoding` argument depends on the pandas version. When it does not, the reader oracle answers with a non-`ValueError` error and the file is skipped.
- The completion call (`app.py:103-108`) is a network call. It is an oracle from the transcript sent to an answer or an error. The model name `gpt-4` and `max_tokens=1000` are arguments the model does not observe. A `None` answer content is not modelled: answers are strings.
- Flask routing, JSON parsing and encoding, `load_dotenv`, the API key and `app.run` are left out. The `question` field is `Option<string>`. A non-string JSON value (number, boolean, list, object) is not modelled; Python's truthiness test would reject the falsy ones with 400.
- Filesystem access is left out. The directory is a given sequence of (name, is-regular-file) entries in listing order. The folder path and `os.path.join` are left out: the suffix tests on the joined path agree with those on the bare name.
- `print` logging is left out; the model assumes every print succeeds. A print that raises (stdout unable to encode a file name or error text) would abort start-up at `app.py:74-76` and replace the 500 reply body at `app.py:112`.
- Concurrency on the global transcript is left out. Requests are served one at a time.
- Exceptions outside `Exception` (such as `KeyboardInterrupt`) are not caught by the corpus loop. They are not modelled.
- Text.Lower: lower-cases ASCII letters only. For the suffixes `.pdf`, `.docx`, `.csv` and `.xlsx` this matches Python's `str.lower()`. The only non-ASCII characters that lower-case to ASCII are KELVIN SIGN (to `k`) and U+0130 (to `i` plus a combining dot), and neither letter ends a supported suffix.
- Budget.TrimToTokenLimit: takes a non-negative limit; a negative `max_tokens` slice is never used by the code, which calls it only with the default 9000.
- The streamlit chat front end is UI rendering and an HTTP client; it is not part of this model.
