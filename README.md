# extract_text, modelled in Dafny

The repository is one Python function, `extract_text(file_path)`. It
returns the text of a PDF or image file, or raises an error. The steps are:

- raise `FileNotFoundError` when the path does not exist;
- take the extension with `os.path.splitext` and lower-case it;
- for `.pdf`, open the document with PyMuPDF and walk its pages in order.
  A page whose embedded text is blank (`not page_text.strip()`) is rendered
  to an image and read by Tesseract. Each page text is appended to an
  accumulator followed by `"\n"`, and the stripped accumulator is returned.
  Any exception becomes `RuntimeError("Error reading PDF: ...")`;
- for `.png`, `.jpg`, `.jpeg`, `.tiff`, `.bmp` and `.gif`, read the file as
  grayscale with OpenCV, apply an Otsu binary threshold, convert it for PIL,
  run Tesseract and return the stripped text. Any exception becomes
  `RuntimeError("Error reading image: ...")`;
- otherwise raise `ValueError` carrying the extension.

The project has five modules:

- `Wrappers` (`wrappers.dfy`): the `Option` type.
- `PyText` (`pytext.dfy`): Python's `str.isspace`, `str.strip()` and
  `str.lower()`. Lower-casing covers ASCII letters only.
- `PyPath` (`pypath.dfy`): `os.path.splitext` for POSIX paths.
- `Extractor` (`extractor.dfy`): the function itself.
  - The outcome is a datatype `Outcome`: `Ok(text)`, `NotFound`,
    `Unsupported(ext)`, `PdfError` or `ImageError`.
  - The libraries are the function fields of an `Env` value. `None` stands
    for a call that raised, or for `cv2.imread` returning `None`.
  - The PDF loop is the method `ReadPdf`; the method `ReadPage` is its
    body for one page. They are proved against the
    specification functions `PageText`, `PageTexts`, `Joined` and
    `OcrPages`.
  - The whole call is the method `ExtractText`, proved equal to the
    function `Extract`.

- `ExtractorFacts` (`extractor_facts.dfy`): properties that relate several
  calls or name concrete inputs.

## Model

| member | source | states |
|---|---|---|
| PyText.AsciiSpaces | main.py:29 | on ASCII, the whitespace `strip()` removes is exactly tab, newline, vertical tab, form feed, carriage return, the four information separators and space |
| PyText.Strip | main.py:34 | the result has no whitespace at either end and is no longer than the input |
| PyText.StripSlice | main.py:34 | the result is a slice of the input with only whitespace before it and only whitespace after it |
| PyText.StripUnique | main.py:34 | for blank `pre` and `post` and a trimmed `t`, `strip(pre + t + post)` is `t` |
| PyText.StripCharacterization | main.py:34 | `r` is the strip of `s` if and only if `r` is a trimmed slice of `s` between blank ends |
| PyText.StripIdempotent | main.py:34 | stripping twice gives the same as stripping once |
| PyText.StripTrimmed | main.py:45 | a string with no whitespace at either end is its own strip |
| PyText.StripEmptyIffBlank | main.py:29 | `page_text.strip()` is empty exactly when `page_text` is empty or all whitespace |
| PyText.LowerChar | main.py:20 | one character lower-cased: never an ASCII capital; a capital moves 32 code points down; anything else is kept |
| PyText.LowerAsciiSpec | main.py:20 | `.lower()` keeps the length, leaves no ASCII capital, lowers each capital and keeps every other character |
| PyPath.SplitExt | main.py:20 | root plus extension gives back the path, and a non-empty extension is a '.'-led, dot-free suffix preceded by a non-dot stem character in the last path component |
| PyPath.ExtUnique | main.py:20 | every suffix of that description is exactly the extension `splitext` returns |
| PyPath.NoDotNoExt | main.py:20 | a path with no '.' has the empty extension |
| PyPath.ExtLowerCommutes | main.py:20 | the extension of the lower-cased path is the lower-cased extension |
| Extractor.LoweredExt | main.py:20 | `os.path.splitext(file_path)[-1].lower()` has the length of the extension and is empty or starts with '.' |
| Extractor.Classify | main.py:20-22 | the PDF branch is taken exactly when the lower-cased extension is ".pdf"; the image branch exactly when it is one of the six image extensions (line 38); every other extension is rejected and carried lower-cased (line 49) |
| Extractor.ClassifyCaseInsensitive | main.py:20 | paths equal after lower-casing take the same branch |
| Extractor.NoDotUnsupported | main.py:49-50 | a path without a '.' is rejected with the empty extension |
| Extractor.NeedsOcrIffStripEmpty | main.py:29 | a page goes to OCR exactly when its embedded text was obtained and `page_text.strip()` is empty |
| Extractor.PageText | main.py:27-32 | a failed `get_text` fails the page; non-blank embedded text is kept unchanged; blank embedded text is replaced by the OCR of the rendered page, or fails when rendering or OCR fails |
| Extractor.PageTextsSpec | main.py:26-33 | the page texts exist exactly when every page's text exists, and then they are those texts, in document order |
| Extractor.JoinedShape | main.py:33 | the accumulator `text` after the pages is empty exactly when there are no pages, and otherwise ends in "\n" |
| Extractor.JoinedAppend | main.py:33 | the accumulator of two page lists in sequence is the concatenation of their accumulators |
| Extractor.OcrPagesSpec | main.py:29-32 | a page index is in the OCR log exactly when that page's embedded text is blank; the log is strictly increasing |
| Extractor.OcrPagesPrefix | main.py:29-32 | the OCR log of the first n pages is a prefix of the whole document's log |
| Extractor.PdfStep | main.py:26-33 | reading one more page extends the page texts by that page's text, the accumulator by that text and "\n", and the OCR log by the page's index when it went to OCR |
| Extractor.PdfPageFails | main.py:24-36 | one failing page makes the whole page list fail; the OCR log up to it, with that page's own entry when it reached OCR, is a prefix of the document's log |
| Extractor.ReadPage | main.py:27-32 | the loop body gives exactly `PageText` of the page, and calls OCR exactly when the embedded text is blank and the page renders |
| Extractor.PdfOutcome | main.py:22-36 | the PDF branch succeeds exactly when the document opens and every page text exists, and otherwise gives the PDF error; a success is trimmed |
| Extractor.ReadPdf | main.py:23-36 | the loop computes `PdfOutcome`; its OCR log is empty when the document does not open, a prefix of `OcrPages` when a page fails, and all of `OcrPages` on success |
| Extractor.ImageOutcome | main.py:38-47 | the image branch gives a text or the image error, and a text is trimmed |
| Extractor.Extract | main.py:17-50 | a missing file gives `NotFound`; the rejection happens exactly for the existing files whose extension is neither ".pdf" nor an image extension, and carries the lower-cased extension; a success is trimmed |
| Extractor.ExtractText | main.py:7-50 | the method's result equals `Extract`; no PDF page is logged as sent to OCR outside the PDF branch or when the document does not open; otherwise in the PDF branch the log is a prefix of `OcrPages`, and all of it on success |
| ExtractorFacts.LeadingDotsNoExt | main.py:20 | a name made of leading dots and a dot-free word (".pdf", "..pdf") has no extension |
| ExtractorFacts.DirectoryDotIgnored | main.py:20 | a '.' in a directory name is not an extension when the last component has none |
| ExtractorFacts.ReportIsPdf | main.py:20-22 | "report.pdf" takes the PDF branch |
| ExtractorFacts.UpperCaseIsPdf | main.py:20-22 | "file.pdf" and "FILE.PDF" both take the PDF branch |
| ExtractorFacts.UnsupportedExamples | main.py:49-50 | "data.csv" is rejected with ".csv", and "notes" with the empty extension |
| ExtractorFacts.RejectionsIgnoreCollaborators | main.py:17-18 | a missing file gives `NotFound`; it and an unsupported extension give the same outcome whatever the libraries would return |
| ExtractorFacts.EmptyDocument | main.py:23-34 | a document with no pages gives "" and sends nothing to OCR |
| ExtractorFacts.AllEmbeddedNoOcr | main.py:27-32 | when every page has non-blank embedded text, the page texts are those texts and the OCR log is empty |
| ExtractorFacts.AllEmbeddedDocument | main.py:23-34 | such a document gives the strip of its embedded texts, each followed by "\n", and OCR is never invoked |
| ExtractorFacts.JoinedPair | main.py:33 | two page texts accumulate as `a + "\n" + b + "\n"` |
| ExtractorFacts.StripJoinedPair | main.py:33-34 | two trimmed, non-empty page texts come back as `a + "\n" + b` |
| ExtractorFacts.TwoPageDocument | main.py:23-34 | for trimmed, non-empty texts and a scan whose embedded layer is empty, an embedded page followed by the scanned page gives the embedded text, "\n", and the OCR text |
| ExtractorFacts.TwoPageReport | main.py:23-34 | "report.pdf" with "Q1 Summary" embedded and a scan read as "Q2 Summary" gives "Q1 Summary\nQ2 Summary" |
| ExtractorFacts.TwoPageReportOcr | main.py:29-32 | in that report, only the second page (index 1) goes to OCR |
| ExtractorFacts.OcrExactlyOnce | main.py:29-32 | each page with blank embedded text occurs exactly once in the OCR log, and every other page occurs zero times |
| ExtractorFacts.SuccessIsStripped | main.py:34 | a success from either branch has no whitespace at either end, and stripping it again changes nothing |
| ExtractorFacts.ImagePipelineShape | main.py:41-45 | an image whose four stages all succeed gives `strip(ocr(toPil(threshold(readGray(path)))))` |
| ExtractorFacts.ImageFailureIsError | main.py:39-47 | the image branch gives its error exactly when one of its four stages fails, and otherwise a text |
| ExtractorFacts.PdfPageFailureIsError | main.py:24-36 | one page whose text cannot be obtained makes the PDF branch fail, with no partial text |

## Left out

- The PDF library (`fitz.open`, iterating the document, `get_text`), Tesseract, OpenCV and PIL are left abstract. They are the fields of `Env`: total, deterministic functions that return `None` where the library raises. `cv2.imread` does not raise on an unreadable file but returns `None`, and the `cv2.threshold` call after it then raises; `readGray` returning `None` stands for that. Their internals are foreign code.
- `get_pixmap` followed by `Image.frombytes` is one collaborator, `render`. Either call failing fails the page in the same way.
- `os.path.exists` is I/O and is the parameter `fileExists`.
- Exception message texts are not modelled. Only the error kind is, plus the extension for the unsupported-format error.
- The source never closes the PDF document. No resource handle is modelled.
- Extractor.ClassifyCaseInsensitive: `str.lower()` is modelled on ASCII letters only. Python also lower-cases non-ASCII letters, and a few of those change length (e.g. 'İ'). An extension containing such letters is not covered.
- PyPath.SplitExt: only the POSIX `posixpath` rules are modelled (separator '/'). Windows `ntpath`, with '\\' and drive letters, is not.
- Extractor.ImageOutcome: its own contract states only the shape of the outcome. The exact text and failure conditions are stated by `ExtractorFacts.ImagePipelineShape` and `ExtractorFacts.ImageFailureIsError`.
- The OCR call log of `ReadPdf` and `ExtractText` is ghost instrumentation. It records the page index when OCR is invoked, even if that call then raises. It is not part of the source's output. The image branch's single OCR call is not logged.
- Calling the function twice on an unchanged file gives the same result only because the collaborators are modelled as deterministic functions. No separate statement is made.
- Error kinds: the model follows the code's exceptions. `FileNotFoundError` is `NotFound`, `ValueError` is `Unsupported(ext)`, the PDF branch's `RuntimeError` is `PdfError` and the image branch's is `ImageError`.
