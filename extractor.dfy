/**
  `extract_text(file_path)`: check that the file exists, classify it by its
  lower-cased extension, then either fold over the PDF's pages (embedded text,
  or OCR of the rendered page when the embedded text is blank) or run the
  image pipeline (grayscale read, Otsu threshold, OCR). The PDF library, the
  OCR engine and the image library are the fields of `Env`.
 */
module Extractor {
  import opened Wrappers
  import opened PyText
  import opened PyPath

  /** What one call ends in: the text, or the exception it raises
      (`FileNotFoundError`, `ValueError` with the extension, or the
      `RuntimeError` of the PDF or of the image branch). */
  datatype Outcome =
    | Ok(text: string)
    | NotFound
    | Unsupported(ext: string)
    | PdfError
    | ImageError

  /** The collaborators, each total and deterministic; `None` is a raised
      exception. `Page` and `Img` are the libraries' own page and image
      objects, left abstract. */
  datatype Env<!Page, !Img> = Env(
    openPdf: string -> Option<seq<Page>>,  // fitz.open(path), then iterating the document
    pageText: Page -> Option<string>,      // page.get_text("text")
    render: Page -> Option<Img>,           // page.get_pixmap(), then Image.frombytes("RGB", ...)
    ocr: Img -> Option<string>,            // pytesseract.image_to_string(img)
    readGray: string -> Option<Img>,       // cv2.imread(path, cv2.IMREAD_GRAYSCALE)
    threshold: Img -> Option<Img>,         // cv2.threshold(img, 0, 255, THRESH_BINARY + THRESH_OTSU)[1]
    toPil: Img -> Option<Img>)             // Image.fromarray(img)

  // ---------------------------------------------------------------------
  // Classification by extension

  const PdfExtension: string := ".pdf"
  const ImageExtensions: seq<string> := [".png", ".jpg", ".jpeg", ".tiff", ".bmp", ".gif"]

  /** The three ways the dispatch can go. */
  datatype Kind = PdfFile | ImageFile | OtherFile(ext: string)

  /** The lower-cased extension the source compares:
      `os.path.splitext(file_path)[-1].lower()`. */
  function LoweredExt(path: string): (r: string)
    ensures |r| == |SplitExt(path).1|
    ensures r == [] || r[0] == '.'
  {
    LowerAscii(SplitExt(path).1)
  }

  /** Which branch a path takes. An unrecognised extension, the empty one
      included, is carried lower-cased. */
  function Classify(path: string): (k: Kind)
    ensures k == PdfFile <==> LoweredExt(path) == PdfExtension
    ensures k == ImageFile <==> LoweredExt(path) in ImageExtensions
    ensures k.OtherFile? <==> LoweredExt(path) != PdfExtension && LoweredExt(path) !in ImageExtensions
    ensures k.OtherFile? ==> k.ext == LoweredExt(path)
  {
    var ext := LoweredExt(path);
    if ext == PdfExtension then PdfFile
    else if ext in ImageExtensions then ImageFile
    else OtherFile(ext)
  }

  /** Paths that differ only in the case of ASCII letters take the same
      branch, e.g. "FILE.PDF" and "file.pdf". */
  lemma {:induction false} ClassifyCaseInsensitive(p: string, q: string)
    requires LowerAscii(p) == LowerAscii(q)
    ensures Classify(p) == Classify(q)
  {
    ExtLowerCommutes(p);
    ExtLowerCommutes(q);
    LowerIdempotent(SplitExt(p).1);
    LowerIdempotent(SplitExt(q).1);
  }

  /** A path with no '.' at all is rejected with the empty extension. */
  lemma NoDotUnsupported(path: string)
    requires forall i :: 0 <= i < |path| ==> path[i] != '.'
    ensures Classify(path) == OtherFile("")
  {
    NoDotNoExt(path);
  }

  // ---------------------------------------------------------------------
  // The PDF branch, as pure specification functions

  /** The page's embedded text is there but blank, so the page goes to OCR. */
  ghost predicate NeedsOcr<Page, Img>(env: Env<Page, Img>, page: Page) {
    env.pageText(page).Some? && IsBlank(env.pageText(page).value)
  }

  /** `NeedsOcr` is the source's test `not page_text.strip()` on a page whose
      embedded text was obtained. */
  lemma NeedsOcrIffStripEmpty<Page, Img>(env: Env<Page, Img>, page: Page)
    ensures NeedsOcr(env, page) <==> env.pageText(page).Some? && Strip(env.pageText(page).value) == []
  {
    if env.pageText(page).Some? {
      StripEmptyIffBlank(env.pageText(page).value);
    }
  }

  /** The text one page contributes: its embedded text when that has a
      non-whitespace character, otherwise the OCR of the rendered page. */
  function PageText<Page, Img>(env: Env<Page, Img>, page: Page): (r: Option<string>)
    ensures env.pageText(page).None? ==> r.None?
    ensures env.pageText(page).Some? && !IsBlank(env.pageText(page).value) ==> r == env.pageText(page)
    ensures NeedsOcr(env, page) ==>
      r == (if env.render(page).None? then None else env.ocr(env.render(page).value))
  {
    match env.pageText(page)
    case None => None
    case Some(embedded) =>
      if !IsBlank(embedded) then Some(embedded)
      else
        match env.render(page)
        case None => None
        case Some(img) => env.ocr(img)
  }

  /** The page texts in document order, or `None` as soon as one page fails. */
  function PageTexts<Page, Img>(env: Env<Page, Img>, pages: seq<Page>): (r: Option<seq<string>>)
    ensures r.Some? ==> |r.value| == |pages|
  {
    if pages == [] then Some([])
    else
      match PageTexts(env, pages[..|pages| - 1])
      case None => None
      case Some(texts) =>
        match PageText(env, pages[|pages| - 1])
        case None => None
        case Some(t) => Some(texts + [t])
  }

  /** The page texts exist exactly when every page's text does, and they are
      then those texts, in document order. */
  lemma {:induction false} PageTextsSpec<Page, Img>(env: Env<Page, Img>, pages: seq<Page>)
    ensures PageTexts(env, pages).Some? <==> forall i :: 0 <= i < |pages| ==> PageText(env, pages[i]).Some?
    ensures PageTexts(env, pages).Some? ==>
      forall i :: 0 <= i < |pages| ==> PageTexts(env, pages).value[i] == PageText(env, pages[i]).value
  {
    if pages != [] {
      var init := pages[..|pages| - 1];
      assert forall i :: 0 <= i < |init| ==> init[i] == pages[i];
      PageTextsSpec(env, init);
    }
  }

  /** The accumulator after the loop: every page text followed by "\n". */
  function Joined(texts: seq<string>): string {
    if texts == [] then [] else Joined(texts[..|texts| - 1]) + texts[|texts| - 1] + "\n"
  }

  /** The accumulator is empty exactly when there are no pages, and otherwise
      ends in the newline appended after the last page. */
  lemma JoinedShape(texts: seq<string>)
    ensures Joined(texts) == [] <==> texts == []
    ensures texts != [] ==> Joined(texts)[|Joined(texts)| - 1] == '\n'
  {
  }

  /** Joining distributes over concatenation of page lists. */
  lemma {:induction false} JoinedAppend(a: seq<string>, b: seq<string>)
    ensures Joined(a + b) == Joined(a) + Joined(b)
    decreases |b|
  {
    if b == [] {
      assert a + b == a;
    } else {
      var b' := b[..|b| - 1];
      assert (a + b)[..|a + b| - 1] == a + b';
      JoinedAppend(a, b');
      assert Joined(b) == Joined(b') + b[|b| - 1] + "\n";
      assert Joined(a + b) == Joined(a + b') + b[|b| - 1] + "\n";
    }
  }

  /** The indices of the pages sent to OCR, in document order. */
  ghost function OcrPages<Page, Img>(env: Env<Page, Img>, pages: seq<Page>): seq<nat> {
    if pages == [] then []
    else
      var n := |pages| - 1;
      OcrPages(env, pages[..n]) + (if NeedsOcr(env, pages[n]) then [n] else [])
  }

  /** A page index is in the OCR log exactly when that page needs OCR, and
      the log is strictly increasing. */
  lemma {:induction false} OcrPagesSpec<Page, Img>(env: Env<Page, Img>, pages: seq<Page>)
    ensures forall k: nat :: k in OcrPages(env, pages) <==> k < |pages| && NeedsOcr(env, pages[k])
    ensures forall a, b :: 0 <= a < b < |OcrPages(env, pages)| ==> OcrPages(env, pages)[a] < OcrPages(env, pages)[b]
  {
    if pages != [] {
      var n := |pages| - 1;
      var init := pages[..n];
      assert forall i :: 0 <= i < n ==> init[i] == pages[i];
      OcrPagesSpec(env, init);
      var before := OcrPages(env, init);
      forall a | 0 <= a < |before| ensures before[a] < n {
        var k: nat := before[a];
        assert k in before;
      }
    }
  }

  /** The OCR log of a page prefix is a prefix of the whole document's. */
  lemma {:induction false} OcrPagesPrefix<Page, Img>(env: Env<Page, Img>, pages: seq<Page>, n: nat)
    requires n <= |pages|
    ensures OcrPages(env, pages[..n]) <= OcrPages(env, pages)
    decreases |pages| - n
  {
    if n < |pages| {
      OcrPagesPrefix(env, pages, n + 1);
      assert pages[..n + 1][..n] == pages[..n];
    } else {
      assert pages[..n] == pages;
    }
  }

  /** The outcome of the PDF branch: all-or-nothing, `strip()` of the joined
      page texts. */
  function PdfOutcome<Page, Img>(env: Env<Page, Img>, path: string): (r: Outcome)
    ensures r.Ok? || r == PdfError
    ensures r.Ok? <==> env.openPdf(path).Some? && PageTexts(env, env.openPdf(path).value).Some?
    ensures r.Ok? ==> IsTrimmed(r.text)
  {
    match env.openPdf(path)
    case None => PdfError
    case Some(pages) =>
      match PageTexts(env, pages)
      case None => PdfError
      case Some(texts) => Ok(Strip(Joined(texts)))
  }

  /** One more page read: the page texts, the accumulator and the OCR log
      each grow by that page's contribution. */
  lemma PdfStep<Page, Img>(env: Env<Page, Img>, pages: seq<Page>, i: nat, t: string)
    requires i < |pages| && PageTexts(env, pages[..i]).Some?
    requires PageText(env, pages[i]) == Some(t)
    ensures PageTexts(env, pages[..i + 1]) == Some(PageTexts(env, pages[..i]).value + [t])
    ensures Joined(PageTexts(env, pages[..i + 1]).value) == Joined(PageTexts(env, pages[..i]).value) + t + "\n"
    ensures OcrPages(env, pages[..i + 1]) == OcrPages(env, pages[..i]) + (if NeedsOcr(env, pages[i]) then [i] else [])
  {
    var prefix := pages[..i + 1];
    assert prefix[..i] == pages[..i];
    assert prefix[i] == pages[i];
    var texts := PageTexts(env, pages[..i]).value + [t];
    assert texts[..|texts| - 1] == PageTexts(env, pages[..i]).value;
  }

  /** A page that fails makes the whole document fail, and the OCR log so far,
      with that page's entry when it went to OCR, is a prefix of the
      document's. */
  lemma PdfPageFails<Page, Img>(env: Env<Page, Img>, pages: seq<Page>, i: nat, log: seq<nat>, ocred: bool)
    requires i < |pages| && PageText(env, pages[i]).None?
    requires ocred ==> NeedsOcr(env, pages[i])
    requires log == OcrPages(env, pages[..i]) + (if ocred then [i] else [])
    ensures PageTexts(env, pages).None?
    ensures log <= OcrPages(env, pages)
  {
    OcrPagesPrefix(env, pages, i);
    OcrPagesPrefix(env, pages, i + 1);
    PageTextsSpec(env, pages);
    var prefix := pages[..i + 1];
    assert prefix[..i] == pages[..i];
    assert OcrPages(env, prefix) == OcrPages(env, pages[..i]) + (if NeedsOcr(env, pages[i]) then [i] else []);
  }

  // ---------------------------------------------------------------------
  // The PDF branch as the source runs it

  /** The body of the `for page in doc` loop: the embedded text, and when
      `strip()` leaves nothing of it, the OCR of the rendered page. `ocred`
      tells whether the OCR engine was called. */
  method ReadPage<Page, Img>(env: Env<Page, Img>, page: Page) returns (pageText: Option<string>, ghost ocred: bool)
    ensures pageText == PageText(env, page)
    ensures ocred <==> NeedsOcr(env, page) && env.render(page).Some?
  {
    ocred := false;
    var embedded := env.pageText(page);
    if embedded.None? {
      return None, ocred;
    }
    var text := embedded.value;
    StripEmptyIffBlank(text);
    if Strip(text) == [] {
      var img := env.render(page);
      if img.None? {
        return None, ocred;
      }
      ocred := true;
      var recognized := env.ocr(img.value);
      if recognized.None? {
        return None, ocred;
      }
      text := recognized.value;
    }
    pageText := Some(text);
  }

  /** The `for page in doc` loop: the accumulator grows by `page_text + "\n"`
      per page, blank embedded text is replaced by OCR, and the result is the
      stripped accumulator. `ocrLog` records the index of every page whose
      image went to OCR. */
  method ReadPdf<Page, Img>(env: Env<Page, Img>, path: string) returns (r: Outcome, ghost ocrLog: seq<nat>)
    ensures r == PdfOutcome(env, path)
    ensures env.openPdf(path).None? ==> ocrLog == []
    ensures env.openPdf(path).Some? ==> ocrLog <= OcrPages(env, env.openPdf(path).value)
    ensures r.Ok? ==> ocrLog == OcrPages(env, env.openPdf(path).value)
  {
    ocrLog := [];
    var doc := env.openPdf(path);
    if doc.None? {
      return PdfError, ocrLog;
    }
    var pages := doc.value;
    var text := "";
    var i := 0;
    while i < |pages|
      invariant 0 <= i <= |pages|
      invariant PageTexts(env, pages[..i]).Some?
      invariant text == Joined(PageTexts(env, pages[..i]).value)
      invariant ocrLog == OcrPages(env, pages[..i])
    {
      var pageText, ocred := ReadPage(env, pages[i]);
      if ocred {
        ocrLog := ocrLog + [i];
      }
      if pageText.None? {
        PdfPageFails(env, pages, i, ocrLog, ocred);
        return PdfError, ocrLog;
      }
      PdfStep(env, pages, i, pageText.value);
      text := text + pageText.value + "\n";
      i := i + 1;
    }
    assert pages[..i] == pages;
    r := Ok(Strip(text));
  }

  // ---------------------------------------------------------------------
  // The image branch

  /** Grayscale read, Otsu threshold, conversion for the OCR engine, OCR,
      `strip()`; any failing stage is the image branch's `RuntimeError`. */
  function ImageOutcome<Page, Img>(env: Env<Page, Img>, path: string): (r: Outcome)
    ensures r.Ok? || r == ImageError
    ensures r.Ok? ==> IsTrimmed(r.text)
  {
    match env.readGray(path)
    case None => ImageError
    case Some(gray) =>
      match env.threshold(gray)
      case None => ImageError
      case Some(binary) =>
        match env.toPil(binary)
        case None => ImageError
        case Some(img) =>
          match env.ocr(img)
          case None => ImageError
          case Some(t) => Ok(Strip(t))
  }

  // ---------------------------------------------------------------------
  // The whole call

  /** `extract_text(file_path)`, with the existence check as `fileExists`. */
  function Extract<Page, Img>(env: Env<Page, Img>, path: string, fileExists: bool): (r: Outcome)
    ensures !fileExists ==> r == NotFound
    ensures r.Unsupported? <==> fileExists && Classify(path).OtherFile?
    ensures r.Unsupported? ==> r.ext == LoweredExt(path)
    ensures r.Ok? ==> IsTrimmed(r.text)
  {
    if !fileExists then NotFound
    else
      match Classify(path)
      case PdfFile => PdfOutcome(env, path)
      case ImageFile => ImageOutcome(env, path)
      case OtherFile(ext) => Unsupported(ext)
  }

  /** The source's control flow: existence check, extension, three-way
      dispatch. */
  method ExtractText<Page, Img>(env: Env<Page, Img>, path: string, fileExists: bool)
    returns (r: Outcome, ghost ocrLog: seq<nat>)
    ensures r == Extract(env, path, fileExists)
    ensures !fileExists || Classify(path) != PdfFile ==> ocrLog == []
    ensures r.Ok? && Classify(path) == PdfFile ==> ocrLog == OcrPages(env, env.openPdf(path).value)
    ensures fileExists && Classify(path) == PdfFile && env.openPdf(path).None? ==> ocrLog == []
    ensures fileExists && Classify(path) == PdfFile && env.openPdf(path).Some? ==>
      ocrLog <= OcrPages(env, env.openPdf(path).value)
  {
    ocrLog := [];
    if !fileExists {
      return NotFound, ocrLog;
    }
    var ext := LowerAscii(SplitExt(path).1);
    if ext == PdfExtension {
      r, ocrLog := ReadPdf(env, path);
    } else if ext in ImageExtensions {
      r := ImageOutcome(env, path);
    } else {
      r := Unsupported(ext);
    }
  }
}
