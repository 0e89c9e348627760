/**
  Properties of `extract_text` that relate several calls or name concrete
  inputs: the extension examples, the worked two-page PDF, the OCR count,
  and what every successful result looks like.
 */
module ExtractorFacts {
  import opened Wrappers
  import opened PyText
  import opened PyPath
  import opened Extractor

  // ---------------------------------------------------------------------
  // Extensions

  /** A '/'-free path whose first character is not a dot, ending in a
      dot-free, '/'-free extension. */
  lemma StemWitness(p: string, e: string)
    requires 0 < |e| < |p| && p[|p| - |e|..] == e && e[0] == '.'
    requires forall m :: 0 < m < |e| ==> e[m] != '.' && e[m] != '/'
    requires p[0] != '.' && NoSlash(p)
    ensures SplitExt(p).1 == e
  {
    assert p[0..] == p;
    ExtUnique(p, e);
  }

  /** A last path component made of leading dots and a dot-free word
      (".pdf", "..pdf") has no extension. */
  lemma LeadingDotsNoExt(p: string, k: nat)
    requires 0 < k <= |p| && NoSlash(p)
    requires AllDots(p[..k]) && NoDot(p[k..])
    ensures SplitExt(p).1 == ""
  {
    LastIndexIs(p, '/', -1);
    assert p[k - 1] == p[..k][k - 1];
    forall m | k - 1 < m < |p| ensures p[m] != '.' {
      assert p[m] == p[k..][m - k];
    }
    LastIndexIs(p, '.', k - 1);
    assert p[0 .. k - 1] == p[..k][..k - 1];
  }

  /** A '.' in a directory name is not an extension: only the last path
      component is searched. */
  lemma DirectoryDotIgnored(dir: string, name: string)
    requires NoDot(name) && NoSlash(name)
    ensures SplitExt(dir + "/" + name).1 == ""
  {
    var p := dir + "/" + name;
    var sepIndex := |dir|;
    forall m | sepIndex < m < |p| ensures p[m] != '/' && p[m] != '.' {
      assert p[m] == name[m - sepIndex - 1];
    }
    LastIndexIs(p, '/', sepIndex);
    assert LastIndex(p, '.') <= sepIndex;
  }

  /** A name whose extension lower-cases to ".pdf" takes the PDF branch. */
  lemma PdfByExtension(p: string, e: string)
    requires SplitExt(p).1 == e && LowerAscii(e) == PdfExtension
    ensures Classify(p) == PdfFile
  {
  }

  /** "report.pdf" takes the PDF branch. */
  lemma ReportIsPdf(report: string)
    requires report == "report.pdf"
    ensures Classify(report) == PdfFile
  {
    StemWitness(report, ".pdf");
    PdfByExtension(report, ".pdf");
  }

  /** "FILE.PDF" takes the same branch as "file.pdf": the PDF branch. */
  lemma UpperCaseIsPdf(lower: string, upper: string)
    requires lower == "file.pdf" && upper == "FILE.PDF"
    ensures Classify(lower) == PdfFile && Classify(upper) == PdfFile
  {
    StemWitness(lower, ".pdf");
    PdfByExtension(lower, ".pdf");
    assert LowerAscii(upper) == LowerAscii(lower);
    ClassifyCaseInsensitive(upper, lower);
  }

  /** "data.csv" is rejected with ".csv"; "notes" with the empty extension. */
  lemma UnsupportedExamples<Page, Img>(env: Env<Page, Img>, csv: string, bare: string)
    requires csv == "data.csv" && bare == "notes"
    ensures Extract(env, csv, true) == Unsupported(".csv")
    ensures Extract(env, bare, true) == Unsupported("")
  {
    StemWitness(csv, ".csv");
    assert LowerAscii(".csv") == ".csv";
    NoDotUnsupported(bare);
  }

  /** A missing file is reported before any collaborator is consulted, and
      so is an unsupported extension: the outcome is the same whatever the
      collaborators would have returned. */
  lemma RejectionsIgnoreCollaborators<Page, Img>(env1: Env<Page, Img>, env2: Env<Page, Img>, path: string, fileExists: bool)
    requires !fileExists || Classify(path).OtherFile?
    ensures Extract(env1, path, fileExists) == Extract(env2, path, fileExists)
    ensures !fileExists ==> Extract(env1, path, fileExists) == NotFound
  {
  }

  // ---------------------------------------------------------------------
  // The PDF branch

  /** A document with no pages gives the empty text. */
  lemma EmptyDocument<Page, Img>(env: Env<Page, Img>, path: string)
    requires env.openPdf(path) == Some([])
    ensures PdfOutcome(env, path) == Ok("")
    ensures OcrPages(env, []) == []
  {
    assert Strip("") == "";
  }

  /** When every page carries non-blank embedded text, OCR is never invoked
      and the page texts are the embedded texts, unchanged. */
  lemma {:induction false} AllEmbeddedNoOcr<Page, Img>(env: Env<Page, Img>, pages: seq<Page>, texts: seq<string>)
    requires |texts| == |pages|
    requires forall i :: 0 <= i < |pages| ==> env.pageText(pages[i]) == Some(texts[i]) && !IsBlank(texts[i])
    ensures OcrPages(env, pages) == []
    ensures PageTexts(env, pages) == Some(texts)
  {
    if pages != [] {
      var n := |pages| - 1;
      assert !NeedsOcr(env, pages[n]);
      AllEmbeddedNoOcr(env, pages[..n], texts[..n]);
    }
    assert PageTexts(env, pages).value == texts;
  }

  /** A document whose every page carries non-blank embedded text yields the
      stripped concatenation of those texts, each followed by a newline, and
      nothing goes to OCR. */
  lemma AllEmbeddedDocument<Page, Img>(env: Env<Page, Img>, path: string, texts: seq<string>)
    requires env.openPdf(path).Some? && |texts| == |env.openPdf(path).value|
    requires forall i :: 0 <= i < |texts| ==>
      env.pageText(env.openPdf(path).value[i]) == Some(texts[i]) && !IsBlank(texts[i])
    ensures PdfOutcome(env, path) == Ok(Strip(Joined(texts)))
    ensures OcrPages(env, env.openPdf(path).value) == []
  {
    AllEmbeddedNoOcr(env, env.openPdf(path).value, texts);
  }

  /** Two page texts joined: each followed by its newline. */
  lemma JoinedPair(a: string, b: string)
    ensures Joined([a, b]) == a + "\n" + b + "\n"
  {
    assert [a, b][..1] == [a];
    assert [a][..0] == [];
    assert Joined([a]) == a + "\n";
    assert Joined([a, b]) == Joined([a]) + b + "\n";
  }

  /** Two trimmed, non-empty page texts come back joined by one newline:
      the final newline is the only whitespace `strip()` removes. */
  lemma StripJoinedPair(a: string, b: string)
    requires a != [] && b != [] && IsTrimmed(a) && IsTrimmed(b)
    ensures Strip(Joined([a, b])) == a + "\n" + b
  {
    JoinedPair(a, b);
    var body := a + "\n" + b;
    assert body[0] == a[0] && body[|body| - 1] == b[|b| - 1];
    assert Joined([a, b]) == [] + body + "\n";
    assert IsBlank("\n");
    StripUnique([], body, "\n");
  }

  /** A two-page document whose first page has embedded text and whose
      second page is a scan: the result is the embedded text, a newline, and
      what OCR read from the scan. */
  lemma {:induction false} TwoPageDocument<Page, Img>(env: Env<Page, Img>, path: string, p1: Page, p2: Page, scan: Img, a: string, b: string)
    requires a != [] && b != [] && IsTrimmed(a) && IsTrimmed(b)
    requires Classify(path) == PdfFile
    requires env.openPdf(path) == Some([p1, p2])
    requires env.pageText(p1) == Some(a)
    requires env.pageText(p2) == Some("")
    requires env.render(p2) == Some(scan)
    requires env.ocr(scan) == Some(b)
    ensures Extract(env, path, true) == Ok(a + "\n" + b)
  {
    assert !IsBlank(a) by { assert !IsSpace(a[0]); }
    var pages := [p1, p2];
    assert PageText(env, pages[0]) == Some(a);
    assert PageText(env, pages[1]) == Some(b);
    PageTextsSpec(env, pages);
    var r := PageTexts(env, pages);
    assert r.Some? && |r.value| == 2;
    assert r.value == [a, b];
    StripJoinedPair(a, b);
  }

  /** The worked example: "report.pdf" whose first page reads "Q1 Summary"
      and whose second page is a scan that OCR reads as "Q2 Summary". */
  lemma TwoPageReport<Page, Img>(env: Env<Page, Img>, path: string, p1: Page, p2: Page, scan: Img)
    requires path == "report.pdf"
    requires env.openPdf(path) == Some([p1, p2])
    requires env.pageText(p1) == Some("Q1 Summary")
    requires env.pageText(p2) == Some("")
    requires env.render(p2) == Some(scan)
    requires env.ocr(scan) == Some("Q2 Summary")
    ensures Extract(env, path, true) == Ok("Q1 Summary\nQ2 Summary")
  {
    ReportIsPdf(path);
    var q1, q2 := "Q1 Summary", "Q2 Summary";
    assert IsTrimmed(q1) && IsTrimmed(q2);
    assert q1 + "\n" + q2 == "Q1 Summary\nQ2 Summary";
    TwoPageDocument(env, path, p1, p2, scan, q1, q2);
  }

  /** In the two-page report only the scanned page goes to OCR. */
  lemma TwoPageReportOcr<Page, Img>(env: Env<Page, Img>, p1: Page, p2: Page)
    requires env.pageText(p1) == Some("Q1 Summary")
    requires env.pageText(p2) == Some("")
    ensures OcrPages(env, [p1, p2]) == [1]
  {
    assert !IsBlank("Q1 Summary") by { assert !IsSpace("Q1 Summary"[0]); }
    assert [p1, p2][..1] == [p1];
    assert [p1][..0] == [];
    assert OcrPages(env, [p1]) == [];
  }

  /** In a strictly increasing sequence a member occurs exactly once. */
  lemma {:induction false} IncreasingOccursOnce(r: seq<nat>, k: nat)
    requires forall a, b :: 0 <= a < b < |r| ==> r[a] < r[b]
    requires k in r
    ensures multiset(r)[k] == 1
  {
    var n := |r| - 1;
    var init := r[..n];
    assert r == init + [r[n]];
    if r[n] == k {
      assert k !in init by {
        forall a | 0 <= a < n ensures init[a] != k { assert r[a] < r[n]; }
      }
    } else {
      IncreasingOccursOnce(init, k);
    }
  }

  /** Every page whose embedded text is blank is sent to OCR exactly once,
      and no other page is. */
  lemma OcrExactlyOnce<Page, Img>(env: Env<Page, Img>, pages: seq<Page>, k: nat)
    requires k < |pages|
    ensures NeedsOcr(env, pages[k]) ==> multiset(OcrPages(env, pages))[k] == 1
    ensures !NeedsOcr(env, pages[k]) ==> multiset(OcrPages(env, pages))[k] == 0
  {
    OcrPagesSpec(env, pages);
    var r := OcrPages(env, pages);
    if NeedsOcr(env, pages[k]) {
      IncreasingOccursOnce(r, k);
    }
  }

  // ---------------------------------------------------------------------
  // Every success

  /** A successful text, from either branch, has no whitespace at either end,
      and stripping it again changes nothing. */
  lemma SuccessIsStripped<Page, Img>(env: Env<Page, Img>, path: string, fileExists: bool)
    requires Extract(env, path, fileExists).Ok?
    ensures IsTrimmed(Extract(env, path, fileExists).text)
    ensures Strip(Extract(env, path, fileExists).text) == Extract(env, path, fileExists).text
  {
    StripTrimmed(Extract(env, path, fileExists).text);
  }

  /** The image branch's text is exactly `strip()` of the OCR of the
      thresholded grayscale image. */
  lemma ImagePipelineShape<Page, Img>(env: Env<Page, Img>, path: string, gray: Img, binary: Img, img: Img, t: string)
    requires Classify(path) == ImageFile
    requires env.readGray(path) == Some(gray) && env.threshold(gray) == Some(binary)
    requires env.toPil(binary) == Some(img) && env.ocr(img) == Some(t)
    ensures Extract(env, path, true) == Ok(Strip(t))
  {
  }

  /** The image branch fails exactly when one of its four stages fails, and
      then it yields the image branch's error and no text. */
  lemma ImageFailureIsError<Page, Img>(env: Env<Page, Img>, path: string)
    requires Classify(path) == ImageFile
    ensures Extract(env, path, true) == ImageError <==>
      env.readGray(path).None?
      || env.threshold(env.readGray(path).value).None?
      || env.toPil(env.threshold(env.readGray(path).value).value).None?
      || env.ocr(env.toPil(env.threshold(env.readGray(path).value).value).value).None?
    ensures Extract(env, path, true).Ok? || Extract(env, path, true) == ImageError
  {
  }

  /** A page that cannot be read, rendered or recognised makes the whole
      PDF branch fail, with no partial text. */
  lemma {:induction false} PdfPageFailureIsError<Page, Img>(env: Env<Page, Img>, path: string, k: nat)
    requires env.openPdf(path).Some? && k < |env.openPdf(path).value|
    requires PageText(env, env.openPdf(path).value[k]).None?
    ensures PdfOutcome(env, path) == PdfError
  {
    PageTextsSpec(env, env.openPdf(path).value);
  }
}
