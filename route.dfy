/** The decision logic of the POST /extract-text handler,
    extract_text_route: validate the language code and the upload, extract
    text by PDF parsing or OCR, clean it, and translate it.

    The libraries the handler calls are parameters: `sanitize` stands for
    werkzeug's secure_filename, `Extractors.pdfPages` for the texts
    PyPDF2's page.extract_text() returns for the saved file,
    `Extractors.ocr` for pytesseract.image_to_string on the saved image
    given a language hint, and `translator` for the translation model. */
module ExtractRoute {
  import opened Whitespace
  import opened Cleaning
  import opened Segmentation
  import opened Translation

  datatype Option<T> = None | Some(value: T) {
    function GetOr(default: T): T {
      match this
      case Some(v) => v
      case None => default
    }
  }

  /** The uploaded file part, as far as the handler looks at it. */
  datatype Upload = Upload(filename: string)

  /** The two form fields the handler reads: `source_lang` and the `file`
      part, either of which may be absent. */
  datatype Request = Request(sourceLang: Option<string>, file: Option<Upload>)

  /** What the library calls yield for the saved file. */
  datatype Extractors = Extractors(pdfPages: seq<string>, ocr: string -> string)

  /** The JSON body of the reply: {"error": ...} with status 400, or the
      triple {"source_lang", "extracted_text", "translated_text"} with
      status 200. */
  datatype Response =
    | Rejected(error: string)
    | Translated(sourceLang: string, extractedText: string, translatedText: string)

  const UnsupportedLanguage: string := "Unsupported source_lang. Use 'ne', 'nep', 'si', or 'sin'."
  const NoFileUploaded: string := "No file uploaded"
  const EmptyFilename: string := "Empty filename"
  const NoTextDetected: string := "No text detected"

  /** The HTTP status that goes with a response. */
  function Status(r: Response): int {
    if r.Rejected? then 400 else 200
  }

  /** str.lower() on ASCII letters; other characters are kept. */
  function LowerChar(c: char): char {
    if 'A' <= c <= 'Z' then (c as int + 32) as char else c
  }

  function Lower(s: string): (r: string)
    ensures |r| == |s|
  {
    seq(|s|, i requires 0 <= i < |s| => LowerChar(s[i]))
  }

  /** The allow-list ["ne", "nep", "si", "sin"]. */
  predicate IsSupported(lang: string) {
    IsNepaliCode(lang) || IsSinhalaCode(lang)
  }

  /** str.endswith(suffix) */
  predicate EndsWith(s: string, suffix: string) {
    |suffix| <= |s| && s[|s| - |suffix|..] == suffix
  }

  /** The Tesseract language for an image: Nepali for ne/nep, Sinhala for
      everything else that got this far. */
  function OcrHint(lang: string): string {
    if IsNepaliCode(lang) then "nep" else "sin"
  }

  /** What one page adds: its text and a newline, or nothing when the page
      yields no text. */
  function PageLine(page: string): string {
    if page != [] then page + "\n" else []
  }

  /** The text of the PDF branch: the pages' lines in page order. */
  function PagesText(pages: seq<string>): string {
    if pages == [] then []
    else PagesText(pages[..|pages| - 1]) + PageLine(pages[|pages| - 1])
  }

  /** The raw text of the uploaded file: the PDF pages when the sanitised
      name ends in ".pdf" (in any case), OCR otherwise. */
  function RawText(filename: string, lang: string, ex: Extractors): string {
    if EndsWith(Lower(filename), ".pdf") then PagesText(ex.pdfPages)
    else ex.ocr(OcrHint(lang))
  }

  /** The language code after defaulting and lowercasing. */
  function SourceLang(req: Request): string {
    Lower(req.sourceLang.GetOr("ne"))
  }

  /** extract_text_route as a decision over its inputs. */
  function ExtractTextRoute(req: Request, sanitize: string -> string, ex: Extractors,
                            translator: string -> string): Response
  {
    var lang := SourceLang(req);
    if !IsSupported(lang) then Rejected(UnsupportedLanguage)
    else if req.file.None? then Rejected(NoFileUploaded)
    else if req.file.value.filename == [] then Rejected(EmptyFilename)
    else Reply(lang, CleanText(RawText(sanitize(req.file.value.filename), lang, ex)), translator)
  }

  /** The reply once the text is extracted and cleaned: "No text detected"
      for "", otherwise the code, the text and its translation. */
  function Reply(lang: string, text: string, translator: string -> string): Response {
    if text == [] then Rejected(NoTextDetected)
    else Translated(lang, text, TranslateText(text, lang, translator))
  }

  // ---------------------------------------------------------------------
  // The handler, step by step

  /** The PDF loop: for each page, append its text and a newline when it
      has any. */
  method ExtractPdfText(pages: seq<string>) returns (text: string)
    ensures text == PagesText(pages)
  {
    text := [];
    for i := 0 to |pages|
      invariant text == PagesText(pages[..i])
    {
      var pageText := pages[i];
      if pageText != [] {
        text := text + pageText + "\n";
      }
      assert pages[..i + 1][..i] == pages[..i];
    }
    assert pages[..|pages|] == pages;
  }

  /** extract_text_route with its early returns, in the handler's order. */
  method HandleExtractText(req: Request, sanitize: string -> string, ex: Extractors,
                           translator: string -> string) returns (resp: Response)
    ensures resp == ExtractTextRoute(req, sanitize, ex, translator)
  {
    var sourceLang := Lower(req.sourceLang.GetOr("ne"));
    if !IsSupported(sourceLang) {
      return Rejected(UnsupportedLanguage);
    }
    if req.file.None? {
      return Rejected(NoFileUploaded);
    }
    var file := req.file.value;
    if file.filename == [] {
      return Rejected(EmptyFilename);
    }
    var filename := sanitize(file.filename);
    var extractedText := [];
    if EndsWith(Lower(filename), ".pdf") {
      extractedText := ExtractPdfText(ex.pdfPages);
    } else {
      var ocrLang := OcrHint(sourceLang);
      extractedText := ex.ocr(ocrLang);
    }
    extractedText := CleanText(extractedText);
    if extractedText == [] {
      return Rejected(NoTextDetected);
    }
    var translatedText := TranslateText(extractedText, sourceLang, translator);
    return Translated(sourceLang, extractedText, translatedText);
  }

  // ---------------------------------------------------------------------
  // Properties of the page concatenation

  /** One more page adds its line at the end. */
  lemma PagesTextSnoc(init: seq<string>, last: string)
    ensures PagesText(init + [last]) == PagesText(init) + PageLine(last)
  {
    var p := init + [last];
    assert p[..|p| - 1] == init;
    assert p[|p| - 1] == last;
  }

  /** The text of two page lists read one after the other. */
  lemma {:induction false} PagesTextAppend(a: seq<string>, b: seq<string>)
    ensures PagesText(a + b) == PagesText(a) + PagesText(b)
    decreases |b|
  {
    if b == [] {
      assert a + b == a;
    } else {
      var b' := b[..|b| - 1];
      var last := b[|b| - 1];
      PagesTextAppend(a, b');
      assert b == b' + [last];
      assert a + b == (a + b') + [last];
      PagesTextSnoc(a + b', last);
      PagesTextSnoc(b', last);
      AppendAssoc(PagesText(a), PagesText(b'), PageLine(last));
      calc {
        PagesText(a + b);
        PagesText(a + b') + PageLine(last);
        PagesText(a) + PagesText(b') + PageLine(last);
        PagesText(a) + (PagesText(b') + PageLine(last));
        PagesText(a) + PagesText(b);
      }
    }
  }

  /** Pages contribute in reading order: the first page's line comes first. */
  lemma PagesTextCons(page: string, rest: seq<string>)
    ensures PagesText([page] + rest) == PageLine(page) + PagesText(rest)
  {
    PagesTextAppend([page], rest);
    assert [page][..0] == [];
    assert PagesText([page]) == PageLine(page);
  }

  /** The PDF text is empty exactly when every page yields no text. */
  lemma {:induction false} PagesTextEmpty(pages: seq<string>)
    ensures PagesText(pages) == [] <==> forall i :: 0 <= i < |pages| ==> pages[i] == []
  {
    if pages != [] {
      var init := pages[..|pages| - 1];
      PagesTextEmpty(init);
      assert forall i :: 0 <= i < |init| ==> init[i] == pages[i];
    }
  }

  /** The pages' texts put end to end with nothing between them. */
  function Concat(pages: seq<string>): string {
    if pages == [] then []
    else Concat(pages[..|pages| - 1]) + pages[|pages| - 1]
  }

  /** The newline the loop appends after each page is a control character,
      so clean_text deletes it: the cleaned PDF text is the cleaned
      concatenation of the pages, with no separator at page boundaries. */
  lemma {:induction false} StripControlPagesText(pages: seq<string>)
    ensures StripControl(PagesText(pages)) == StripControl(Concat(pages))
  {
    if pages != [] {
      var init := pages[..|pages| - 1];
      var last := pages[|pages| - 1];
      StripControlPagesText(init);
      StripControlAppend(PagesText(init), PageLine(last));
      StripControlAppend(Concat(init), last);
      if last != [] {
        StripControlAppend(last, "\n");
        assert StripControl("\n") == [];
        assert StripControl(last) + [] == StripControl(last);
      }
    }
  }

  lemma CleanPagesText(pages: seq<string>)
    ensures CleanText(PagesText(pages)) == CleanText(Concat(pages))
  {
    StripControlPagesText(pages);
  }

  /** Pages "ab" and "cd" give the extracted text "abcd". */
  lemma TwoPagesGlued()
    ensures CleanText(PagesText(["ab", "cd"])) == "abcd"
  {
    CleanPagesText(["ab", "cd"]);
    var pages := ["ab", "cd"];
    assert pages[..1][..0] == [];
    assert Concat(pages[..1]) == "ab";
    assert Concat(pages) == "abcd";
    CleanAbcd();
  }

  lemma CleanAbcd()
    ensures CleanText("abcd") == "abcd"
  {
    StripControlNoop("abcd");
    NormalizedFixpoint("abcd");
  }

  // ---------------------------------------------------------------------
  // Validation

  lemma LowerIdempotent(s: string)
    ensures Lower(Lower(s)) == Lower(s)
  {
  }

  /** The language check comes first: a code outside the allow-list is
      rejected whatever the upload, the file and the libraries would do,
      and only such a code gets that error. */
  lemma RouteRejectsLanguageFirst(req: Request, sanitize: string -> string, ex: Extractors,
                                  translator: string -> string)
    ensures ExtractTextRoute(req, sanitize, ex, translator) == Rejected(UnsupportedLanguage)
            <==> !IsSupported(SourceLang(req))
  {
  }

  /** A missing source_lang is treated as "ne". */
  lemma RouteDefaultsToNepali(file: Option<Upload>, sanitize: string -> string, ex: Extractors,
                              translator: string -> string)
    ensures ExtractTextRoute(Request(None, file), sanitize, ex, translator)
         == ExtractTextRoute(Request(Some("ne"), file), sanitize, ex, translator)
  {
    assert Lower("ne") == "ne";
  }

  /** The language code is case-insensitive. */
  lemma RouteIgnoresCase(lang: string, file: Option<Upload>, sanitize: string -> string,
                         ex: Extractors, translator: string -> string)
    ensures ExtractTextRoute(Request(Some(lang), file), sanitize, ex, translator)
         == ExtractTextRoute(Request(Some(Lower(lang)), file), sanitize, ex, translator)
  {
    LowerIdempotent(lang);
  }

  /** With an accepted code, a missing file part gives "No file uploaded",
      then an empty filename gives "Empty filename", before any extraction. */
  lemma RouteUploadChecks(req: Request, sanitize: string -> string, ex: Extractors,
                          translator: string -> string)
    requires IsSupported(SourceLang(req))
    ensures req.file.None? ==>
              ExtractTextRoute(req, sanitize, ex, translator) == Rejected(NoFileUploaded)
    ensures req.file.Some? && req.file.value.filename == [] ==>
              ExtractTextRoute(req, sanitize, ex, translator) == Rejected(EmptyFilename)
    ensures ExtractTextRoute(req, sanitize, ex, translator) == Rejected(NoFileUploaded)
            ==> req.file.None?
    ensures ExtractTextRoute(req, sanitize, ex, translator) == Rejected(EmptyFilename)
            ==> req.file.Some? && req.file.value.filename == []
  {
  }

  // ---------------------------------------------------------------------
  // Extraction and the reply

  /** A request that passed validation. */
  predicate Validated(req: Request) {
    IsSupported(SourceLang(req)) && req.file.Some? && req.file.value.filename != []
  }

  /** A ".pdf" name (in any case) takes its text from the pages alone; the
      OCR result plays no part. */
  lemma RoutePdfBranch(req: Request, sanitize: string -> string, pages: seq<string>,
                       ocr: string -> string, translator: string -> string)
    requires Validated(req)
    requires EndsWith(Lower(sanitize(req.file.value.filename)), ".pdf")
    ensures ExtractTextRoute(req, sanitize, Extractors(pages, ocr), translator)
            == Reply(SourceLang(req), CleanText(PagesText(pages)), translator)
  {
  }

  /** Any other name goes to OCR with hint "nep" for ne/nep and "sin" for
      si/sin; the PDF pages play no part. */
  lemma RouteImageBranch(req: Request, sanitize: string -> string, pages: seq<string>,
                         ocr: string -> string, translator: string -> string)
    requires Validated(req)
    requires !EndsWith(Lower(sanitize(req.file.value.filename)), ".pdf")
    ensures IsNepaliCode(SourceLang(req)) ==>
              ExtractTextRoute(req, sanitize, Extractors(pages, ocr), translator)
              == Reply(SourceLang(req), CleanText(ocr("nep")), translator)
    ensures IsSinhalaCode(SourceLang(req)) ==>
              ExtractTextRoute(req, sanitize, Extractors(pages, ocr), translator)
              == Reply(SourceLang(req), CleanText(ocr("sin")), translator)
  {
  }

  /** "No text detected" is returned exactly for a validated request whose
      extracted text is nothing but control characters and whitespace. */
  lemma RouteNoText(req: Request, sanitize: string -> string, ex: Extractors,
                    translator: string -> string)
    ensures ExtractTextRoute(req, sanitize, ex, translator) == Rejected(NoTextDetected)
            <==> Validated(req) &&
                 var raw := RawText(sanitize(req.file.value.filename), SourceLang(req), ex);
                 forall i :: 0 <= i < |raw| ==> IsControl(raw[i]) || IsSpace(raw[i])
  {
    if Validated(req) {
      CleanTextEmpty(RawText(sanitize(req.file.value.filename), SourceLang(req), ex));
    }
  }

  /** A successful reply carries an accepted, lowercased code, a non-empty
      cleaned text, and the translator's output on that text's segmentation. */
  lemma RouteSuccess(req: Request, sanitize: string -> string, ex: Extractors,
                     translator: string -> string)
    requires ExtractTextRoute(req, sanitize, ex, translator).Translated?
    ensures var r := ExtractTextRoute(req, sanitize, ex, translator);
      && Validated(req)
      && r.sourceLang == SourceLang(req) && IsSupported(r.sourceLang)
      && r.extractedText == CleanText(RawText(sanitize(req.file.value.filename), r.sourceLang, ex))
      && r.extractedText != [] && Normalized(r.extractedText)
      && (forall i :: 0 <= i < |r.extractedText| ==> !IsControl(r.extractedText[i]))
      && r.translatedText == translator(Segment(r.extractedText, r.sourceLang))
      && Status(r) == 200
  {
    var raw := RawText(sanitize(req.file.value.filename), SourceLang(req), ex);
    CleanTextNormalized(raw);
    CleanTextNoControl(raw);
    TranslateCleanCallsTranslator(raw, SourceLang(req), translator);
  }

  // ---------------------------------------------------------------------
  // Scenarios

  lemma HelloWorldText()
    ensures Normalized("Hello World")
    ensures forall c :: c in "Hello World" ==> !IsControl(c)
    ensures forall i :: 0 <= i < |"Hello World"| ==>
              "Hello World"[i] != Danda && !IsConsonant("Hello World"[i])
  {
  }

  /** A one-page PDF under source_lang=ne whose page text is already clean
      and has no danda or consonant comes back with exactly that text, and
      the translator sees it unchanged. */
  lemma OnePagePdf(filename: string, page: string, sanitize: string -> string,
                   ocr: string -> string, translator: string -> string)
    requires filename != [] && EndsWith(Lower(sanitize(filename)), ".pdf")
    requires page != [] && Normalized(page) && forall c :: c in page ==> !IsControl(c)
    requires forall i :: 0 <= i < |page| ==> page[i] != Danda && !IsConsonant(page[i])
    ensures ExtractTextRoute(Request(Some("ne"), Some(Upload(filename))), sanitize,
                             Extractors([page], ocr), translator)
            == Translated("ne", page, translator(page))
  {
    var req := Request(Some("ne"), Some(Upload(filename)));
    assert SourceLang(req) == "ne" by {
      assert Lower("ne") == "ne";
    }
    RoutePdfBranch(req, sanitize, [page], ocr, translator);
    assert PagesText([page]) == page + "\n" by {
      assert [page][..0] == [];
    }
    CleanTextLine(page);
    SegmentNepaliNoop(page);
  }

  /** The one-page "Hello World" PDF. */
  lemma HelloWorldPdf(sanitize: string -> string, ocr: string -> string,
                      translator: string -> string)
    requires sanitize("hello.pdf") == "hello.pdf"
    ensures ExtractTextRoute(Request(Some("ne"), Some(Upload("hello.pdf"))), sanitize,
                             Extractors(["Hello World"], ocr), translator)
            == Translated("ne", "Hello World", translator("Hello World"))
  {
    HelloWorldText();
    assert EndsWith(Lower("hello.pdf"), ".pdf") by {
      assert Lower("hello.pdf") == "hello.pdf";
      assert "hello.pdf"[5..] == ".pdf";
    }
    OnePagePdf("hello.pdf", "Hello World", sanitize, ocr, translator);
  }

  lemma LowerNep()
    ensures Lower("nep") == "nep"
  {
  }

  lemma ScanJpgIsImage()
    ensures !EndsWith(Lower("scan.jpg"), ".pdf")
  {
    assert Lower("scan.jpg") == "scan.jpg";
    assert "scan.jpg"[4..][1] == 'j';
  }

  lemma BlankChars()
    ensures forall i :: 0 <= i < |" \n\t\U{1} "| ==>
              IsControl(" \n\t\U{1} "[i]) || IsSpace(" \n\t\U{1} "[i])
  {
  }

  /** An image whose OCR yields only whitespace and control characters is
      rejected with "No text detected". */
  lemma BlankImage(sanitize: string -> string, translator: string -> string)
    requires sanitize("scan.jpg") == "scan.jpg"
    ensures ExtractTextRoute(Request(Some("nep"), Some(Upload("scan.jpg"))), sanitize,
                             Extractors([], hint => " \n\t\U{1} "), translator)
            == Rejected(NoTextDetected)
  {
    var req := Request(Some("nep"), Some(Upload("scan.jpg")));
    var ex := Extractors([], hint => " \n\t\U{1} ");
    LowerNep();
    ScanJpgIsImage();
    BlankChars();
    RouteNoText(req, sanitize, ex, translator);
  }
}
