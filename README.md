# Text extraction and translation service: a Dafny model

This project models the Python service `python-service/app.py`. The
service takes an uploaded PDF or image and a language code (`ne`/`nep` for
Nepali, `si`/`sin` for Sinhala). It extracts the text, cleans it, segments
it for the language, and passes it to a translation model. The model covers
these parts of the service:

- `clean_text`: delete ASCII control characters, collapse whitespace runs,
  strip the ends. This is module `Cleaning`, built on module `Whitespace`.
  `Whitespace` holds Python's whitespace class with its full character set,
  `re.sub(r'\s+', ' ', ·).strip()`, and the reference definition
  `" ".join(s.split())` that it is proved equal to.
- `segment_text_nep` and `segment_text_si`, in module `Segmentation`. This
  includes the leftmost, non-overlapping consonant-pair substitution and a
  reference definition of it by position within a consonant run.
- `translate_text`, in module `Translation`. The translation model is a
  function parameter.
- The decision logic of the `/extract-text` handler `extract_text_route`,
  in module `ExtractRoute`. It is written twice. `ExtractTextRoute` is a
  function. `HandleExtractText` is a method with the handler's early
  returns and the PDF page loop (`ExtractPdfText`), and it is proved equal
  to the function.

These library calls become parameters:

- werkzeug's `secure_filename` is `sanitize: string -> string`.
- The page texts PyPDF2 returns are `Extractors.pdfPages`.
- pytesseract's `image_to_string` on the saved image is
  `Extractors.ocr: string -> string`, applied to the language hint.
- The translation pipeline is `translator: string -> string`.

Two behaviours of the code are worth knowing. The model follows the code
in both.

- `segment_text_nep`'s `re.sub(r'([क-ह])([क-ह])', ...)` scans left to
  right and never reuses a matched consonant. So in a run of three
  consonants only the first two are split: "कखग" becomes "क खग".
  `Segmentation.SplitPairsIsSpec` states the exact rule.
- `clean_text` deletes the whole class `[\x00-\x1F\x7F]` before it
  collapses whitespace. That class holds tab, newline, carriage return and
  U+001C-U+001F, so these are deleted rather than turned into a space. A
  newline between two words joins them: "a\nb" cleans to "ab". The "\n"
  the PDF loop appends after each page is deleted the same way, so pages
  "ab" and "cd" give the extracted text "abcd".
  `Cleaning.CleanTextDropsControl`, `ExtractRoute.CleanPagesText` and
  their two examples state this.

## Model

| member | source | states |
|---|---|---|
| Whitespace.NormalizeIsJoinedWords | python-service/app.py:31-32 | Collapsing `\s+` runs to ' ' and then stripping equals `" ".join(s.split())`. |
| Whitespace.NormalizeNormalized | python-service/app.py:31-32 | The result has no whitespace at either end, no two whitespace characters in a row, and no whitespace other than ' '. |
| Whitespace.NormalizeIdempotent | python-service/app.py:31-32 | Collapsing and stripping a second time changes nothing. |
| Whitespace.NonSpaceNormalize | python-service/app.py:31-32 | Collapsing and stripping keeps every non-whitespace character, in order. |
| Whitespace.NormalizeEmpty | python-service/app.py:31-32 | The result is "" exactly when the input is all whitespace. |
| Cleaning.StripControl | python-service/app.py:30 | No character U+0000-U+001F or U+007F is left. |
| Cleaning.CleanTextNoControl | python-service/app.py:28-32 | clean_text's result contains no control character. |
| Cleaning.CleanTextNormalized | python-service/app.py:28-32 | clean_text's result is trimmed, single-spaced, and uses only ' ' as whitespace. |
| Cleaning.CleanTextIsJoinedWords | python-service/app.py:28-32 | clean_text equals `" ".join(...split())` of the control-stripped input. |
| Cleaning.CleanTextKeepsText | python-service/app.py:28-32 | With whitespace deleted, the result equals the input with control characters and whitespace deleted. |
| Cleaning.CleanTextIdempotent | python-service/app.py:28-32 | clean_text(clean_text(s)) == clean_text(s). |
| Cleaning.CleanTextEmpty | python-service/app.py:28-32 | clean_text returns "" exactly when every input character is a control character or whitespace. |
| Cleaning.CleanTextLine | python-service/app.py:28-32 | A trimmed, single-spaced, control-free text with "\n" appended cleans back to itself. |
| Cleaning.CleanTextDropsControl | python-service/app.py:30-32 | A control character between two pieces of text (a newline or a tab, say) disappears: cleaning gives the same as with the character removed, not a space. |
| Cleaning.NewlineJoinsWords | python-service/app.py:30-32 | clean_text("a\nb") == "ab". |
| Segmentation.SegmentNepaliNoop | python-service/app.py:34-39 | A trimmed, single-spaced text with no danda and no consonant passes segment_text_nep unchanged. |
| Segmentation.SplitPairsIsSpec | python-service/app.py:37 | In each maximal consonant run, a space goes between run places (0,1), (2,3), ... and nowhere else. |
| Segmentation.SplitPairsExamples | python-service/app.py:37 | "कख" becomes "क ख", "कखग" becomes "क खग", "कखगघ" becomes "क खग घ", and "क्ख" (virama between) is unchanged. |
| Segmentation.SegmentNepaliPair | python-service/app.py:34-39 | segment_text_nep("कह") == "क ह". |
| Segmentation.SegmentNepaliTriple | python-service/app.py:34-39 | segment_text_nep("कखग") == "क खग": the rule fires once per non-overlapping pair. |
| Segmentation.SegmentNepaliDandaExample | python-service/app.py:36-39 | segment_text_nep("क।ख") == "क। ख". |
| Segmentation.SegmentNepaliKeepsText | python-service/app.py:34-39 | segment_text_nep only inserts or moves whitespace: deleting whitespace from input and output gives the same string. |
| Segmentation.SegmentNepaliNormalized | python-service/app.py:38-39 | segment_text_nep's result is trimmed and single-spaced. |
| Segmentation.SegmentNepaliEmpty | python-service/app.py:34-39 | segment_text_nep returns "" exactly when its input is all whitespace. |
| Segmentation.SegmentNepaliDandas | python-service/app.py:36-39 | Every danda in the result is either last or followed by exactly one ' ' and then a non-whitespace character. |
| Segmentation.SegmentSinhalaIsJoinedWords | python-service/app.py:41-45 | segment_text_si equals `" ".join(text.split())`. |
| Segmentation.SegmentSinhalaOfClean | python-service/app.py:41-45 | segment_text_si leaves clean_text's output unchanged. |
| Translation.TranslateNepali | python-service/app.py:47-57 | For ne/nep the translator gets segment_text_nep's result. It is not called, and "" is returned, when the text is all whitespace. |
| Translation.TranslateSinhala | python-service/app.py:47-57 | For si/sin the translator gets segment_text_si's result. It is not called, and "" is returned, when the text is all whitespace. |
| Translation.TranslateOther | python-service/app.py:47-57 | Any other code passes the text to the translator unchanged, or returns "" for "". |
| Translation.SegmentShape | python-service/app.py:49-52 | For an accepted code the segmented text is trimmed and single-spaced, and differs from the input only in whitespace. |
| Translation.TranslateCleanSinhala | python-service/app.py:51-57 | Under si/sin the translator receives clean_text's output verbatim. |
| Translation.TranslateCleanCallsTranslator | python-service/app.py:47-57 | Non-empty cleaned text under an accepted code segments to a non-empty string, and the translator is called on it. |
| ExtractRoute.ExtractPdfText | python-service/app.py:89-92 | The page loop yields the concatenation, in page order, of each non-empty page text followed by "\n". |
| ExtractRoute.HandleExtractText | python-service/app.py:67-111 | The handler with its early returns gives the same response as the decision function, for every input. |
| ExtractRoute.PagesTextAppend | python-service/app.py:89-92 | The text of the concatenation of two page lists is the concatenation of their texts. |
| ExtractRoute.PagesTextCons | python-service/app.py:89-92 | The first page's line comes first. |
| ExtractRoute.PagesTextEmpty | python-service/app.py:89-92 | The PDF text is empty exactly when every page yields no text. |
| ExtractRoute.CleanPagesText | python-service/app.py:89-100 | The cleaned PDF text equals the cleaned concatenation of the page texts: the newline after each page leaves no separator. |
| ExtractRoute.TwoPagesGlued | python-service/app.py:89-100 | Pages "ab" and "cd" give the extracted text "abcd". |
| ExtractRoute.LowerIdempotent | python-service/app.py:68 | Lowercasing twice is lowercasing once. |
| ExtractRoute.RouteRejectsLanguageFirst | python-service/app.py:68-70 | The reply is the unsupported-language error exactly when the lowercased code is outside {ne, nep, si, sin}, whatever the upload is. |
| ExtractRoute.RouteDefaultsToNepali | python-service/app.py:68 | A missing source_lang behaves as "ne". |
| ExtractRoute.RouteIgnoresCase | python-service/app.py:68 | A code and its lowercase form give the same reply. |
| ExtractRoute.RouteUploadChecks | python-service/app.py:72-77 | With an accepted code, a missing file part gives exactly "No file uploaded". An empty filename gives exactly "Empty filename". |
| ExtractRoute.RoutePdfBranch | python-service/app.py:86-92 | A sanitised name ending in ".pdf" (any case) takes its text from the pages only: the reply is "No text detected" for empty cleaned text, else the success triple on it. |
| ExtractRoute.RouteImageBranch | python-service/app.py:93-97 | Any other name goes to OCR: ne/nep get the reply on clean_text(ocr("nep")), si/sin on clean_text(ocr("sin")), and the pages play no part. |
| ExtractRoute.RouteNoText | python-service/app.py:99-102 | "No text detected" is returned exactly for a validated request whose extracted text is only control characters and whitespace. |
| ExtractRoute.RouteSuccess | python-service/app.py:99-111 | A success reply carries the accepted lowercased code and the non-empty, normalised, control-free cleaned text. Its translation is the translator applied to that text's segmentation, and its status is 200. |
| ExtractRoute.OnePagePdf | python-service/app.py:86-111 | One already-clean PDF page under ne, with no danda or consonant, comes back verbatim, and the translator sees it unchanged. |
| ExtractRoute.HelloWorldPdf | python-service/app.py:86-111 | The one-page "Hello World" PDF under ne gives extracted_text "Hello World" and the translator's output on "Hello World". |
| ExtractRoute.BlankImage | python-service/app.py:93-102 | A .jpg whose OCR yields only whitespace and control characters, under nep, gives "No text detected". |

## Left out

- Flask, the JSON encoding of replies, and the `/ping` route are not modelled. A reply is the `Response` datatype, and `Status` gives its HTTP status.
- Saving the upload, the `finally` block that removes it, and the uploads folder are left out, because they are filesystem I/O. If `secure_filename` returns "", the Python save fails. The model does not capture that failure.
- `secure_filename` is a parameter, because it is a library call. The model does not describe how it rewrites names.
- PyPDF2 and pytesseract are parameters, because they are library calls. The model does not capture their exceptions (an unreadable PDF or image) or their exact outputs.
- The MarianMT model, its `max_length=512` truncation, and its exceptions are behind the `translator` parameter.
- `ExtractRoute.Lower` lowercases ASCII letters only, because Python's full Unicode `str.lower()` is not modelled. The only non-ASCII characters whose lowercase holds an ASCII letter are U+0130 (to "i" plus a combining dot) and U+212A (to "k"), and neither can produce "ne", "nep", "si", "sin" or ".pdf". So the allow-list check, the returned code and the ".pdf" test agree with Python.
- Patterns are written out per use rather than through a general regular-expression engine. `re` is not modelled in general.
- The module-level model loading (tokenizer, model and pipeline construction) is configuration and is not modelled.
