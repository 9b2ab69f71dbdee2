/** translate_text: choose the segmenter by language code, then hand the
    segmented text to the translation model unless it is empty. The model
    (a MarianMT pipeline, first candidate's "translation_text") is a
    parameter `translator` that this model does not look inside. */
module Translation {
  import opened Whitespace
  import opened Cleaning
  import opened Segmentation

  /** The two codes of the Nepali family. */
  predicate IsNepaliCode(lang: string) {
    lang == "ne" || lang == "nep"
  }

  /** The two codes of the Sinhala family. */
  predicate IsSinhalaCode(lang: string) {
    lang == "si" || lang == "sin"
  }

  /** The segmenter chosen by the language code; any other code passes the
      text through untouched. */
  function Segment(text: string, lang: string): string {
    if IsNepaliCode(lang) then SegmentNepali(text)
    else if IsSinhalaCode(lang) then SegmentSinhala(text)
    else text
  }

  /** translate_text(text, source_lang) */
  function TranslateText(text: string, lang: string, translator: string -> string): string {
    var segmented := Segment(text, lang);
    if segmented == [] then "" else translator(segmented)
  }

  /** For ne/nep the translator gets segment_text_nep's result, and is not
      consulted at all when the text is only whitespace. */
  lemma TranslateNepali(text: string, lang: string, translator: string -> string)
    requires IsNepaliCode(lang)
    ensures TranslateText(text, lang, translator) ==
            if NonSpace(text) == [] then "" else translator(SegmentNepali(text))
  {
    SegmentNepaliEmpty(text);
  }

  /** For si/sin the translator gets segment_text_si's result, and is not
      consulted at all when the text is only whitespace. */
  lemma TranslateSinhala(text: string, lang: string, translator: string -> string)
    requires IsSinhalaCode(lang)
    ensures TranslateText(text, lang, translator) ==
            if NonSpace(text) == [] then "" else translator(SegmentSinhala(text))
  {
    NormalizeEmpty(text);
  }

  /** Any other code hands the text over unchanged unless it is "". */
  lemma TranslateOther(text: string, lang: string, translator: string -> string)
    requires !IsNepaliCode(lang) && !IsSinhalaCode(lang)
    ensures TranslateText(text, lang, translator) ==
            if text == [] then "" else translator(text)
  {
  }

  /** For an accepted code, what the translator receives is trimmed and
      single-spaced and differs from the input only in whitespace. */
  lemma SegmentShape(text: string, lang: string)
    requires IsNepaliCode(lang) || IsSinhalaCode(lang)
    ensures Normalized(Segment(text, lang))
    ensures NonSpace(Segment(text, lang)) == NonSpace(text)
  {
    if IsNepaliCode(lang) {
      SegmentNepaliNormalized(text);
      SegmentNepaliKeepsText(text);
    } else {
      NormalizeNormalized(text);
      NonSpaceNormalize(text);
    }
  }

  /** On clean_text's output a Sinhala code passes the cleaned text to the
      translator verbatim. */
  lemma TranslateCleanSinhala(s: string, lang: string, translator: string -> string)
    requires IsSinhalaCode(lang)
    ensures TranslateText(CleanText(s), lang, translator) ==
            if CleanText(s) == [] then "" else translator(CleanText(s))
  {
    SegmentSinhalaOfClean(s);
  }

  /** Non-empty cleaned text under an accepted code always reaches the
      translator: segmenting never empties it. */
  lemma TranslateCleanCallsTranslator(s: string, lang: string, translator: string -> string)
    requires IsNepaliCode(lang) || IsSinhalaCode(lang)
    requires CleanText(s) != []
    ensures Segment(CleanText(s), lang) != []
    ensures TranslateText(CleanText(s), lang, translator) == translator(Segment(CleanText(s), lang))
  {
    var c := CleanText(s);
    CleanTextNormalized(s);
    assert NonSpace(c) != [] by {
      assert NonSpace(c) == [c[0]] + NonSpace(c[1..]);
    }
    SegmentShape(c, lang);
    assert Segment(c, lang) != [];
  }
}
