/** The language-specific segmenters applied before translation:
    segment_text_nep for Nepali and segment_text_si for Sinhala. */
module Segmentation {
  import opened Whitespace
  import opened Cleaning

  /** U+0964 DEVANAGARI DANDA, the sentence mark. */
  const Danda: char := '\U{964}'

  /** The regex class `[क-ह]`: U+0915 DEVANAGARI LETTER KA through U+0939
      DEVANAGARI LETTER HA. Vowel signs, the virama and the danda lie
      outside it. */
  predicate IsConsonant(c: char) {
    0x915 <= c as int <= 0x939
  }

  /** text.replace("।", "। "): a space after every danda. */
  function SpaceDandas(s: string): string {
    if s == [] then []
    else if s[0] == Danda then [Danda, ' '] + SpaceDandas(s[1..])
    else [s[0]] + SpaceDandas(s[1..])
  }

  /** re.sub(r'([क-ह])([क-ह])', r'\1 \2', s). The regex engine scans left
      to right; where two consonants stand at the scan position it emits
      them with a space between and resumes after the pair, otherwise it
      copies one character. Matches never overlap, so in a run of three
      consonants only the first two are split. */
  function SplitPairs(s: string): string {
    if |s| >= 2 && IsConsonant(s[0]) && IsConsonant(s[1]) then
      [s[0], ' ', s[1]] + SplitPairs(s[2..])
    else if s == [] then []
    else [s[0]] + SplitPairs(s[1..])
  }

  /** segment_text_nep(text) */
  function SegmentNepali(s: string): string {
    Normalize(SplitPairs(SpaceDandas(s)))
  }

  /** segment_text_si(text) */
  function SegmentSinhala(s: string): string {
    Normalize(s)
  }

  // ---------------------------------------------------------------------
  // A reference definition of the consonant substitution

  /** How many consonants stand immediately before position i, that is,
      the place of s[i] within its run of consonants. */
  function RunPlace(s: string, i: nat): nat
    requires i <= |s|
  {
    if i > 0 && IsConsonant(s[i - 1]) then RunPlace(s, i - 1) + 1 else 0
  }

  /** The substitution puts a space after position i exactly when s[i] and
      s[i + 1] are consonants of one run and s[i] sits at an even place of
      that run: between run places (0,1), (2,3), (4,5), ... */
  predicate SpaceAfter(s: string, i: nat)
    requires i < |s|
  {
    i + 1 < |s| && IsConsonant(s[i]) && IsConsonant(s[i + 1]) && RunPlace(s, i) % 2 == 0
  }

  /** The characters of s from position i on, each followed by a space
      where SpaceAfter says so. */
  function PairsSpec(s: string, i: nat): string
    requires i <= |s|
    decreases |s| - i
  {
    if i == |s| then []
    else [s[i]] + (if SpaceAfter(s, i) then " " else "") + PairsSpec(s, i + 1)
  }

  /** Resuming the scan at a position that starts a run, or at an even
      place of one, gives the reference from that position. */
  lemma {:induction false} SplitPairsFrom(s: string, i: nat)
    requires i <= |s|
    requires i == |s| || !IsConsonant(s[i]) || RunPlace(s, i) % 2 == 0
    ensures SplitPairs(s[i..]) == PairsSpec(s, i)
    decreases |s| - i
  {
    var t := s[i..];
    if i < |s| {
      if i + 1 < |s| && IsConsonant(s[i]) && IsConsonant(s[i + 1]) {
        assert t[0] == s[i] && t[1] == s[i + 1] && t[2..] == s[i + 2..];
        assert RunPlace(s, i + 1) == RunPlace(s, i) + 1;
        assert !SpaceAfter(s, i + 1);
        if i + 2 < |s| && IsConsonant(s[i + 2]) {
          assert RunPlace(s, i + 2) == RunPlace(s, i) + 2;
        }
        SplitPairsFrom(s, i + 2);
        calc {
          SplitPairs(t);
          [s[i], ' ', s[i + 1]] + SplitPairs(s[i + 2..]);
          [s[i]] + " " + ([s[i + 1]] + "" + PairsSpec(s, i + 2));
          [s[i]] + " " + PairsSpec(s, i + 1);
          PairsSpec(s, i);
        }
      } else {
        assert t[0] == s[i] && t[1..] == s[i + 1..];
        assert !SpaceAfter(s, i);
        SplitPairsFrom(s, i + 1);
        calc {
          SplitPairs(t);
          [s[i]] + SplitPairs(s[i + 1..]);
          [s[i]] + "" + PairsSpec(s, i + 1);
          PairsSpec(s, i);
        }
      }
    }
  }

  /** The consonant substitution is leftmost and non-overlapping: within
      each maximal run of consonants a space goes between run places
      (0,1), (2,3), (4,5), ..., and nowhere else. */
  lemma SplitPairsIsSpec(s: string)
    ensures SplitPairs(s) == PairsSpec(s, 0)
  {
    SplitPairsFrom(s, 0);
    assert s[0..] == s;
  }

  // ---------------------------------------------------------------------
  // Worked examples

  lemma SplitPairsExamples()
    ensures SplitPairs("कख") == "क ख"
    ensures SplitPairs("कखग") == "क खग"
    ensures SplitPairs("कखगघ") == "क खग घ"
    ensures SplitPairs("क्ख") == "क्ख"
  {
  }

  lemma SegmentNepaliPair()
    ensures SegmentNepali("कह") == "क ह"
  {
    assert SpaceDandas("कह") == "कह";
    assert SplitPairs("कह") == "क ह";
    NormalizedFixpoint("क ह");
  }

  lemma SegmentNepaliTriple()
    ensures SegmentNepali("कखग") == "क खग"
  {
    assert SpaceDandas("कखग") == "कखग";
    assert SplitPairs("कखग") == "क खग";
    NormalizedFixpoint("क खग");
  }

  lemma SegmentNepaliDandaExample()
    ensures SegmentNepali("क।ख") == "क। ख"
  {
    assert SpaceDandas("क।ख") == "क। ख";
    assert SplitPairs("क। ख") == "क। ख";
    NormalizedFixpoint("क। ख");
  }

  // ---------------------------------------------------------------------
  // segment_text_nep changes only whitespace

  lemma {:induction false} NonSpaceSpaceDandas(s: string)
    ensures NonSpace(SpaceDandas(s)) == NonSpace(s)
  {
    if s != [] {
      NonSpaceSpaceDandas(s[1..]);
      if s[0] == Danda {
        NonSpaceAppend([Danda, ' '], SpaceDandas(s[1..]));
        assert NonSpace([Danda, ' ']) == [Danda];
      } else {
        NonSpaceAppend([s[0]], SpaceDandas(s[1..]));
      }
    }
  }

  /** Deleting whitespace from a consonant pair with a space between
      gives the pair. */
  lemma NonSpacePair(a: char, b: char)
    requires !IsSpace(a) && !IsSpace(b)
    ensures NonSpace([a, ' ', b]) == [a, b]
  {
    var p := [a, ' ', b];
    assert p[1..] == [' ', b] && p[1..][1..] == [b];
    assert NonSpace([b]) == [b];
    assert NonSpace([' ', b]) == [b];
  }

  /** Deleting whitespace from a text that starts with two non-whitespace
      characters keeps them in front. */
  lemma NonSpaceTwo(s: string)
    requires |s| >= 2 && !IsSpace(s[0]) && !IsSpace(s[1])
    ensures NonSpace(s) == [s[0], s[1]] + NonSpace(s[2..])
  {
    assert s[1..][0] == s[1] && s[1..][1..] == s[2..];
    assert NonSpace(s[1..]) == [s[1]] + NonSpace(s[2..]);
  }

  lemma {:induction false} NonSpaceSplitPairs(s: string)
    ensures NonSpace(SplitPairs(s)) == NonSpace(s)
  {
    if |s| >= 2 && IsConsonant(s[0]) && IsConsonant(s[1]) {
      var p := [s[0], ' ', s[1]];
      NonSpaceSplitPairs(s[2..]);
      NonSpaceAppend(p, SplitPairs(s[2..]));
      NonSpacePair(s[0], s[1]);
      NonSpaceTwo(s);
      calc {
        NonSpace(SplitPairs(s));
        NonSpace(p + SplitPairs(s[2..]));
        NonSpace(p) + NonSpace(SplitPairs(s[2..]));
        [s[0], s[1]] + NonSpace(s[2..]);
        NonSpace(s);
      }
    } else if s != [] {
      NonSpaceSplitPairs(s[1..]);
      NonSpaceAppend([s[0]], SplitPairs(s[1..]));
    }
  }

  /** Deleting whitespace from segment_text_nep's result gives its input
      with whitespace deleted. */
  lemma SegmentNepaliKeepsText(s: string)
    ensures NonSpace(SegmentNepali(s)) == NonSpace(s)
  {
    NonSpaceSpaceDandas(s);
    NonSpaceSplitPairs(SpaceDandas(s));
    NonSpaceNormalize(SplitPairs(SpaceDandas(s)));
  }

  /** segment_text_nep's result is trimmed and single-spaced. */
  lemma SegmentNepaliNormalized(s: string)
    ensures Normalized(SegmentNepali(s))
  {
    NormalizeNormalized(SplitPairs(SpaceDandas(s)));
  }

  /** segment_text_nep returns "" exactly when its input is all whitespace. */
  lemma SegmentNepaliEmpty(s: string)
    ensures SegmentNepali(s) == [] <==> NonSpace(s) == []
  {
    NormalizeEmpty(SplitPairs(SpaceDandas(s)));
    NonSpaceSpaceDandas(s);
    NonSpaceSplitPairs(SpaceDandas(s));
  }

  // ---------------------------------------------------------------------
  // Every danda is followed by exactly one space

  lemma FollowedBySpaceConcat(a: string, b: string, x: char)
    requires FollowedBySpace(a, x) && FollowedBySpace(b, x)
    requires a != [] && a[|a| - 1] == x && b != [] ==> IsSpace(b[0])
    ensures FollowedBySpace(a + b, x)
  {
    var r := a + b;
    assert forall i :: 0 <= i < |a| ==> r[i] == a[i];
    assert forall i :: |a| <= i < |r| ==> r[i] == b[i - |a|];
  }

  lemma FollowedBySpaceDrop(s: string, k: nat, x: char)
    requires k <= |s| && FollowedBySpace(s, x)
    ensures FollowedBySpace(s[k..], x)
  {
    assert forall i :: 0 <= i < |s| - k ==> s[k..][i] == s[i + k];
  }

  lemma {:induction false} SpaceDandasFollowed(s: string)
    ensures FollowedBySpace(SpaceDandas(s), Danda)
  {
    if s != [] {
      SpaceDandasFollowed(s[1..]);
      if s[0] == Danda {
        FollowedBySpaceConcat([Danda, ' '], SpaceDandas(s[1..]), Danda);
      } else {
        FollowedBySpaceConcat([s[0]], SpaceDandas(s[1..]), Danda);
      }
    }
  }

  lemma SplitPairsHead(s: string)
    requires s != []
    ensures SplitPairs(s) != [] && SplitPairs(s)[0] == s[0]
  {
  }

  lemma {:induction false} SplitPairsFollowed(s: string)
    requires FollowedBySpace(s, Danda)
    ensures FollowedBySpace(SplitPairs(s), Danda)
  {
    if |s| >= 2 && IsConsonant(s[0]) && IsConsonant(s[1]) {
      FollowedBySpaceDrop(s, 2, Danda);
      SplitPairsFollowed(s[2..]);
      FollowedBySpaceConcat([s[0], ' ', s[1]], SplitPairs(s[2..]), Danda);
    } else if s != [] {
      FollowedBySpaceDrop(s, 1, Danda);
      SplitPairsFollowed(s[1..]);
      if |s| > 1 {
        SplitPairsHead(s[1..]);
        assert s[0] == Danda ==> IsSpace(s[1]);
      }
      FollowedBySpaceConcat([s[0]], SplitPairs(s[1..]), Danda);
    }
  }

  /** In segment_text_nep's result every danda is the last character or is
      followed by exactly one ' ' and then a non-whitespace character. */
  lemma SegmentNepaliDandas(s: string)
    ensures var r := SegmentNepali(s);
      forall i :: 0 <= i < |r| && r[i] == Danda ==>
        i == |r| - 1 || (i + 2 < |r| && r[i + 1] == ' ' && !IsSpace(r[i + 2]))
  {
    var t := SplitPairs(SpaceDandas(s));
    SpaceDandasFollowed(s);
    SplitPairsFollowed(SpaceDandas(s));
    CollapseFollowedBySpace(t, Danda);
    StripFollowedBySpace(CollapseRuns(t), Danda);
    SegmentNepaliNormalized(s);
  }

  // ---------------------------------------------------------------------
  // segment_text_si

  /** segment_text_si is " ".join(text.split()). */
  lemma SegmentSinhalaIsJoinedWords(s: string)
    ensures SegmentSinhala(s) == JoinWords(Words(s))
  {
    NormalizeIsJoinedWords(s);
  }

  /** segment_text_si leaves clean_text's output unchanged. */
  lemma SegmentSinhalaOfClean(s: string)
    ensures SegmentSinhala(CleanText(s)) == CleanText(s)
  {
    CleanTextNormalized(s);
    NormalizedFixpoint(CleanText(s));
  }

  // ---------------------------------------------------------------------
  // Texts segment_text_nep leaves alone

  lemma {:induction false} SpaceDandasNoop(s: string)
    requires forall i :: 0 <= i < |s| ==> s[i] != Danda
    ensures SpaceDandas(s) == s
  {
    if s != [] {
      assert forall i :: 0 <= i < |s| - 1 ==> s[1..][i] == s[i + 1];
      SpaceDandasNoop(s[1..]);
    }
  }

  lemma {:induction false} SplitPairsNoop(s: string)
    requires forall i :: 0 <= i < |s| ==> !IsConsonant(s[i])
    ensures SplitPairs(s) == s
  {
    if s != [] {
      assert forall i :: 0 <= i < |s| - 1 ==> s[1..][i] == s[i + 1];
      SplitPairsNoop(s[1..]);
    }
  }

  /** Text without dandas and consonants that is already trimmed and
      single-spaced passes segment_text_nep unchanged. */
  lemma SegmentNepaliNoop(s: string)
    requires Normalized(s)
    requires forall i :: 0 <= i < |s| ==> s[i] != Danda && !IsConsonant(s[i])
    ensures SegmentNepali(s) == s
  {
    SpaceDandasNoop(s);
    SplitPairsNoop(s);
    NormalizedFixpoint(s);
  }
}
