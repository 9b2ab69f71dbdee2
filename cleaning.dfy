/** clean_text: delete the ASCII control characters, collapse every
    whitespace run to one space, and strip the ends. */
module Cleaning {
  import opened Whitespace

  /** The regex class `[\x00-\x1F\x7F]`. It includes the whitespace
      characters U+0009-U+000D and U+001C-U+001F, which are therefore gone
      before the whitespace step sees them. */
  predicate IsControl(c: char) {
    c as int <= 0x1F || c as int == 0x7F
  }

  /** re.sub(r'[\x00-\x1F\x7F]', '', s) */
  function StripControl(s: string): (r: string)
    ensures forall c :: c in r ==> !IsControl(c)
  {
    if s == [] then []
    else if IsControl(s[0]) then StripControl(s[1..])
    else [s[0]] + StripControl(s[1..])
  }

  /** clean_text(text) */
  function CleanText(s: string): string {
    Normalize(StripControl(s))
  }

  /** A text without control characters passes the first step unchanged. */
  lemma {:induction false} StripControlNoop(s: string)
    requires forall c :: c in s ==> !IsControl(c)
    ensures StripControl(s) == s
  {
    if s != [] {
      assert s[0] in s;
      assert forall c :: c in s[1..] ==> c in s;
      StripControlNoop(s[1..]);
    }
  }

  /** The control-free text has no non-whitespace character exactly when
      every character of the input is a control character or whitespace. */
  lemma {:induction false} NonSpaceStripControlEmpty(s: string)
    ensures NonSpace(StripControl(s)) == [] <==>
            forall i :: 0 <= i < |s| ==> IsControl(s[i]) || IsSpace(s[i])
  {
    if s != [] {
      NonSpaceStripControlEmpty(s[1..]);
      assert forall i :: 1 <= i < |s| ==> s[i] == s[1..][i - 1];
      if !IsControl(s[0]) {
        assert StripControl(s) == [s[0]] + StripControl(s[1..]);
        assert StripControl(s)[0] == s[0];
      }
    }
  }

  /** No control character (U+0000-U+001F, U+007F) survives clean_text. */
  lemma CleanTextNoControl(s: string)
    ensures forall i :: 0 <= i < |CleanText(s)| ==> !IsControl(CleanText(s)[i])
  {
    NormalizeChars(StripControl(s));
    assert forall i :: 0 <= i < |CleanText(s)| ==> CleanText(s)[i] in CleanText(s);
  }

  /** clean_text's result has no whitespace at either end, never two
      whitespace characters in a row, and its only whitespace is ' '. */
  lemma CleanTextNormalized(s: string)
    ensures Normalized(CleanText(s))
  {
    NormalizeNormalized(StripControl(s));
  }

  /** clean_text(s) == " ".join(control-stripped s .split()). */
  lemma CleanTextIsJoinedWords(s: string)
    ensures CleanText(s) == JoinWords(Words(StripControl(s)))
  {
    NormalizeIsJoinedWords(StripControl(s));
  }

  /** clean_text changes nothing but whitespace once the control characters
      are gone: deleting whitespace from its result equals deleting control
      characters and whitespace from its input. */
  lemma CleanTextKeepsText(s: string)
    ensures NonSpace(CleanText(s)) == NonSpace(StripControl(s))
  {
    NonSpaceNormalize(StripControl(s));
  }

  /** clean_text is idempotent. */
  lemma CleanTextIdempotent(s: string)
    ensures CleanText(CleanText(s)) == CleanText(s)
  {
    var c := CleanText(s);
    CleanTextNoControl(s);
    assert forall x :: x in c ==> !IsControl(x) by {
      forall x | x in c ensures !IsControl(x) {
        var i :| 0 <= i < |c| && c[i] == x;
      }
    }
    StripControlNoop(c);
    CleanTextNormalized(s);
    NormalizedFixpoint(c);
  }

  /** clean_text returns "" exactly when its input consists of control
      characters and whitespace only. */
  lemma CleanTextEmpty(s: string)
    ensures CleanText(s) == [] <==>
            forall i :: 0 <= i < |s| ==> IsControl(s[i]) || IsSpace(s[i])
  {
    NormalizeEmpty(StripControl(s));
    NonSpaceStripControlEmpty(s);
  }

  /** Deleting control characters distributes over concatenation. */
  lemma {:induction false} StripControlAppend(a: string, b: string)
    ensures StripControl(a + b) == StripControl(a) + StripControl(b)
  {
    if a == [] {
      assert a + b == b;
    } else {
      StripControlAppend(a[1..], b);
      assert (a + b)[0] == a[0] && (a + b)[1..] == a[1..] + b;
    }
  }

  /** A clean text with a newline appended cleans back to itself. */
  lemma CleanTextLine(s: string)
    requires Normalized(s) && forall c :: c in s ==> !IsControl(c)
    ensures CleanText(s + "\n") == s
  {
    StripControlNoop(s);
    assert StripControl("\n") == [];
    StripControlAppend(s, "\n");
    assert s + [] == s;
    NormalizedFixpoint(s);
  }

  /** Whitespace characters inside the control class (tab, newline, the
      other U+0009-U+000D and U+001C-U+001F) are deleted by the first step,
      not turned into a space: a control character between two pieces of
      text disappears without a trace. */
  lemma CleanTextDropsControl(a: string, c: char, b: string)
    requires IsControl(c)
    ensures CleanText(a + [c] + b) == CleanText(a + b)
  {
    StripControlAppend(a + [c], b);
    StripControlAppend(a, [c]);
    assert StripControl([c]) == [];
    StripControlAppend(a, b);
    assert StripControl(a) + [] == StripControl(a);
  }

  lemma CleanAb()
    ensures CleanText("ab") == "ab"
  {
    StripControlNoop("ab");
    NormalizedFixpoint("ab");
  }

  /** So a newline between two words joins them: "a\nb" cleans to "ab". */
  lemma NewlineJoinsWords()
    ensures CleanText("a\nb") == "ab"
  {
    assert "a\nb" == "a" + ['\n'] + "b";
    assert "a" + "b" == "ab";
    CleanTextDropsControl("a", '\n', "b");
    CleanAb();
  }
}
