/** Python's whitespace class and the "collapse every whitespace run to one
    space, then strip" step that clean_text, segment_text_nep and
    segment_text_si all end with: `re.sub(r'\s+', ' ', text).strip()`.

    The reference definition it is proved against is Python's
    `" ".join(text.split())`: the whitespace-separated words of the text,
    joined by single spaces. */
module Whitespace {

  /** The characters Python's `\s` matches in a str pattern; str.strip()
      and str.split() with no argument use the same set (str.isspace()). */
  predicate IsSpace(c: char) {
    var n := c as int;
    || 0x09 <= n <= 0x0D
    || 0x1C <= n <= 0x20
    || n == 0x85 || n == 0xA0 || n == 0x1680
    || 0x2000 <= n <= 0x200A
    || n == 0x2028 || n == 0x2029 || n == 0x202F || n == 0x205F || n == 0x3000
  }

  /** str.lstrip(): drop the leading whitespace. The result is the suffix
      that starts at the first non-whitespace character. */
  function StripLeft(s: string): (r: string)
    ensures |r| <= |s|
    ensures r == [] || !IsSpace(r[0])
  {
    if s != [] && IsSpace(s[0]) then StripLeft(s[1..]) else s
  }

  /** str.rstrip(): drop the trailing whitespace. The result is the prefix
      that ends at the last non-whitespace character. */
  function StripRight(s: string): (r: string)
    ensures |r| <= |s|
    ensures r == [] || !IsSpace(r[|r| - 1])
  {
    if s != [] && IsSpace(s[|s| - 1]) then StripRight(s[..|s| - 1]) else s
  }

  /** str.strip() */
  function Strip(s: string): string {
    StripRight(StripLeft(s))
  }

  /** re.sub(r'\s+', ' ', s): every maximal run of whitespace becomes a
      single ' '; the regex is greedy, so the run after the first
      whitespace character is swallowed whole. */
  function CollapseRuns(s: string): string
    decreases |s|
  {
    if s == [] then []
    else if IsSpace(s[0]) then [' '] + CollapseRuns(StripLeft(s[1..]))
    else [s[0]] + CollapseRuns(s[1..])
  }

  /** `re.sub(r'\s+', ' ', s).strip()`, the tail shared by the three text
      utilities. */
  function Normalize(s: string): string {
    Strip(CollapseRuns(s))
  }

  /** The shape Normalize produces: no whitespace at either end, no two
      whitespace characters in a row, and every whitespace character a
      plain ' '. */
  predicate Normalized(s: string) {
    && (s != [] ==> !IsSpace(s[0]) && !IsSpace(s[|s| - 1]))
    && (forall i :: 0 <= i < |s| && IsSpace(s[i]) ==> s[i] == ' ')
    && (forall i :: 0 <= i < |s| - 1 && IsSpace(s[i]) ==> !IsSpace(s[i + 1]))
  }

  /** The text with every whitespace character deleted. */
  function NonSpace(s: string): (r: string)
    ensures |r| <= |s|
    ensures forall i :: 0 <= i < |r| ==> !IsSpace(r[i])
  {
    if s == [] then []
    else if IsSpace(s[0]) then NonSpace(s[1..])
    else [s[0]] + NonSpace(s[1..])
  }

  /** A word of str.split(): non-empty and free of whitespace. */
  predicate IsWord(w: string) {
    w != [] && forall i :: 0 <= i < |w| ==> !IsSpace(w[i])
  }

  /** The leading run of non-whitespace characters of s. */
  function FirstWord(s: string): (w: string)
    ensures |w| <= |s|
  {
    if s == [] || IsSpace(s[0]) then [] else [s[0]] + FirstWord(s[1..])
  }

  /** str.split() with no argument: the maximal runs of non-whitespace
      characters, in order. */
  function Words(s: string): seq<string>
    decreases |s|
  {
    var t := StripLeft(s);
    if t == [] then []
    else
      var w := FirstWord(t);
      [w] + Words(t[|w|..])
  }

  /** " ".join(ws) */
  function JoinWords(ws: seq<string>): string {
    if ws == [] then []
    else if |ws| == 1 then ws[0]
    else ws[0] + " " + JoinWords(ws[1..])
  }

  /** A single space if s ends in whitespace. */
  function Trail(s: string): string {
    if s != [] && IsSpace(s[|s| - 1]) then " " else ""
  }

  // ---------------------------------------------------------------------
  // Shapes of str.lstrip(), str.rstrip() and the first word

  /** str.lstrip() returns a suffix, and everything it drops is whitespace. */
  lemma {:induction false} StripLeftSuffix(s: string)
    ensures StripLeft(s) == s[|s| - |StripLeft(s)|..]
    ensures forall i :: 0 <= i < |s| - |StripLeft(s)| ==> IsSpace(s[i])
  {
    if s != [] && IsSpace(s[0]) {
      StripLeftSuffix(s[1..]);
      assert forall i :: 1 <= i < |s| ==> s[i] == s[1..][i - 1];
    }
  }

  /** str.rstrip() returns a prefix, and everything it drops is whitespace. */
  lemma {:induction false} StripRightPrefix(s: string)
    ensures StripRight(s) == s[..|StripRight(s)|]
    ensures forall i :: |StripRight(s)| <= i < |s| ==> IsSpace(s[i])
  {
    if s != [] && IsSpace(s[|s| - 1]) {
      StripRightPrefix(s[..|s| - 1]);
    }
  }

  /** The first word is a prefix that ends at the end of the text or at
      whitespace. */
  lemma {:induction false} FirstWordPrefix(s: string)
    ensures FirstWord(s) == s[..|FirstWord(s)|]
    ensures |FirstWord(s)| == |s| || IsSpace(s[|FirstWord(s)|])
  {
    if s != [] && !IsSpace(s[0]) {
      FirstWordPrefix(s[1..]);
      assert FirstWord(s) == [s[0]] + FirstWord(s[1..]);
    }
  }

  // ---------------------------------------------------------------------
  // Lemmas about JoinWords

  lemma WordNormalized(w: string)
    requires IsWord(w)
    ensures Normalized(w)
  {
  }

  /** Gluing two normalized non-empty texts with one space keeps the shape. */
  lemma GlueNormalized(a: string, b: string)
    requires Normalized(a) && Normalized(b) && a != [] && b != []
    ensures Normalized(a + " " + b)
  {
    var r := a + " " + b;
    assert forall i :: 0 <= i < |a| ==> r[i] == a[i];
    assert r[|a|] == ' ';
    assert forall i :: |a| < i < |r| ==> r[i] == b[i - |a| - 1];
  }

  /** " ".join of words has Normalize's shape, and is empty only when
      there are no words. */
  lemma {:induction false} JoinWordsNormalized(ws: seq<string>)
    requires forall k :: 0 <= k < |ws| ==> IsWord(ws[k])
    ensures Normalized(JoinWords(ws))
    ensures JoinWords(ws) == [] <==> ws == []
  {
    if |ws| == 1 {
      WordNormalized(ws[0]);
    } else if |ws| > 1 {
      JoinWordsNormalized(ws[1..]);
      WordNormalized(ws[0]);
      GlueNormalized(ws[0], JoinWords(ws[1..]));
    }
  }

  // ---------------------------------------------------------------------
  // Normalize is " ".join(s.split())

  /** A text that starts with a word collapses to that word followed by
      the collapsed remainder. */
  lemma {:induction false} CollapseWord(t: string)
    requires t != [] && !IsSpace(t[0])
    ensures CollapseRuns(t) == FirstWord(t) + CollapseRuns(t[|FirstWord(t)|..])
  {
    var w := FirstWord(t);
    var t' := t[1..];
    if t' == [] || IsSpace(t'[0]) {
      assert FirstWord(t') == [];
      assert w == [t[0]];
      assert t[|w|..] == t';
    } else {
      var w' := FirstWord(t');
      CollapseWord(t');
      assert w == [t[0]] + w';
      assert t'[|w'|..] == t[|w|..];
      calc {
        CollapseRuns(t);
        [t[0]] + CollapseRuns(t');
        [t[0]] + (w' + CollapseRuns(t[|w|..]));
        w + CollapseRuns(t[|w|..]);
      }
    }
  }

  lemma WordsStripLeft(s: string)
    ensures Words(StripLeft(s)) == Words(s)
  {
    var u := StripLeft(s);
    assert StripLeft(u) == u;
  }

  lemma {:induction false} FirstWordIsWord(t: string)
    requires t != [] && !IsSpace(t[0])
    ensures IsWord(FirstWord(t))
  {
    var t' := t[1..];
    if t' != [] && !IsSpace(t'[0]) {
      FirstWordIsWord(t');
      assert FirstWord(t) == [t[0]] + FirstWord(t');
    } else {
      assert FirstWord(t') == [];
    }
  }

  /** Every entry of str.split()'s result is a word. */
  lemma {:induction false} WordsAreWords(s: string)
    ensures forall k :: 0 <= k < |Words(s)| ==> IsWord(Words(s)[k])
    decreases |s|
  {
    var t := StripLeft(s);
    if t != [] {
      var w := FirstWord(t);
      FirstWordIsWord(t);
      WordsAreWords(t[|w|..]);
      assert Words(s) == [w] + Words(t[|w|..]);
    }
  }

  lemma WordsCons(t: string)
    requires t != [] && !IsSpace(t[0])
    ensures Words(t) == [FirstWord(t)] + Words(t[|FirstWord(t)|..])
  {
    assert StripLeft(t) == t;
  }

  lemma JoinWordsCons(w: string, ws: seq<string>)
    requires ws != []
    ensures JoinWords([w] + ws) == w + " " + JoinWords(ws)
  {
    assert ([w] + ws)[1..] == ws;
  }

  /** A text that starts with whitespace collapses to ' ' followed by the
      collapsed rest, and has the words of the rest. */
  lemma CollapseSpaceHead(r: string)
    requires r != [] && IsSpace(r[0])
    ensures CollapseRuns(r) == " " + CollapseRuns(StripLeft(r))
    ensures Words(r) == Words(StripLeft(r))
    ensures Trail(r) == if StripLeft(r) == [] then " " else Trail(StripLeft(r))
  {
    assert StripLeft(r) == StripLeft(r[1..]);
    WordsStripLeft(r);
    TrailStripLeft(r);
  }

  lemma TrailStripLeft(r: string)
    requires r != [] && IsSpace(r[0])
    ensures Trail(r) == if StripLeft(r) == [] then " " else Trail(StripLeft(r))
  {
    var u := StripLeft(r);
    StripLeftSuffix(r);
    if u == [] {
      assert IsSpace(r[|r| - 1]);
    } else {
      assert u[|u| - 1] == r[|r| - 1];
    }
  }

  /** A text that is a single word collapses to itself and has that one
      word. */
  lemma WordOnly(t: string)
    requires t != [] && !IsSpace(t[0]) && t[|FirstWord(t)|..] == []
    ensures CollapseRuns(t) == JoinWords(Words(t)) + Trail(t)
  {
    var w := FirstWord(t);
    FirstWordIsWord(t);
    FirstWordPrefix(t);
    CollapseWord(t);
    WordsCons(t);
    assert Words(t[|w|..]) == [];
    assert t == w;
    assert CollapseRuns(t[|w|..]) == [];
    assert Trail(t) == "";
  }

  /** After a first word that does not fill the text comes whitespace. */
  lemma GapAfterWord(t: string)
    requires t != [] && !IsSpace(t[0]) && t[|FirstWord(t)|..] != []
    ensures IsSpace(t[|FirstWord(t)|..][0])
  {
    FirstWordPrefix(t);
  }

  /** A word followed by whitespace collapses to the word, one space, and
      the collapse of what follows the gap. */
  lemma WordGapCollapse(t: string)
    requires t != [] && !IsSpace(t[0]) && t[|FirstWord(t)|..] != []
    ensures CollapseRuns(t) == FirstWord(t) + " " + CollapseRuns(StripLeft(t[|FirstWord(t)|..]))
  {
    var w := FirstWord(t);
    var r := t[|w|..];
    GapAfterWord(t);
    CollapseWord(t);
    assert CollapseRuns(r) == " " + CollapseRuns(StripLeft(r[1..]));
    assert StripLeft(r) == StripLeft(r[1..]);
    assert w + (" " + CollapseRuns(StripLeft(r))) == w + " " + CollapseRuns(StripLeft(r));
  }

  /** The words of a word followed by whitespace: that word, then the
      words after the gap. */
  lemma WordGapWords(t: string)
    requires t != [] && !IsSpace(t[0]) && t[|FirstWord(t)|..] != []
    ensures Words(t) == [FirstWord(t)] + Words(StripLeft(t[|FirstWord(t)|..]))
  {
    WordsCons(t);
    WordsStripLeft(t[|FirstWord(t)|..]);
  }

  /** The trailing space of a word followed by whitespace is decided by
      what follows the gap. */
  lemma WordGapTrail(t: string)
    requires t != [] && !IsSpace(t[0]) && t[|FirstWord(t)|..] != []
    ensures var u := StripLeft(t[|FirstWord(t)|..]);
      Trail(t) == if u == [] then " " else Trail(u)
  {
    var r := t[|FirstWord(t)|..];
    GapAfterWord(t);
    assert Trail(t) == Trail(r) by {
      assert r[|r| - 1] == t[|t| - 1];
    }
    TrailStripLeft(r);
  }

  /** A text with no leading whitespace collapses to its words joined by
      single spaces, plus one trailing space if it ended in whitespace. */
  lemma {:induction false} CollapseFromWord(t: string)
    requires t == [] || !IsSpace(t[0])
    ensures CollapseRuns(t) == JoinWords(Words(t)) + Trail(t)
    decreases |t|
  {
    if t != [] {
      var w := FirstWord(t);
      var r := t[|w|..];
      if r == [] {
        WordOnly(t);
      } else {
        var u := StripLeft(r);
        WordGapCollapse(t);
        WordGapWords(t);
        WordGapTrail(t);
        if u == [] {
          assert Words(u) == [];
          assert JoinWords([w]) == w;
        } else {
          assert |u| < |t| by {
            FirstWordIsWord(t);
          }
          CollapseFromWord(u);
          WordsCons(u);
          JoinWordsCons(w, Words(u));
          calc {
            CollapseRuns(t);
            w + " " + CollapseRuns(u);
            w + " " + (JoinWords(Words(u)) + Trail(u));
            (w + " " + JoinWords(Words(u))) + Trail(u);
            JoinWords([w] + Words(u)) + Trail(t);
          }
        }
      }
    }
  }

  /** Stripping the left end of a text that starts with at most one
      space before a non-whitespace character removes just that space. */
  lemma StripLeftLead(lead: string, x: string)
    requires lead == "" || lead == " "
    requires x != [] && !IsSpace(x[0])
    ensures StripLeft(lead + x) == x
  {
    if lead == "" {
      assert lead + x == x;
    } else {
      assert (lead + x)[1..] == x;
    }
  }

  /** Stripping the right end of a text that ends in a non-whitespace
      character and at most one space removes just that space. */
  lemma StripRightTrail(x: string, trail: string)
    requires trail == "" || trail == " "
    requires x != [] && !IsSpace(x[|x| - 1])
    ensures StripRight(x + trail) == x
  {
    if trail == "" {
      assert x + trail == x;
    } else {
      assert (x + trail)[..|x|] == x;
    }
  }

  /** Stripping a single space in front of, and one behind, a normalized
      non-empty text gives that text back. */
  lemma StripAround(lead: string, j: string, trail: string)
    requires lead == "" || lead == " "
    requires trail == "" || trail == " "
    requires j != [] && Normalized(j)
    ensures Strip(lead + j + trail) == j
  {
    assert lead + j + trail == lead + (j + trail);
    StripLeftLead(lead, j + trail);
    StripRightTrail(j, trail);
  }

  lemma AppendAssoc(x: string, y: string, z: string)
    ensures (x + y) + z == x + (y + z)
  {
  }

  /** A single space if s starts with whitespace. */
  function Lead(s: string): string {
    if s != [] && IsSpace(s[0]) then " " else ""
  }

  /** Leading whitespace collapses to one space in front of the collapsed
      rest. */
  lemma CollapseLead(s: string)
    ensures CollapseRuns(s) == Lead(s) + CollapseRuns(StripLeft(s))
  {
    if s != [] && IsSpace(s[0]) {
      CollapseSpaceHead(s);
    } else {
      assert StripLeft(s) == s;
    }
  }

  /** The words of a text with at least one word, put back together and
      set between the collapsed leading and trailing whitespace, strip
      back to the words. */
  lemma StripJoined(s: string)
    requires StripLeft(s) != []
    ensures Strip(Lead(s) + JoinWords(Words(StripLeft(s))) + Trail(StripLeft(s)))
            == JoinWords(Words(StripLeft(s)))
  {
    var u := StripLeft(s);
    WordsCons(u);
    WordsAreWords(u);
    JoinWordsNormalized(Words(u));
    StripAround(Lead(s), JoinWords(Words(u)), Trail(u));
  }

  /** A text of whitespace only normalises to "" and has no words. */
  lemma NormalizeNoWords(s: string)
    requires StripLeft(s) == []
    ensures Normalize(s) == [] && Words(s) == []
  {
    CollapseLead(s);
    assert CollapseRuns(StripLeft(s)) == [];
    assert Strip(Lead(s)) == [];
  }

  /** A text with a word normalises to its words joined. */
  lemma NormalizeSomeWords(s: string)
    requires StripLeft(s) != []
    ensures Normalize(s) == JoinWords(Words(StripLeft(s)))
  {
    var u := StripLeft(s);
    var j := JoinWords(Words(u));
    CollapseLead(s);
    CollapseFromWord(u);
    StripJoined(s);
    AppendAssoc(Lead(s), j, Trail(u));
  }

  /** Normalize agrees with the reference definition " ".join(s.split()). */
  lemma NormalizeIsJoinedWords(s: string)
    ensures Normalize(s) == JoinWords(Words(s))
  {
    if StripLeft(s) == [] {
      NormalizeNoWords(s);
    } else {
      NormalizeSomeWords(s);
      WordsStripLeft(s);
    }
  }

  /** Normalize's result has no whitespace at either
      end, never two whitespace characters in a row, and only ' '. */
  lemma NormalizeNormalized(s: string)
    ensures Normalized(Normalize(s))
  {
    NormalizeIsJoinedWords(s);
    WordsAreWords(s);
    JoinWordsNormalized(Words(s));
  }

  /** A text of the normalised shape is left alone. */
  lemma {:induction false} CollapseSingleSpaced(s: string)
    requires forall i :: 0 <= i < |s| && IsSpace(s[i]) ==> s[i] == ' '
    requires forall i :: 0 <= i < |s| - 1 && IsSpace(s[i]) ==> !IsSpace(s[i + 1])
    ensures CollapseRuns(s) == s
  {
    if s != [] {
      var t := s[1..];
      assert s == [s[0]] + t;
      forall i | 0 <= i < |t| && IsSpace(t[i]) ensures t[i] == ' ' {
        assert t[i] == s[i + 1];
      }
      forall i | 0 <= i < |t| - 1 && IsSpace(t[i]) ensures !IsSpace(t[i + 1]) {
        assert t[i] == s[i + 1] && t[i + 1] == s[i + 2];
      }
      CollapseSingleSpaced(t);
      if IsSpace(s[0]) {
        assert t != [] ==> t[0] == s[1];
        assert StripLeft(t) == t;
        assert CollapseRuns(s) == [' '] + CollapseRuns(t);
      } else {
        assert CollapseRuns(s) == [s[0]] + CollapseRuns(t);
      }
    }
  }

  lemma NormalizedFixpoint(s: string)
    requires Normalized(s)
    ensures Normalize(s) == s
  {
    CollapseSingleSpaced(s);
  }

  /** Normalize is idempotent. */
  lemma NormalizeIdempotent(s: string)
    ensures Normalize(Normalize(s)) == Normalize(s)
  {
    NormalizeNormalized(s);
    NormalizedFixpoint(Normalize(s));
  }

  // ---------------------------------------------------------------------
  // Normalize changes only whitespace

  lemma {:induction false} NonSpaceAppend(a: string, b: string)
    ensures NonSpace(a + b) == NonSpace(a) + NonSpace(b)
  {
    if a != [] {
      NonSpaceAppend(a[1..], b);
      assert (a + b)[0] == a[0];
      assert (a + b)[1..] == a[1..] + b;
      if IsSpace(a[0]) {
        assert NonSpace(a + b) == NonSpace(a[1..] + b);
      } else {
        calc {
          NonSpace(a + b);
          [a[0]] + NonSpace(a[1..] + b);
          [a[0]] + (NonSpace(a[1..]) + NonSpace(b));
          ([a[0]] + NonSpace(a[1..])) + NonSpace(b);
          NonSpace(a) + NonSpace(b);
        }
      }
    } else {
      assert a + b == b;
    }
  }

  lemma {:induction false} NonSpaceStripLeft(s: string)
    ensures NonSpace(StripLeft(s)) == NonSpace(s)
  {
    if s != [] && IsSpace(s[0]) {
      NonSpaceStripLeft(s[1..]);
    }
  }

  lemma {:induction false} NonSpaceStripRight(s: string)
    ensures NonSpace(StripRight(s)) == NonSpace(s)
  {
    if s != [] && IsSpace(s[|s| - 1]) {
      var p := s[..|s| - 1];
      NonSpaceStripRight(p);
      assert s == p + [s[|s| - 1]];
      NonSpaceAppend(p, [s[|s| - 1]]);
    }
  }

  lemma {:induction false} NonSpaceCollapse(s: string)
    ensures NonSpace(CollapseRuns(s)) == NonSpace(s)
    decreases |s|
  {
    if s != [] {
      if IsSpace(s[0]) {
        var u := StripLeft(s[1..]);
        NonSpaceCollapse(u);
        NonSpaceStripLeft(s[1..]);
        NonSpaceAppend([' '], CollapseRuns(u));
      } else {
        NonSpaceCollapse(s[1..]);
        NonSpaceAppend([s[0]], CollapseRuns(s[1..]));
      }
    }
  }

  /** Deleting whitespace from Normalize's result gives the input with its
      whitespace deleted: the other characters survive unchanged and in
      order. */
  lemma NonSpaceNormalize(s: string)
    ensures NonSpace(Normalize(s)) == NonSpace(s)
  {
    NonSpaceCollapse(s);
    NonSpaceStripLeft(CollapseRuns(s));
    NonSpaceStripRight(StripLeft(CollapseRuns(s)));
  }

  /** Normalize's result is empty exactly when the input is all whitespace. */
  lemma NormalizeEmpty(s: string)
    ensures Normalize(s) == [] <==> NonSpace(s) == []
  {
    NonSpaceNormalize(s);
    NormalizeNormalized(s);
    var r := Normalize(s);
    if r != [] {
      assert NonSpace(r) == [r[0]] + NonSpace(r[1..]);
    }
  }

  /** Collapsing introduces no character other than ' '. */
  lemma {:induction false} CollapseChars(s: string)
    ensures forall c :: c in CollapseRuns(s) ==> c == ' ' || c in s
    decreases |s|
  {
    if s != [] {
      if IsSpace(s[0]) {
        var u := StripLeft(s[1..]);
        CollapseChars(u);
        StripLeftSuffix(s[1..]);
        assert forall c :: c in u ==> c in s;
      } else {
        CollapseChars(s[1..]);
      }
    }
  }

  /** Every character of Normalize's result is ' ' or comes from the input. */
  lemma NormalizeChars(s: string)
    ensures forall c :: c in Normalize(s) ==> c == ' ' || c in s
  {
    var c1 := CollapseRuns(s);
    var c2 := StripLeft(c1);
    CollapseChars(s);
    StripLeftSuffix(c1);
    StripRightPrefix(c2);
    assert forall c :: c in Normalize(s) ==> c in c2;
    assert forall c :: c in c2 ==> c in c1;
  }

  /** If every occurrence of x (itself not whitespace) is followed by
      whitespace, collapsing the runs keeps that so. */
  predicate FollowedBySpace(s: string, x: char) {
    forall i :: 0 <= i < |s| - 1 && s[i] == x ==> IsSpace(s[i + 1])
  }

  lemma {:induction false} CollapseFollowedBySpace(s: string, x: char)
    requires !IsSpace(x) && FollowedBySpace(s, x)
    ensures FollowedBySpace(CollapseRuns(s), x)
    decreases |s|
  {
    if s != [] {
      if IsSpace(s[0]) {
        var u := StripLeft(s[1..]);
        StripLeftSuffix(s[1..]);
        assert FollowedBySpace(u, x) by {
          var d := |s| - |u|;
          assert forall i :: 0 <= i < |u| ==> u[i] == s[i + d];
        }
        CollapseFollowedBySpace(u, x);
      } else {
        var t := s[1..];
        assert FollowedBySpace(t, x) by {
          assert forall i :: 0 <= i < |t| ==> t[i] == s[i + 1];
        }
        CollapseFollowedBySpace(t, x);
        if s[0] == x && t != [] {
          assert IsSpace(t[0]);
          assert CollapseRuns(t)[0] == ' ';
        }
      }
    }
  }

  lemma StripFollowedBySpace(s: string, x: char)
    requires FollowedBySpace(s, x)
    ensures FollowedBySpace(Strip(s), x)
  {
    var l := StripLeft(s);
    StripLeftSuffix(s);
    StripRightPrefix(l);
    var d := |s| - |l|;
    assert forall i :: 0 <= i < |l| ==> l[i] == s[i + d];
    var r := StripRight(l);
    assert forall i :: 0 <= i < |r| ==> r[i] == l[i];
  }
}
