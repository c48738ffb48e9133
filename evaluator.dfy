/** Accuracy evaluation of a corrected text against a reference text: two
    deliberately different normalisations, the character error rate (CER)
    on the strict one, the character accuracy on the light one, and the
    report that combines them. Ratios are exact rationals (`real`). */
module Evaluator {
  import opened Strings
  import opened Levenshtein

  // ---------------------------------------------------------------------
  // Light normalisation (character accuracy)

  /** Words separated by single spaces: every whitespace character is a
      space with a non-whitespace character on each side, so there is no
      leading, trailing or doubled whitespace. */
  predicate SingleSpaced(s: string) {
    forall k :: 0 <= k < |s| && IsSpace(s[k]) ==>
      s[k] == ' ' && 0 < k < |s| - 1 && !IsSpace(s[k - 1]) && !IsSpace(s[k + 1])
  }

  /** No upper-case letter. */
  predicate LowerCase(s: string) {
    forall k :: 0 <= k < |s| ==> !IsUpper(s[k])
  }

  /** `" ".join(text.split()).lower()`: the words of `text`, lower-cased and
      separated by single spaces. */
  function LightNormalize(text: string): (r: string)
    ensures SingleSpaced(r) && LowerCase(r)
    ensures NonSpaceChars(r) == Lower(NonSpaceChars(text))
    ensures r == [] <==> AllSpace(text)
    ensures Words(r) == LowerAll(Words(text))
  {
    var ws := Words(text);
    WordsOfJoin(ws);
    WordsOfLower(Join(ws, " "));
    JoinWordsSingleSpaced(ws);
    NonSpaceCharsOfJoin(ws);
    NonSpaceCharsOfLower(Join(ws, " "));
    LowerSingleSpaced(Join(ws, " "));
    NonSpaceCharsOfNoSpace(NonSpaceChars(text));
    WordsEmpty(text);
    Lower(Join(ws, " "))
  }

  /** After a whitespace character, the rest of a single-spaced text is
      single-spaced and starts with a non-whitespace character. */
  lemma SingleSpacedSuffix(s: string, m: nat)
    requires SingleSpaced(s) && 0 < m < |s| && IsSpace(s[m - 1])
    ensures s[m - 1] == ' ' && !IsSpace(s[m]) && SingleSpaced(s[m..])
  {
    var u := s[m..];
    forall k | 0 <= k < |u| && IsSpace(u[k])
      ensures u[k] == ' ' && 0 < k < |u| - 1 && !IsSpace(u[k - 1]) && !IsSpace(u[k + 1])
    {
      assert u[k] == s[m + k];
    }
  }

  /** The words of a text that starts with a word followed by one whitespace
      character and a further word: the first word, then the words after it. */
  lemma WordsAtSpace(s: string, m: nat)
    requires s != [] && !IsSpace(s[0]) && m == |LeadingWord(s)| + 1 && m < |s| && !IsSpace(s[m])
    ensures Words(s) == [LeadingWord(s)] + Words(s[m..]) && Words(s[m..]) != []
  {
    var w := LeadingWord(s);
    WordsAfterWord(s);
    WordsSkipSpace(s[|w|..]);
    assert s[|w|..][1..] == s[m..];
  }

  /** A word, one space and the single-spaced rest: the join of the word and
      the rest's words. */
  lemma JoinAtSpace(s: string, w: string, u: string, ws: seq<string>)
    requires |w| < |s| && s[..|w|] == w && s[|w|] == ' ' && u == s[|w| + 1..]
    requires ws != [] && Join(ws, " ") == u
    ensures s == Join([w] + ws, " ")
  {
    JoinCons(w, ws, " ");
    assert s == s[..|w|] + [s[|w|]] + s[|w| + 1..];
  }

  /** A single-spaced text is its own words joined with single spaces. */
  lemma {:induction false} SingleSpacedIsJoin(s: string)
    requires SingleSpaced(s)
    ensures s == Join(Words(s), " ")
    decreases |s|
  {
    if s != [] {
      assert !IsSpace(s[0]);
      var w := LeadingWord(s);
      if |w| == |s| {
        WordsAfterWord(s);
        WordsStep(s[|w|..]);
      } else {
        var m := |w| + 1;
        SingleSpacedSuffix(s, m);
        WordsAtSpace(s, m);
        SingleSpacedIsJoin(s[m..]);
        JoinAtSpace(s, w, s[m..], Words(s[m..]));
      }
    }
  }

  /** The contract of `LightNormalize` pins its result down: a single-spaced
      text with the lower-cased words of `text` is `LightNormalize(text)`. */
  lemma LightNormalFormUnique(text: string, r: string)
    requires SingleSpaced(r) && Words(r) == LowerAll(Words(text))
    ensures r == LightNormalize(text)
  {
    SingleSpacedIsJoin(r);
    SingleSpacedIsJoin(LightNormalize(text));
  }

  /** `Words` finds no word exactly in a blank text. */
  lemma WordsEmpty(text: string)
    ensures Words(text) == [] <==> AllSpace(text)
  {
    var ws := Words(text);
    ConcatOfWords(ws);
    if AllSpace(text) {
      NonSpaceCharsOfAllSpace(text);
    } else {
      var k :| 0 <= k < |text| && !IsSpace(text[k]);
      NonSpaceCharsAppend(text[..k], text[k..]);
      assert text == text[..k] + text[k..];
      assert text[k..] == [text[k]] + text[k + 1..];
      assert NonSpaceChars(text[k..]) != [];
    }
  }

  /** Non-empty words concatenate to the empty string only when there are none. */
  lemma ConcatOfWords(ws: seq<string>)
    requires forall k :: 0 <= k < |ws| ==> ws[k] != []
    ensures Concat(ws) == [] <==> ws == []
  {
    if ws != [] {
      assert Concat(ws) == ws[0] + Concat(ws[1..]);
    }
  }

  /** Joining non-empty whitespace-free words with single spaces. */
  lemma {:induction false} JoinWordsSingleSpaced(ws: seq<string>)
    requires forall k :: 0 <= k < |ws| ==> ws[k] != [] && NoSpace(ws[k])
    ensures SingleSpaced(Join(ws, " "))
    ensures ws != [] ==> Join(ws, " ") != []
  {
    if |ws| > 1 {
      var w := ws[0];
      var rest := Join(ws[1..], " ");
      JoinWordsSingleSpaced(ws[1..]);
      assert ws[1..][0] == ws[1];
      var s := w + " " + rest;
      assert Join(ws, " ") == s;
      assert !IsSpace(rest[0]) && !IsSpace(rest[|rest| - 1]);
      forall k | 0 <= k < |s| && IsSpace(s[k])
        ensures s[k] == ' ' && 0 < k < |s| - 1 && !IsSpace(s[k - 1]) && !IsSpace(s[k + 1])
      {
        if k > |w| {
          assert s[k] == rest[k - |w| - 1];
          assert s[k - 1] == (if k - 1 == |w| then ' ' else rest[k - |w| - 2]);
        }
      }
    }
  }

  /** Lower-casing keeps a text single-spaced. */
  lemma LowerSingleSpaced(s: string)
    requires SingleSpaced(s)
    ensures SingleSpaced(Lower(s))
  {
    forall k | 0 <= k < |s| ensures IsSpace(Lower(s)[k]) == IsSpace(s[k]) {
      SpaceOfLower(s[k]);
    }
  }

  // ---------------------------------------------------------------------
  // Strict normalisation (CER)

  /** `re.sub(r'[^\w\s]', '', s)`: the word characters and whitespace of `s`. */
  function KeepWordAndSpace(s: string): (r: string)
    ensures |r| <= |s|
    ensures forall k :: 0 <= k < |r| ==> IsWordChar(r[k]) || IsSpace(r[k])
    ensures (forall k :: 0 <= k < |s| ==> IsWordChar(s[k]) || IsSpace(s[k])) ==> r == s
  {
    if s == [] then []
    else if IsWordChar(s[0]) || IsSpace(s[0]) then [s[0]] + KeepWordAndSpace(s[1..])
    else KeepWordAndSpace(s[1..])
  }

  /** The filter works character by character: filtering a concatenation
      filters each part, so every word character and every whitespace
      character is kept, in order, and nothing else. */
  lemma {:induction false} KeepWordAndSpaceAppend(a: string, b: string)
    ensures KeepWordAndSpace(a + b) == KeepWordAndSpace(a) + KeepWordAndSpace(b)
  {
    if a == [] {
      assert a + b == b;
    } else {
      assert (a + b)[0] == a[0];
      assert (a + b)[1..] == a[1..] + b;
      KeepWordAndSpaceAppend(a[1..], b);
    }
  }

  /** The word characters of `s`, in order. */
  function WordChars(s: string): (r: string)
    ensures forall k :: 0 <= k < |r| ==> IsWordChar(r[k])
  {
    if s == [] then []
    else if IsWordChar(s[0]) then [s[0]] + WordChars(s[1..])
    else WordChars(s[1..])
  }

  /** Dropping whitespace after keeping word characters and whitespace
      keeps exactly the word characters (no word character is whitespace). */
  lemma {:induction false} NonSpaceOfKept(s: string)
    ensures NonSpaceChars(KeepWordAndSpace(s)) == WordChars(s)
  {
    if s != [] {
      NonSpaceOfKept(s[1..]);
      if IsWordChar(s[0]) || IsSpace(s[0]) {
        assert ([s[0]] + KeepWordAndSpace(s[1..]))[1..] == KeepWordAndSpace(s[1..]);
      }
    }
  }

  /** The strict normalisation of `calculate_cer`: lower-case, drop every
      character that is neither a word character nor whitespace, then join
      the whitespace-separated words with nothing. The result is exactly the
      lower-cased word characters of the text. */
  function StrictNormalize(text: string): (r: string)
    ensures r == WordChars(Lower(text))
  {
    var kept := KeepWordAndSpace(Lower(text));
    NonSpaceOfKept(Lower(text));
    Concat(Words(kept))
  }

  /** Every character of a word-character string is kept by `WordChars`. */
  lemma {:induction false} WordCharsOfWordChars(s: string)
    requires forall k :: 0 <= k < |s| ==> IsWordChar(s[k])
    ensures WordChars(s) == s
  {
    if s != [] { WordCharsOfWordChars(s[1..]); }
  }

  /** `WordChars` keeps lower-case input lower-case. */
  lemma {:induction false} WordCharsLowerCase(s: string)
    requires LowerCase(s)
    ensures LowerCase(WordChars(s))
  {
    if s != [] {
      WordCharsLowerCase(s[1..]);
      if IsWordChar(s[0]) {
        assert forall k :: 1 <= k < |WordChars(s)| ==> WordChars(s)[k] == WordChars(s[1..])[k - 1];
      }
    }
  }

  /** A lower-case string is its own lower-case form. */
  lemma LowerOfLowerCase(s: string)
    requires LowerCase(s)
    ensures Lower(s) == s
  {
  }

  /** The strict normal form holds only lower-case word characters (so no
      whitespace), and normalising it again changes nothing. */
  lemma StrictNormalForm(text: string)
    ensures forall k :: 0 <= k < |StrictNormalize(text)| ==>
      IsWordChar(StrictNormalize(text)[k]) && !IsSpace(StrictNormalize(text)[k]) && !IsUpper(StrictNormalize(text)[k])
    ensures StrictNormalize(StrictNormalize(text)) == StrictNormalize(text)
  {
    var r := StrictNormalize(text);
    WordCharsLowerCase(Lower(text));
    LowerOfLowerCase(r);
    WordCharsOfWordChars(r);
  }

  // ---------------------------------------------------------------------
  // Metrics

  /** `Evaluator.calculate_cer`: the edit distance between the strictly
      normalised texts divided by the length of the normalised reference,
      or 0 when that is empty. */
  function Cer(predicted: string, groundTruth: string): (r: real)
    ensures r >= 0.0
    ensures StrictNormalize(groundTruth) == [] ==> r == 0.0
    ensures StrictNormalize(groundTruth) != [] ==>
      (r == 0.0 <==> StrictNormalize(predicted) == StrictNormalize(groundTruth))
  {
    ErrorRate(StrictNormalize(predicted), StrictNormalize(groundTruth))
  }

  /** Edits per reference character, 0 for an empty reference. */
  function ErrorRate(p: string, g: string): (r: real)
    ensures r >= 0.0
    ensures g == [] ==> r == 0.0
    ensures g != [] ==> (r == 0.0 <==> p == g)
  {
    DistanceZero(p, g);
    if g == [] then 0.0 else Distance(p, g) as real / |g| as real
  }

  /** The rate times the reference length is the number of edits, and the
      rate is at most 1 when the text is not longer than the reference. */
  lemma ErrorRateEdits(p: string, g: string)
    requires g != []
    ensures ErrorRate(p, g) * |g| as real == Distance(p, g) as real
    ensures |p| <= |g| ==> ErrorRate(p, g) <= 1.0
  {
    DistanceBounds(p, g);
    Ratio(ErrorRate(p, g), Distance(p, g) as real, |g| as real, |g| as real);
  }

  /** CER is at most 1 when the normalised text is not longer than the
      normalised reference: every edit then touches a reference character. */
  lemma CerAtMostOne(predicted: string, groundTruth: string)
    requires |StrictNormalize(predicted)| <= |StrictNormalize(groundTruth)|
    ensures Cer(predicted, groundTruth) <= 1.0
  {
    var g := StrictNormalize(groundTruth);
    if g != [] {
      ErrorRateEdits(StrictNormalize(predicted), g);
    }
  }

  /** A ratio times its denominator is its numerator, and a numerator not
      above the bound gives a ratio not above bound / denominator. */
  lemma Ratio(c: real, d: real, m: real, n: real)
    requires n > 0.0 && c == d / n
    ensures c * n == d
    ensures d <= m ==> c <= m / n
    ensures d <= n ==> c <= 1.0
  {
  }

  /** CER of any text against itself is 0, the reference being empty or not. */
  lemma CerOfSelf(text: string)
    ensures Cer(text, text) == 0.0
  {
  }

  /** `Evaluator.calculate_char_accuracy`: with light normalisation, 100 or
      0 when the reference is blank (100 only if the text is blank too);
      otherwise `(1 - d / n) * 100` for the edit distance `d` and reference
      length `n`, not clamped. */
  function CharAccuracy(groundTruth: string, corrected: string): (r: real)
    ensures r <= 100.0
    ensures AllSpace(groundTruth) ==> r == if AllSpace(corrected) then 100.0 else 0.0
    ensures !AllSpace(groundTruth) ==>
      (r == 100.0 <==> LightNormalize(corrected) == LightNormalize(groundTruth))
    ensures !AllSpace(groundTruth) ==>
      (r < 0.0 <==> Distance(LightNormalize(groundTruth), LightNormalize(corrected)) > |LightNormalize(groundTruth)|)
  {
    var g := LightNormalize(groundTruth);
    var o := LightNormalize(corrected);
    if g == [] then
      (if o != [] then 0.0 else 100.0)
    else
      var d := Distance(g, o);
      DistanceZero(g, o);
      DistanceZero(o, g);
      AccuracyRange(d, |g|);
      (1.0 - d as real / |g| as real) * 100.0
  }

  /** The accuracy formula is at most 100, equal to 100 exactly when no
      edit is needed, and negative exactly when the edits outnumber the
      reference characters. */
  lemma AccuracyRange(d: nat, n: nat)
    requires n > 0
    ensures (1.0 - d as real / n as real) * 100.0 <= 100.0
    ensures (1.0 - d as real / n as real) * 100.0 == 100.0 <==> d == 0
    ensures (1.0 - d as real / n as real) * 100.0 < 0.0 <==> d > n
  {
    var q := d as real / n as real;
    assert q * n as real == d as real;
    if d > n {
      assert q > 1.0;
    } else {
      assert q <= 1.0;
    }
  }

  /** The accuracy is bounded below by the lengths: it can reach
      `100 - 100 * |text| / |reference|` but never fall further. */
  lemma CharAccuracyLowerBound(groundTruth: string, corrected: string)
    requires !AllSpace(groundTruth)
    ensures CharAccuracy(groundTruth, corrected) >=
      100.0 - 100.0 * (Longer(LightNormalize(groundTruth), LightNormalize(corrected)) as real
                       / |LightNormalize(groundTruth)| as real)
  {
    var g := LightNormalize(groundTruth);
    var o := LightNormalize(corrected);
    DistanceBounds(g, o);
    var d := Distance(g, o) as real;
    Ratio(d / |g| as real, d, Longer(g, o) as real, |g| as real);
  }

  /** The length of the longer of two strings. */
  function Longer(a: string, b: string): nat {
    if |a| <= |b| then |b| else |a|
  }

  // ---------------------------------------------------------------------
  // Report

  /** The report dictionary of `get_accuracy_report`. */
  datatype AccuracyReport = AccuracyReport(correctedCer: real, characterAccuracy: real, rawLength: nat)

  /** `Evaluator.get_accuracy_report`: CER as a percentage, the character
      accuracy as computed, and the number of non-whitespace characters of
      the reference as given (`len(''.join(text.split()))`). */
  function AccuracyReportOf(corrected: string, groundTruth: string): (r: AccuracyReport)
    ensures r.correctedCer >= 0.0 && r.characterAccuracy <= 100.0
    ensures r.rawLength == CountNonSpace(groundTruth)
    ensures StrictNormalize(groundTruth) == [] ==> r.correctedCer == 0.0
  {
    var ws := Words(groundTruth);
    NonSpaceCharsCount(groundTruth);
    AccuracyReport(Cer(corrected, groundTruth) * 100.0,
                   CharAccuracy(groundTruth, corrected),
                   |Concat(ws)|)
  }

  /** The report's fields are the two metrics, CER scaled to a percentage. */
  lemma ReportFields(corrected: string, groundTruth: string)
    ensures AccuracyReportOf(corrected, groundTruth).correctedCer == Cer(corrected, groundTruth) * 100.0
    ensures AccuracyReportOf(corrected, groundTruth).characterAccuracy == CharAccuracy(groundTruth, corrected)
  {
  }
}
