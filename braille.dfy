/** Grade-1 (uncontracted) Braille transliteration: a per-character state
    machine whose only state is whether the previous character was a digit. */
module Braille {
  import opened Strings

  /** Prefix cell that opens a run of digits. */
  const NumberSign: char := '⠼'
  /** One-shot prefix cell before an upper-case letter. */
  const CapSign: char := '⠠'

  /** The letter table: cells of the 26 lower-case letters, space, line
      feed and eleven punctuation marks; `None` for every other character. */
  function Letters(c: char): (r: Option<char>)
    ensures 'a' <= c <= 'z' ==> r.Some?
    ensures r.Some? ==> !IsUpper(c) && !IsDigit(c)
    ensures r.Some? ==> r.value != NumberSign && r.value != CapSign
  {
    match c
    case 'a' => Some('⠁') case 'b' => Some('⠃') case 'c' => Some('⠉')
    case 'd' => Some('⠙') case 'e' => Some('⠑') case 'f' => Some('⠋')
    case 'g' => Some('⠛') case 'h' => Some('⠓') case 'i' => Some('⠊')
    case 'j' => Some('⠚') case 'k' => Some('⠅') case 'l' => Some('⠇')
    case 'm' => Some('⠍') case 'n' => Some('⠝') case 'o' => Some('⠕')
    case 'p' => Some('⠏') case 'q' => Some('⠟') case 'r' => Some('⠗')
    case 's' => Some('⠎') case 't' => Some('⠞') case 'u' => Some('⠥')
    case 'v' => Some('⠧') case 'w' => Some('⠺') case 'x' => Some('⠭')
    case 'y' => Some('⠽') case 'z' => Some('⠵') case ' ' => Some(' ')
    case '\n' => Some('\n') case ',' => Some('⠂') case ';' => Some('⠆')
    case ':' => Some('⠒') case '.' => Some('⠲') case '!' => Some('⠖')
    case '(' => Some('⠶') case ')' => Some('⠶') case '?' => Some('⠦')
    case '"' => Some('⠶') case '\'' => Some('⠄') case '-' => Some('⠤')
    case _ => None
  }

  /** The number table: the digits 1-9 and 0, on the cells of a-j. */
  function Numbers(c: char): (r: Option<char>)
    ensures r.Some? <==> IsDigit(c)
    ensures r.Some? ==> r.value != NumberSign && r.value != CapSign
  {
    match c
    case '1' => Some('⠁') case '2' => Some('⠃') case '3' => Some('⠉')
    case '4' => Some('⠙') case '5' => Some('⠑') case '6' => Some('⠋')
    case '7' => Some('⠛') case '8' => Some('⠓') case '9' => Some('⠊')
    case '0' => Some('⠚')
    case _ => None
  }

  /** The cell of a non-digit character that is not upper case: its table
      entry, or a space when the table has none. */
  function Cell(c: char): (r: char)
    ensures IsTableCell(r) && r != NumberSign && r != CapSign
    ensures Letters(c).Some? ==> r == Letters(c).value
    ensures Letters(c).None? ==> r == ' '
  {
    assert Letters(' ') == Some(' ');
    match Letters(c)
    case Some(x) => x
    case None => ' '
  }

  /** The cells one input character produces, given whether the character
      before it was a digit (that is, whether number mode is on). */
  function Emit(c: char, afterDigit: bool): (r: string)
    ensures 1 <= |r| <= 2
  {
    if IsDigit(c) then
      (if afterDigit then [] else [NumberSign]) + (match Numbers(c) case Some(x) => [x] case None => [])
    else if IsUpper(c) then
      [CapSign, Cell(ToLower(c))]
    else
      [Cell(c)]
  }

  /** Number mode is on before position `i` exactly when `text[i - 1]` is a digit. */
  predicate AfterDigit(text: string, i: int)
    requires 0 <= i <= |text|
  {
    i > 0 && IsDigit(text[i - 1])
  }

  /** The cells of the first `n` characters of `text`, from the left. */
  function TranslatedPrefix(text: string, n: nat): string
    requires n <= |text|
  {
    if n == 0 then [] else TranslatedPrefix(text, n - 1) + Emit(text[n - 1], AfterDigit(text, n - 1))
  }

  /** The translation of `text`. */
  function Transliteration(text: string): (r: string)
    ensures |r| >= |text|
    ensures r == [] <==> text == []
  {
    PrefixCounts(text, |text|);
    TranslatedPrefix(text, |text|)
  }

  /** `BrailleTranslator.translate`: one pass over the characters, carrying the
      number-mode flag, which every call starts off. */
  method Translate(text: string) returns (out: string)
    ensures out == Transliteration(text)
  {
    out := [];
    var numberMode := false;
    for i := 0 to |text|
      invariant out == TranslatedPrefix(text, i)
      invariant numberMode == AfterDigit(text, i)
    {
      ghost var before := out;
      assert TranslatedPrefix(text, i + 1) == before + Emit(text[i], numberMode);
      var c := text[i];
      if IsDigit(c) {
        if !numberMode {
          out := out + [NumberSign];
          numberMode := true;
        }
        out := out + (match Numbers(c) case Some(x) => [x] case None => []);
      } else {
        numberMode := false;
        if IsUpper(c) {
          out := out + [CapSign];
          c := ToLower(c);
        }
        match Letters(c) {
          case Some(x) => out := out + [x];
          case None => out := out + [' '];
        }
      }
    }
  }

  // ---------------------------------------------------------------------
  // Properties of the tables

  /** The digits 1-9, 0 share the cells of the letters a-j. */
  lemma DigitsShareLetterCells()
    ensures Numbers('1') == Letters('a') && Numbers('2') == Letters('b') && Numbers('3') == Letters('c')
    ensures Numbers('4') == Letters('d') && Numbers('5') == Letters('e') && Numbers('6') == Letters('f')
    ensures Numbers('7') == Letters('g') && Numbers('8') == Letters('h') && Numbers('9') == Letters('i')
    ensures Numbers('0') == Letters('j')
  {
  }

  /** A value of the letter table (space and line feed included). */
  ghost predicate IsTableCell(x: char) {
    exists c :: Letters(c) == Some(x)
  }

  /** Every cell of the number table is a cell of the letter table, and
      neither table holds the number sign or the capital sign. */
  lemma TableCells(c: char)
    ensures Numbers(c).Some? ==> IsTableCell(Numbers(c).value)
    ensures Letters(c) != Some(NumberSign) && Letters(c) != Some(CapSign)
    ensures Numbers(c) != Some(NumberSign) && Numbers(c) != Some(CapSign)
  {
    NumberCellIsLetterCell(c);
  }

  lemma NumberCellIsLetterCell(c: char)
    ensures Numbers(c).Some? ==> IsTableCell(Numbers(c).value)
  {
    if Numbers(c).Some? {
      var letter := match c
        case '1' => 'a' case '2' => 'b' case '3' => 'c' case '4' => 'd' case '5' => 'e'
        case '6' => 'f' case '7' => 'g' case '8' => 'h' case '9' => 'i' case _ => 'j';
      assert Letters(letter) == Numbers(c);
    }
  }


  // ---------------------------------------------------------------------
  // Properties of the translation

  /** What one character contributes: a digit gives its cell, preceded by
      the number sign exactly when it opens a run; an upper-case letter
      gives the capital sign and the cell of its lower-case form; any other
      character gives its table cell, or one space when it has none. */
  lemma EmitShape(c: char, afterDigit: bool)
    ensures IsDigit(c) ==> Emit(c, afterDigit) == (if afterDigit then [] else [NumberSign]) + [Numbers(c).value]
    ensures IsUpper(c) ==> Emit(c, afterDigit) == [CapSign, Letters(ToLower(c)).value]
    ensures !IsDigit(c) && !IsUpper(c) && Letters(c).Some? ==> Emit(c, afterDigit) == [Letters(c).value]
    ensures !IsDigit(c) && !IsUpper(c) && Letters(c).None? ==> Emit(c, afterDigit) == [' ']
  {
  }

  /** The translation never fails and uses only cells of the letter table
      (space and line feed among them), the number sign and the capital sign. */
  lemma OutputAlphabet(text: string)
    ensures forall k :: 0 <= k < |Transliteration(text)| ==>
      IsTableCell(Transliteration(text)[k]) || Transliteration(text)[k] in {NumberSign, CapSign}
  {
    PrefixAlphabet(text, |text|);
  }

  lemma {:induction false} PrefixAlphabet(text: string, n: nat)
    requires n <= |text|
    ensures forall k :: 0 <= k < |TranslatedPrefix(text, n)| ==>
      IsTableCell(TranslatedPrefix(text, n)[k]) || TranslatedPrefix(text, n)[k] in {NumberSign, CapSign}
  {
    if n > 0 {
      var p := TranslatedPrefix(text, n - 1);
      var e := Emit(text[n - 1], AfterDigit(text, n - 1));
      PrefixAlphabet(text, n - 1);
      EmitAlphabet(text[n - 1], AfterDigit(text, n - 1));
      forall k | 0 <= k < |p + e| ensures IsTableCell((p + e)[k]) || (p + e)[k] in {NumberSign, CapSign} {
        if k >= |p| { assert (p + e)[k] == e[k - |p|]; } else { assert (p + e)[k] == p[k]; }
      }
    }
  }

  lemma EmitAlphabet(c: char, afterDigit: bool)
    ensures forall k :: 0 <= k < |Emit(c, afterDigit)| ==>
      IsTableCell(Emit(c, afterDigit)[k]) || Emit(c, afterDigit)[k] in {NumberSign, CapSign}
  {
    EmitShape(c, afterDigit);
    TableCells(c);
    if IsUpper(c) {
      assert IsTableCell(Emit(c, afterDigit)[1]) by {
        assert Letters(ToLower(c)) == Some(Emit(c, afterDigit)[1]);
      }
    } else if !IsDigit(c) {
      if Letters(c).Some? {
        assert Letters(c) == Some(Emit(c, afterDigit)[0]);
      } else {
        assert Letters(' ') == Some(' ');
      }
    }
  }

  /** The number mode carries across the join of `a` and `b`. */
  predicate Joined(a: string, b: string) {
    a != [] && b != [] && IsDigit(a[|a| - 1]) && IsDigit(b[0])
  }

  /** Translating a concatenation: the translations of the parts, except that
      when `a` ends and `b` starts with a digit the run continues across the
      join, so the number sign opening `b`'s translation is not repeated. */
  lemma TransliterationAppend(a: string, b: string)
    ensures Transliteration(a + b) ==
      if Joined(a, b) then Transliteration(a) + Transliteration(b)[1..]
      else Transliteration(a) + Transliteration(b)
  {
    if b == [] {
      assert a + b == a;
    } else {
      AppendSuffix(a, b, |b|);
      assert |a + b| == |a| + |b|;
    }
  }

  /** The translation of a prefix depends only on that prefix. */
  lemma {:induction false} PrefixOfAppend(a: string, b: string, n: nat)
    requires n <= |a|
    ensures TranslatedPrefix(a + b, n) == TranslatedPrefix(a, n)
  {
    if n > 0 {
      PrefixOfAppend(a, b, n - 1);
      SameEmit(a, b, n);
    }
  }

  lemma SameEmit(a: string, b: string, n: nat)
    requires 0 < n <= |a|
    ensures Emit((a + b)[n - 1], AfterDigit(a + b, n - 1)) == Emit(a[n - 1], AfterDigit(a, n - 1))
  {
    assert (a + b)[n - 1] == a[n - 1];
    assert n > 1 ==> (a + b)[n - 2] == a[n - 2];
  }

  /** The part of `a + b`'s translation after `a`'s: `b`'s translation,
      without its opening number sign when the run continues from `a`. */
  predicate SuffixTranslated(a: string, b: string, m: nat)
    requires 1 <= m <= |b|
  {
    && |TranslatedPrefix(b, m)| >= 1
    && (IsDigit(b[0]) ==> TranslatedPrefix(b, m)[0] == NumberSign)
    && TranslatedPrefix(a + b, |a| + m) == TranslatedPrefix(a, |a|) +
         if Joined(a, b) then TranslatedPrefix(b, m)[1..] else TranslatedPrefix(b, m)
  }

  lemma {:induction false} AppendSuffix(a: string, b: string, m: nat)
    requires 1 <= m <= |b|
    ensures SuffixTranslated(a, b, m)
  {
    if m == 1 {
      AppendFirst(a, b);
    } else {
      AppendSuffix(a, b, m - 1);
      AppendNext(a, b, m);
    }
  }

  lemma AppendFirst(a: string, b: string)
    requires b != []
    ensures SuffixTranslated(a, b, 1)
  {
    PrefixOfAppend(a, b, |a|);
    assert (a + b)[|a|] == b[0];
    assert AfterDigit(a + b, |a|) == (a != [] && IsDigit(a[|a| - 1]));
    assert TranslatedPrefix(b, 1) == Emit(b[0], false);
    assert TranslatedPrefix(a + b, |a| + 1) == TranslatedPrefix(a, |a|) + Emit(b[0], AfterDigit(a + b, |a|));
  }

  lemma AppendNext(a: string, b: string, m: nat)
    requires 2 <= m <= |b|
    requires SuffixTranslated(a, b, m - 1)
    ensures SuffixTranslated(a, b, m)
  {
    var ta := TranslatedPrefix(a, |a|);
    var p := TranslatedPrefix(b, m - 1);
    var q := TranslatedPrefix(a + b, |a| + m - 1);
    var e := Emit(b[m - 1], AfterDigit(b, m - 1));
    assert TranslatedPrefix(b, m) == p + e;
    AppendStep(a, b, m);
    DropFirst(p, e);
    if Joined(a, b) {
      assert q == ta + p[1..];
      Associate(ta, p[1..], e);
    } else {
      assert q == ta + p;
      Associate(ta, p, e);
    }
  }

  lemma Associate<T>(x: seq<T>, y: seq<T>, z: seq<T>)
    ensures (x + y) + z == x + (y + z)
  {
  }

  /** One more character of `b` extends the translation of `a + b` by the
      same cells as it extends `b`'s. */
  lemma AppendStep(a: string, b: string, m: nat)
    requires 2 <= m <= |b|
    ensures TranslatedPrefix(a + b, |a| + m) ==
      TranslatedPrefix(a + b, |a| + m - 1) + Emit(b[m - 1], AfterDigit(b, m - 1))
  {
    assert (a + b)[|a| + m - 1] == b[m - 1];
    assert (a + b)[|a| + m - 2] == b[m - 2];
  }

  lemma DropFirst<T>(p: seq<T>, e: seq<T>)
    requires |p| >= 1
    ensures (p + e)[0] == p[0] && (p + e)[1..] == p[1..] + e
  {
  }

  // ---------------------------------------------------------------------
  // Counting prefix cells

  /** Number of occurrences of `x` in `s`. */
  function Count(s: string, x: char): nat {
    if s == [] then 0 else (if s[0] == x then 1 else 0) + Count(s[1..], x)
  }

  lemma {:induction false} CountAppend(s: string, t: string, x: char)
    ensures Count(s + t, x) == Count(s, x) + Count(t, x)
  {
    if s == [] {
      assert s + t == t;
    } else {
      assert (s + t)[0] == s[0];
      assert (s + t)[1..] == s[1..] + t;
      CountAppend(s[1..], t, x);
    }
  }

  /** Position `i` holds the first digit of a maximal run of digits. */
  predicate OpensDigitRun(text: string, i: nat)
    requires i < |text|
  {
    IsDigit(text[i]) && !(i > 0 && IsDigit(text[i - 1]))
  }

  /** Number of maximal digit runs that start among the first `n` characters. */
  function DigitRuns(text: string, n: nat): nat
    requires n <= |text|
  {
    if n == 0 then 0 else DigitRuns(text, n - 1) + (if OpensDigitRun(text, n - 1) then 1 else 0)
  }

  /** Number of upper-case letters among the first `n` characters. */
  function Capitals(text: string, n: nat): nat
    requires n <= |text|
  {
    if n == 0 then 0 else Capitals(text, n - 1) + (if IsUpper(text[n - 1]) then 1 else 0)
  }

  /** One character: one number sign if it opens a digit run, one capital
      sign if it is upper case, and exactly one other cell. */
  lemma EmitCounts(c: char, afterDigit: bool)
    ensures Count(Emit(c, afterDigit), NumberSign) == if IsDigit(c) && !afterDigit then 1 else 0
    ensures Count(Emit(c, afterDigit), CapSign) == if IsUpper(c) then 1 else 0
    ensures |Emit(c, afterDigit)| == 1 + Count(Emit(c, afterDigit), NumberSign) + Count(Emit(c, afterDigit), CapSign)
  {
    EmitShape(c, afterDigit);
    TableCells(c);
    TableCells(ToLower(c));
    var e := Emit(c, afterDigit);
    var x := e[|e| - 1];
    assert x != NumberSign && x != CapSign;
    assert Count([x], NumberSign) == 0 && Count([x], CapSign) == 0 by { assert [x][1..] == []; }
    if IsDigit(c) && !afterDigit {
      assert e == [NumberSign] + [x] && e[1..] == [x];
    } else if IsUpper(c) {
      assert e == [CapSign] + [x] && e[1..] == [x];
    } else {
      assert e == [x];
    }
  }

  /** The number sign is written once per maximal digit run, the capital
      sign once per upper-case letter, and every character gives exactly one
      further cell. */
  lemma {:induction false} PrefixCounts(text: string, n: nat)
    requires n <= |text|
    ensures Count(TranslatedPrefix(text, n), NumberSign) == DigitRuns(text, n)
    ensures Count(TranslatedPrefix(text, n), CapSign) == Capitals(text, n)
    ensures |TranslatedPrefix(text, n)| == n + DigitRuns(text, n) + Capitals(text, n)
  {
    if n > 0 {
      var p := TranslatedPrefix(text, n - 1);
      var e := Emit(text[n - 1], AfterDigit(text, n - 1));
      assert TranslatedPrefix(text, n) == p + e;
      assert DigitRuns(text, n) == DigitRuns(text, n - 1) + Count(e, NumberSign) by {
        EmitCounts(text[n - 1], AfterDigit(text, n - 1));
      }
      assert Capitals(text, n) == Capitals(text, n - 1) + Count(e, CapSign) by {
        EmitCounts(text[n - 1], AfterDigit(text, n - 1));
      }
      assert |e| == 1 + Count(e, NumberSign) + Count(e, CapSign) by {
        EmitCounts(text[n - 1], AfterDigit(text, n - 1));
      }
      PrefixCounts(text, n - 1);
      CountAppend(p, e, NumberSign);
      CountAppend(p, e, CapSign);
    }
  }

  /** The whole translation: as many number signs as maximal digit runs, as
      many capital signs as upper-case letters, and so at least one cell per
      input character. */
  lemma TransliterationCounts(text: string)
    ensures Count(Transliteration(text), NumberSign) == DigitRuns(text, |text|)
    ensures Count(Transliteration(text), CapSign) == Capitals(text, |text|)
    ensures |Transliteration(text)| == |text| + DigitRuns(text, |text|) + Capitals(text, |text|)
    ensures |Transliteration(text)| >= |text|
  {
    PrefixCounts(text, |text|);
  }

  /** Where the signs go: the cells of `text[..i + 1]` are those of
      `text[..i]` followed by those of `text[i]`; a digit gets the number
      sign exactly when it opens a run, an upper-case letter always gets the
      capital sign. */
  lemma SignPlacement(text: string, i: nat)
    requires i < |text|
    ensures IsDigit(text[i]) ==>
      Transliteration(text[..i + 1]) ==
      Transliteration(text[..i]) + (if OpensDigitRun(text, i) then [NumberSign] else []) + [Numbers(text[i]).value]
    ensures IsUpper(text[i]) ==>
      Transliteration(text[..i + 1]) == Transliteration(text[..i]) + [CapSign, Letters(ToLower(text[i])).value]
  {
    var pre := text[..i + 1];
    var afterDigit := i > 0 && IsDigit(text[i - 1]);
    assert Transliteration(pre) == Transliteration(text[..i]) + Emit(text[i], afterDigit) by {
      assert pre == text[..i] + [text[i]];
      PrefixOfAppend(text[..i], [text[i]], i);
      assert pre[i] == text[i] && AfterDigit(pre, i) == afterDigit;
      assert TranslatedPrefix(pre, i + 1) == TranslatedPrefix(pre, i) + Emit(text[i], afterDigit);
    }
    EmitShape(text[i], afterDigit);
  }

  // ---------------------------------------------------------------------
  // Worked examples

  /** The translation of a one-character string. */
  lemma Single(c: char)
    ensures Transliteration([c]) == Emit(c, false)
  {
    assert [c][0] == c;
    assert TranslatedPrefix([c], 0) == [];
  }

  /** A run of digits gets one number sign; translating "" gives "". */
  lemma ExampleDigitRuns()
    ensures Transliteration("") == ""
    ensures Transliteration("9") == [NumberSign, '⠊']
    ensures Transliteration("99") == [NumberSign, '⠊', '⠊']
    ensures Transliteration("12") == [NumberSign, '⠁', '⠃']
  {
    assert Transliteration("9") == [NumberSign, '⠊'] by {
      Single('9');
    }
    assert Transliteration("99") == [NumberSign, '⠊', '⠊'] by {
      Single('9');
      assert "99" == "9" + "9";
      TransliterationAppend("9", "9");
    }
    assert Transliteration("12") == [NumberSign, '⠁', '⠃'] by {
      Single('1'); Single('2');
      assert "12" == "1" + "2";
      TransliterationAppend("1", "2");
    }
  }

  /** A space ends number mode, so "1 2" has two number signs. */
  lemma ExampleSpaceEndsRun()
    ensures Transliteration("1 2") == [NumberSign, '⠁', ' ', NumberSign, '⠃']
  {
    assert Transliteration("1 ") == [NumberSign, '⠁', ' '] by {
      Single('1'); Single(' ');
      assert "1 " == "1" + " ";
      TransliterationAppend("1", " ");
    }
    Single('2');
    assert "1 2" == "1 " + "2";
    TransliterationAppend("1 ", "2");
  }

  /** Capitalisation is per letter, not a mode. */
  lemma ExampleCapitals()
    ensures Transliteration("A") == [CapSign, '⠁']
    ensures Transliteration("AB") == [CapSign, '⠁', CapSign, '⠃']
  {
    Single('A'); Single('B');
    assert "AB" == "A" + "B";
    TransliterationAppend("A", "B");
  }

  /** A character without a table entry becomes one space. */
  lemma ExampleFallback()
    ensures Transliteration("a%") == ['⠁', ' ']
  {
    Single('a'); Single('%');
    assert Letters('%') == None;
    assert Emit('%', false) == [' '];
    assert "a%" == "a" + "%";
    TransliterationAppend("a", "%");
  }
}
