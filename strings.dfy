/** The few Python `str` builtins the core relies on, with ASCII character
    classification: `isspace`, `isdigit`, `isupper`, `lower`, `strip`,
    `split(sep)`, `split()` and `sep.join(parts)`. */
module Strings {

  /** A value that may be missing: a dictionary lookup that found nothing, or
      a call that raised. */
  datatype Option<T> = None | Some(value: T)

  /** `c.isspace()` restricted to ASCII: tab, line feed, vertical tab, form
      feed, carriage return, the four separator controls 0x1C-0x1F and space. */
  predicate IsSpace(c: char): (r: bool)
    ensures r ==> c <= ' '
    ensures c == ' ' || c == '\t' || c == '\n' || c == '\r' ==> r
  {
    c == ' ' || ('\t' <= c <= '\r') || ('\U{1C}' <= c <= '\U{1F}')
  }

  /** `c.isdigit()` restricted to ASCII. */
  predicate IsDigit(c: char): (r: bool)
    ensures r ==> !IsSpace(c)
  {
    '0' <= c <= '9'
  }

  /** `c.isupper()` restricted to ASCII. */
  predicate IsUpper(c: char): (r: bool)
    ensures r ==> !IsSpace(c) && !IsDigit(c)
  {
    'A' <= c <= 'Z'
  }

  /** A character matched by the regular-expression class `\w` (ASCII). */
  predicate IsWordChar(c: char): (r: bool)
    ensures IsDigit(c) || IsUpper(c) || c == '_' ==> r
    ensures r ==> !IsSpace(c)
  {
    ('a' <= c <= 'z') || IsUpper(c) || IsDigit(c) || c == '_'
  }

  /** `c.lower()` restricted to ASCII. */
  function ToLower(c: char): (r: char)
    ensures !IsUpper(r)
    ensures IsUpper(c) ==> 'a' <= r <= 'z' && r as int - c as int == 32
    ensures !IsUpper(c) ==> r == c
  {
    if IsUpper(c) then (c as int + 32) as char else c
  }

  /** `s.lower()`. */
  function Lower(s: string): (r: string)
    ensures |r| == |s|
    ensures forall k :: 0 <= k < |s| ==> r[k] == ToLower(s[k])
  {
    if s == [] then [] else [ToLower(s[0])] + Lower(s[1..])
  }

  predicate NoSpace(s: string) {
    forall k :: 0 <= k < |s| ==> !IsSpace(s[k])
  }

  predicate AllSpace(s: string) {
    forall k :: 0 <= k < |s| ==> IsSpace(s[k])
  }

  /** `s.lstrip()`: the longest suffix of `s` that does not start with
      whitespace (`TrimStartDrops` says what it drops). */
  function TrimStart(s: string): (r: string)
    ensures |r| <= |s|
    ensures r == [] || !IsSpace(r[0])
  {
    if s != [] && IsSpace(s[0]) then TrimStart(s[1..]) else s
  }

  /** `s.lstrip()` is a suffix of `s` and drops whitespace only. */
  lemma {:induction false} TrimStartDrops(s: string)
    ensures TrimStart(s) == s[|s| - |TrimStart(s)|..]
    ensures AllSpace(s[..|s| - |TrimStart(s)|])
  {
    if s != [] && IsSpace(s[0]) {
      TrimStartDrops(s[1..]);
      var n := |s| - |TrimStart(s)|;
      assert s[1..][..n - 1] == s[1..n];
    }
  }

  /** `s.rstrip()`: the longest prefix of `s` that does not end with
      whitespace (`TrimEndDrops` says what it drops). */
  function TrimEnd(s: string): (r: string)
    ensures |r| <= |s|
    ensures r == [] || !IsSpace(r[|r| - 1])
  {
    if s != [] && IsSpace(s[|s| - 1]) then TrimEnd(s[..|s| - 1]) else s
  }

  /** `s.rstrip()` is a prefix of `s` and drops whitespace only. */
  lemma {:induction false} TrimEndDrops(s: string)
    ensures TrimEnd(s) == s[..|TrimEnd(s)|]
    ensures AllSpace(s[|TrimEnd(s)|..])
  {
    if s != [] && IsSpace(s[|s| - 1]) {
      TrimEndDrops(s[..|s| - 1]);
      var n := |TrimEnd(s)|;
      assert s[..|s| - 1][n..] == s[n..|s| - 1];
    }
  }

  /** No whitespace at either end. */
  predicate IsStripped(s: string) {
    s == [] || (!IsSpace(s[0]) && !IsSpace(s[|s| - 1]))
  }

  /** `s.strip()`: `s` without its leading and trailing whitespace (what it
      keeps is described by `StripKeepsMiddle`). */
  function Strip(s: string): (r: string)
    ensures |r| <= |s| && IsStripped(r)
  {
    TrimEndDrops(TrimStart(s));
    TrimEnd(TrimStart(s))
  }

  /** `s.strip()` keeps the part of `s` between its leading and its trailing
      whitespace, and is empty exactly when `s` is all whitespace. */
  lemma StripKeepsMiddle(s: string) returns (a: nat)
    ensures a + |Strip(s)| <= |s|
    ensures Strip(s) == s[a..a + |Strip(s)|]
    ensures AllSpace(s[..a]) && AllSpace(s[a + |Strip(s)|..])
    ensures Strip(s) == [] <==> AllSpace(s)
  {
    var t := TrimStart(s);
    var r := TrimEnd(t);
    TrimStartDrops(s);
    TrimEndDrops(t);
    a := |s| - |t|;
    assert r == s[a..a + |r|];
    assert s[a + |r|..] == t[|r|..];
    if r == [] {
      assert t == [];
      assert s[..a] == s;
    } else {
      assert !IsSpace(s[a]);
    }
  }

  /** `glue.join(parts)`. */
  function Join(parts: seq<string>, glue: string): (r: string)
    ensures parts == [] ==> r == []
    ensures |parts| == 1 ==> r == parts[0]
    ensures |parts| >= 1 ==> |parts[0]| <= |r| && r[..|parts[0]|] == parts[0]
  {
    if parts == [] then []
    else if |parts| == 1 then parts[0]
    else parts[0] + glue + Join(parts[1..], glue)
  }

  /** `s.split(sep)` for a one-character separator: always at least one
      part, no part contains the separator, and joining the parts with the
      separator gives `s` back. */
  function SplitOn(s: string, sep: char): (r: seq<string>)
    ensures |r| >= 1
    ensures Join(r, [sep]) == s
    ensures forall k :: 0 <= k < |r| ==> sep !in r[k]
  {
    if s == [] then [[]]
    else
      var rest := SplitOn(s[1..], sep);
      if s[0] == sep then
        assert [sep] + Join(rest, [sep]) == s;
        [[]] + rest
      else
        var r := [[s[0]] + rest[0]] + rest[1..];
        assert r[1..] == rest[1..];
        if |rest| == 1 then r
        else
          assert Join(rest, [sep]) == rest[0] + [sep] + Join(rest[1..], [sep]);
          r
  }

  /** A string without the separator splits into itself alone. */
  lemma {:induction false} SplitOnWhole(s: string, sep: char)
    requires sep !in s
    ensures SplitOn(s, sep) == [s]
  {
    if s != [] {
      assert s[0] != sep;
      assert sep !in s[1..] by {
        forall k | 0 <= k < |s[1..]| ensures s[1..][k] != sep { assert s[1..][k] == s[k + 1]; }
      }
      SplitOnWhole(s[1..], sep);
      assert [s[0]] + s[1..] == s;
    }
  }

  /** The characters of `s` that are not whitespace, in order. */
  function NonSpaceChars(s: string): (r: string)
    ensures |r| <= |s| && NoSpace(r)
  {
    if s == [] then []
    else if IsSpace(s[0]) then NonSpaceChars(s[1..])
    else [s[0]] + NonSpaceChars(s[1..])
  }

  /** Concatenation of a sequence of strings (`''.join(parts)`). */
  function Concat(parts: seq<string>): string {
    if parts == [] then [] else parts[0] + Concat(parts[1..])
  }

  /** Joining parts adds one glue between each two of them to their
      concatenation. */
  lemma {:induction false} JoinLength(parts: seq<string>, glue: string)
    requires parts != []
    ensures |Join(parts, glue)| == |Concat(parts)| + (|parts| - 1) * |glue|
  {
    if |parts| > 1 {
      JoinLength(parts[1..], glue);
    }
  }

  /** The longest prefix of `s` that holds no whitespace. */
  function LeadingWord(s: string): (w: string)
    ensures |w| <= |s| && w == s[..|w|] && NoSpace(w)
    ensures |w| == |s| || IsSpace(s[|w|])
  {
    if s == [] || IsSpace(s[0]) then [] else [s[0]] + LeadingWord(s[1..])
  }

  /** `s.split()`: the maximal runs of non-whitespace characters of `s`, in
      order; none is empty and none contains whitespace. */
  function Words(s: string): (ws: seq<string>)
    ensures WordsOf(s, ws)
    decreases |s|
  {
    var t := TrimStart(s);
    TrimStartDrops(s);
    if t == [] then
      assert s[..|s|] == s;
      NonSpaceCharsOfAllSpace(s);
      []
    else
      var w := LeadingWord(t);
      var rest := t[|w|..];
      var ws := Words(rest);
      WordsCons(s, t, w, rest, ws);
      [w] + ws
  }

  /** What `Words` promises: no word is empty or holds whitespace, the words
      together hold exactly the non-whitespace characters of `s`, and a string
      starting with a non-whitespace character has its leading word first. */
  predicate WordsOf(s: string, ws: seq<string>) {
    && (forall k :: 0 <= k < |ws| ==> ws[k] != [] && NoSpace(ws[k]))
    && Concat(ws) == NonSpaceChars(s)
    && (s != [] && !IsSpace(s[0]) ==> ws != [] && ws[0] == LeadingWord(s))
  }

  /** Helper for `Words`: the first word followed by the words of the rest. */
  lemma WordsCons(s: string, t: string, w: string, rest: string, ws: seq<string>)
    requires t == TrimStart(s) && t != [] && w == LeadingWord(t) && rest == t[|w|..]
    requires WordsOf(rest, ws)
    ensures WordsOf(s, [w] + ws)
  {
    assert w != [] by { assert !IsSpace(t[0]); }
    NonSpaceCharsOfTrimStart(s);
    NonSpaceCharsOfLeadingWord(t);
    assert Concat([w] + ws) == w + Concat(ws) by { assert ([w] + ws)[1..] == ws; }
    assert s != [] && !IsSpace(s[0]) ==> t == s;
    var all := [w] + ws;
    forall k | 0 <= k < |all| ensures all[k] != [] && NoSpace(all[k]) {
      if k > 0 { assert all[k] == ws[k - 1]; }
    }
  }

  lemma {:induction false} NonSpaceCharsOfTrimStart(s: string)
    ensures NonSpaceChars(s) == NonSpaceChars(TrimStart(s))
  {
    if s != [] && IsSpace(s[0]) { NonSpaceCharsOfTrimStart(s[1..]); }
  }

  lemma {:induction false} NonSpaceCharsOfLeadingWord(s: string)
    ensures NonSpaceChars(s) == LeadingWord(s) + NonSpaceChars(s[|LeadingWord(s)|..])
  {
    if s != [] && !IsSpace(s[0]) {
      var t := s[1..];
      var w := LeadingWord(t);
      NonSpaceCharsOfLeadingWord(t);
      assert t[|w|..] == s[|w| + 1..];
      calc {
        NonSpaceChars(s);
        [s[0]] + NonSpaceChars(t);
        [s[0]] + (w + NonSpaceChars(s[|w| + 1..]));
        ([s[0]] + w) + NonSpaceChars(s[|w| + 1..]);
      }
    } else {
      assert s[0..] == s;
    }
  }

  lemma {:induction false} NonSpaceCharsAppend(a: string, b: string)
    ensures NonSpaceChars(a + b) == NonSpaceChars(a) + NonSpaceChars(b)
  {
    if a != [] {
      assert (a + b)[0] == a[0];
      assert (a + b)[1..] == a[1..] + b;
      NonSpaceCharsAppend(a[1..], b);
      if IsSpace(a[0]) {
        assert NonSpaceChars(a + b) == NonSpaceChars(a[1..] + b);
      } else {
        assert NonSpaceChars(a + b) == [a[0]] + NonSpaceChars(a[1..] + b);
      }
    } else {
      assert a + b == b;
    }
  }

  lemma {:induction false} NonSpaceCharsOfAllSpace(s: string)
    requires AllSpace(s)
    ensures NonSpaceChars(s) == []
  {
    if s != [] { NonSpaceCharsOfAllSpace(s[1..]); }
  }

  lemma {:induction false} NonSpaceCharsOfNoSpace(s: string)
    requires NoSpace(s)
    ensures NonSpaceChars(s) == s
  {
    if s != [] { NonSpaceCharsOfNoSpace(s[1..]); }
  }

  /** Number of non-whitespace characters in `s`. */
  function CountNonSpace(s: string): (n: nat)
    ensures n <= |s|
  {
    if s == [] then 0 else CountNonSpace(s[1..]) + (if IsSpace(s[0]) then 0 else 1)
  }

  lemma {:induction false} NonSpaceCharsCount(s: string)
    ensures |NonSpaceChars(s)| == CountNonSpace(s)
  {
    if s != [] { NonSpaceCharsCount(s[1..]); }
  }

  lemma {:induction false} ConcatAppend(a: seq<string>, b: seq<string>)
    ensures Concat(a + b) == Concat(a) + Concat(b)
  {
    if a != [] {
      assert (a + b)[0] == a[0];
      assert (a + b)[1..] == a[1..] + b;
      ConcatAppend(a[1..], b);
      assert Concat(a + b) == a[0] + Concat(a[1..] + b);
    } else {
      assert a + b == b;
    }
  }

  /** Joining with spaces adds whitespace only. */
  lemma {:induction false} NonSpaceCharsOfJoin(parts: seq<string>)
    ensures NonSpaceChars(Join(parts, " ")) == NonSpaceChars(Concat(parts))
  {
    if |parts| == 1 {
      assert parts[1..] == [];
      assert Concat(parts) == parts[0] + Concat(parts[1..]);
      assert Concat(parts) == parts[0];
      assert Join(parts, " ") == parts[0];
    } else if |parts| > 1 {
      NonSpaceCharsOfJoin(parts[1..]);
      NonSpaceCharsAppend(parts[0] + " ", Join(parts[1..], " "));
      NonSpaceCharsAppend(parts[0], " ");
      assert NonSpaceChars(" ") == [] by { assert " "[1..] == []; }
      NonSpaceCharsAppend(parts[0], Concat(parts[1..]));
    }
  }

  /** `ToLower` leaves whitespace as it is. */
  lemma SpaceOfLower(c: char)
    ensures IsSpace(ToLower(c)) == IsSpace(c)
  {
  }

  /** Lower-casing commutes with dropping whitespace. */
  lemma {:induction false} NonSpaceCharsOfLower(s: string)
    ensures NonSpaceChars(Lower(s)) == Lower(NonSpaceChars(s))
  {
    if s != [] {
      NonSpaceCharsOfLower(s[1..]);
      assert Lower(s)[1..] == Lower(s[1..]);
      SpaceOfLower(s[0]);
      if !IsSpace(s[0]) {
        assert Lower([s[0]] + NonSpaceChars(s[1..])) == [ToLower(s[0])] + Lower(NonSpaceChars(s[1..]));
      }
    }
  }
  /** Every string of `ws` lower-cased. */
  function LowerAll(ws: seq<string>): seq<string> {
    seq(|ws|, k requires 0 <= k < |ws| => Lower(ws[k]))
  }

  lemma LowerDrop(s: string, n: nat)
    requires n <= |s|
    ensures Lower(s)[n..] == Lower(s[n..])
  {
  }

  /** Lower-casing commutes with `lstrip`. */
  lemma {:induction false} TrimStartOfLower(s: string)
    ensures TrimStart(Lower(s)) == Lower(TrimStart(s))
  {
    if s != [] {
      SpaceOfLower(s[0]);
      LowerDrop(s, 1);
      if IsSpace(s[0]) {
        TrimStartOfLower(s[1..]);
      }
    }
  }

  /** Lower-casing commutes with taking the leading word. */
  lemma {:induction false} LeadingWordOfLower(s: string)
    ensures LeadingWord(Lower(s)) == Lower(LeadingWord(s))
  {
    if s != [] {
      SpaceOfLower(s[0]);
      LowerDrop(s, 1);
      if !IsSpace(s[0]) {
        LeadingWordOfLower(s[1..]);
        assert Lower([s[0]] + LeadingWord(s[1..])) == [ToLower(s[0])] + Lower(LeadingWord(s[1..]));
      }
    }
  }

  /** `Words` unfolded once: no words after leading whitespace only, else the
      leading word and the words of what follows it. */
  lemma WordsStep(s: string)
    ensures TrimStart(s) == [] ==> Words(s) == []
    ensures TrimStart(s) != [] ==>
      Words(s) == [LeadingWord(TrimStart(s))] + Words(TrimStart(s)[|LeadingWord(TrimStart(s))|..])
  {
  }

  lemma LowerAllCons(w: string, ws: seq<string>)
    ensures LowerAll([w] + ws) == [Lower(w)] + LowerAll(ws)
  {
    var l := LowerAll([w] + ws);
    assert l[0] == Lower(w);
    assert l[1..] == LowerAll(ws);
  }

  /** `s.lower().split()` is `s.split()` with every word lower-cased. */
  lemma {:induction false} WordsOfLower(s: string)
    ensures Words(Lower(s)) == LowerAll(Words(s))
    decreases |s|
  {
    var t := TrimStart(s);
    TrimStartOfLower(s);
    WordsStep(s);
    WordsStep(Lower(s));
    if t != [] {
      var w := LeadingWord(t);
      var rest := t[|w|..];
      assert w != [] by { assert !IsSpace(t[0]); }
      LeadingWordOfLower(t);
      LowerDrop(t, |w|);
      WordsOfLower(rest);
      LowerAllCons(w, Words(rest));
    }
  }

  /** A leading whitespace character does not change the words. */
  lemma WordsSkipSpace(x: string)
    requires x != [] && IsSpace(x[0])
    ensures Words(x) == Words(x[1..])
  {
    assert TrimStart(x) == TrimStart(x[1..]);
  }

  /** The leading word of a word followed by whitespace (or nothing) is that word. */
  lemma {:induction false} LeadingWordAppend(w: string, x: string)
    requires NoSpace(w) && (x == [] || IsSpace(x[0]))
    ensures LeadingWord(w + x) == w
  {
    if w != [] {
      assert (w + x)[1..] == w[1..] + x;
      LeadingWordAppend(w[1..], x);
    } else {
      assert w + x == x;
    }
  }

  /** `glue.join` of a first part and at least one more. */
  lemma JoinCons(w: string, ws: seq<string>, glue: string)
    requires ws != []
    ensures Join([w] + ws, glue) == w + glue + Join(ws, glue)
  {
    assert ([w] + ws)[1..] == ws;
  }

  /** The words of a string that starts with a non-whitespace character: its
      leading word, then the words of what follows. */
  lemma WordsAfterWord(s: string)
    requires s != [] && !IsSpace(s[0])
    ensures Words(s) == [LeadingWord(s)] + Words(s[|LeadingWord(s)|..])
  {
    WordsStep(s);
  }

  /** `" ".join(ws).split()` gives back `ws` when every word is non-empty and
      holds no whitespace. */
  lemma {:induction false} WordsOfJoin(ws: seq<string>)
    requires forall k :: 0 <= k < |ws| ==> ws[k] != [] && NoSpace(ws[k])
    ensures Words(Join(ws, " ")) == ws
  {
    if ws != [] {
      var w := ws[0];
      var rest := if |ws| == 1 then [] else " " + Join(ws[1..], " ");
      var s := w + rest;
      assert Join(ws, " ") == s by {
        assert ws == [w] + ws[1..];
        if |ws| > 1 { JoinCons(w, ws[1..], " "); }
      }
      assert s[0] == w[0];
      LeadingWordAppend(w, rest);
      WordsAfterWord(s);
      assert s[|w|..] == rest;
      if |ws| > 1 {
        assert Words(rest) == ws[1..] by {
          WordsSkipSpace(rest);
          assert rest[1..] == Join(ws[1..], " ");
          WordsOfJoin(ws[1..]);
        }
      } else {
        WordsStep(rest);
      }
      assert ws == [w] + ws[1..];
    }
  }
}
