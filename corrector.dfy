/** Line-by-line orchestration of an external text-correction model: long
    lines are cut into windows of at most 450 characters (preferring a cut at
    a space near the window's end), every unit goes to the model, and a
    length-inflation guard keeps the original unit when the model's output
    grows by more than five characters. */
module Corrector {
  import opened Strings

  /** `TextCorrector.max_char_chunk`. */
  const MaxCharChunk: nat := 450
  /** A window is cut at its last space only when fewer than this many
      characters separate that space from the window's end. */
  const SpaceTolerance: nat := 50
  /** An accepted model output is at most this much longer than its input. */
  const LengthSlack: nat := 5

  function Min(x: int, y: int): int {
    if x <= y then x else y
  }

  /** `s.rfind(c)`: the last index holding `c`, or -1 when there is none. */
  function RFind(s: string, c: char): (r: int)
    ensures -1 <= r < |s|
    ensures r == -1 ==> c !in s
    ensures 0 <= r ==> s[r] == c && forall j :: r < j < |s| ==> s[j] != c
  {
    if s == [] then -1
    else if s[|s| - 1] == c then |s| - 1
    else RFind(s[..|s| - 1], c)
  }

  // ---------------------------------------------------------------------
  // Chunking

  /** One raw window cut by the chunking loop, before stripping: its text,
      and whether the space right after it was skipped. */
  datatype Piece = Piece(content: string, skipsSpace: bool)

  /** The window the chunking loop cuts at the front of `rest`: the whole of
      `rest` when at most 450 characters remain; otherwise the text before the
      window's last space if that space lies within 50 characters of the
      window's end (the space itself is skipped), else the full 450-character
      window. `CutAtLastSpace` states which space is chosen. */
  function Cut(rest: string): (p: Piece)
    requires rest != []
    ensures 0 < |p.content| <= Min(MaxCharChunk, |rest|) && p.content == rest[..|p.content|]
    ensures |rest| <= MaxCharChunk ==> p == Piece(rest, false)
    ensures p.skipsSpace ==>
      MaxCharChunk - SpaceTolerance < |p.content| < MaxCharChunk < |rest| && rest[|p.content|] == ' '
    ensures |rest| > MaxCharChunk && !p.skipsSpace ==> |p.content| == MaxCharChunk
  {
    var window := rest[..Min(MaxCharChunk, |rest|)];
    if MaxCharChunk < |rest| then
      var lastSpace := RFind(window, ' ');
      if lastSpace > 0 && |window| - lastSpace < SpaceTolerance then
        Piece(window[..lastSpace], true)
      else
        Piece(window, false)
    else
      Piece(window, false)
  }

  /** A window that is not the last is cut at a space exactly when one of
      its positions 401-449 holds a space, and then at the last such space. */
  lemma CutAtLastSpace(rest: string)
    requires |rest| > MaxCharChunk
    ensures Cut(rest).skipsSpace <==> exists j :: MaxCharChunk - SpaceTolerance < j < MaxCharChunk && rest[j] == ' '
    ensures Cut(rest).skipsSpace ==> forall j :: |Cut(rest).content| < j < MaxCharChunk ==> rest[j] != ' '
  {
    var window := rest[..MaxCharChunk];
    assert forall j :: 0 <= j < MaxCharChunk ==> rest[j] == window[j];
  }

  /** How far the cursor moves past a piece. */
  function Advance(p: Piece): nat {
    |p.content| + if p.skipsSpace then 1 else 0
  }

  /** The cursor always moves forward and never past the text: by the whole
      rest at the last window, by more than 400 characters otherwise. */
  lemma CursorAdvances(rest: string)
    requires rest != []
    ensures 0 < Advance(Cut(rest)) <= |rest|
    ensures |rest| > MaxCharChunk ==> MaxCharChunk - SpaceTolerance < Advance(Cut(rest)) <= MaxCharChunk
    ensures |rest| <= MaxCharChunk ==> Advance(Cut(rest)) == |rest|
  {
  }

  /** The text a sequence of pieces was cut from: each piece followed by the
      space skipped after it, if any. */
  function Reassemble(ps: seq<Piece>): string {
    if ps == [] then [] else ps[0].content + (if ps[0].skipsSpace then " " else "") + Reassemble(ps[1..])
  }

  /** All raw pieces the chunking loop cuts from `text`, left to right. They
      put `text` back together, none is longer than 450 characters, every
      piece but the last is longer than 400, and the last skips no space. */
  function Pieces(text: string): (ps: seq<Piece>)
    ensures Reassemble(ps) == text
    ensures ps == [] <==> text == []
    ensures forall k :: 0 <= k < |ps| ==> 0 < |ps[k].content| <= MaxCharChunk
    ensures forall k :: 0 <= k < |ps| - 1 ==> MaxCharChunk - SpaceTolerance < |ps[k].content|
    ensures ps != [] ==> !ps[|ps| - 1].skipsSpace
    decreases |text|
  {
    if text == [] then []
    else
      var p := Cut(text);
      var rest := text[Advance(p)..];
      var tail := Pieces(rest);
      PiecesCons(text, p, rest, tail);
      [p] + tail
  }

  /** Helper for `Pieces`: the first cut followed by the pieces of the rest. */
  lemma PiecesCons(text: string, p: Piece, rest: string, tail: seq<Piece>)
    requires text != [] && p == Cut(text) && rest == text[Advance(p)..]
    requires Reassemble(tail) == rest && (tail == [] <==> rest == [])
    requires forall k :: 0 <= k < |tail| ==> 0 < |tail[k].content| <= MaxCharChunk
    requires forall k :: 0 <= k < |tail| - 1 ==> MaxCharChunk - SpaceTolerance < |tail[k].content|
    requires tail != [] ==> !tail[|tail| - 1].skipsSpace
    ensures Reassemble([p] + tail) == text
    ensures forall k :: 0 <= k < |[p] + tail| ==> 0 < |([p] + tail)[k].content| <= MaxCharChunk
    ensures forall k :: 0 <= k < |[p] + tail| - 1 ==> MaxCharChunk - SpaceTolerance < |([p] + tail)[k].content|
    ensures !([p] + tail)[|tail|].skipsSpace
  {
    var ps := [p] + tail;
    assert ps[1..] == tail;
    assert text == p.content + (if p.skipsSpace then " " else "") + rest;
    if tail == [] {
      assert Advance(p) == |text|;
      assert |text| <= MaxCharChunk || !p.skipsSpace;
    } else {
      assert |rest| > 0;
      assert |text| > MaxCharChunk;
    }
  }

  /** Every piece with surrounding whitespace removed. */
  function StripAll(ps: seq<Piece>): (r: seq<string>)
    ensures |r| == |ps|
    ensures forall k :: 0 <= k < |ps| ==> r[k] == Strip(ps[k].content)
  {
    if ps == [] then [] else [Strip(ps[0].content)] + StripAll(ps[1..])
  }

  /** `[c for c in chunks if c]`. */
  function NonEmpty(ss: seq<string>): (r: seq<string>)
    ensures |r| <= |ss|
    ensures forall s :: s in r <==> s in ss && s != []
  {
    if ss == [] then []
    else if ss[0] == [] then NonEmpty(ss[1..])
    else [ss[0]] + NonEmpty(ss[1..])
  }

  /** The remainder of `text` from cursor `i` (empty once the cursor has run
      past the end, as Python's slicing does). */
  function From(text: string, i: nat): string {
    if i < |text| then text[i..] else []
  }

  /** The stripped windows the chunking loop appends, from the front of
      `rest` on; `WindowsArePieces` ties them to `Pieces`. */
  function Windows(rest: string): seq<string>
    decreases |rest|
  {
    if rest == [] then []
    else
      var p := Cut(rest);
      [Strip(p.content)] + Windows(rest[Advance(p)..])
  }

  /** The windows are the stripped pieces. */
  lemma {:induction false} WindowsArePieces(rest: string)
    ensures Windows(rest) == StripAll(Pieces(rest))
    decreases |rest|
  {
    if rest != [] {
      var p := Cut(rest);
      WindowsArePieces(rest[Advance(p)..]);
      assert Pieces(rest) == [p] + Pieces(rest[Advance(p)..]);
      assert Pieces(rest)[1..] == Pieces(rest[Advance(p)..]);
    }
  }

  /** The filter keeps the non-empty strings in their order, duplicates
      included: filtering a concatenation filters each part. */
  lemma {:induction false} NonEmptyAppend(a: seq<string>, b: seq<string>)
    ensures NonEmpty(a + b) == NonEmpty(a) + NonEmpty(b)
  {
    if a == [] {
      assert a + b == b;
    } else {
      assert (a + b)[0] == a[0];
      assert (a + b)[1..] == a[1..] + b;
      NonEmptyAppend(a[1..], b);
    }
  }

  /** What `_chunk_text` returns for `text`. */
  function Chunks(text: string): (cs: seq<string>)
    ensures forall c :: c in cs ==> 0 < |c| <= MaxCharChunk && IsStripped(c)
  {
    WindowsBounded(text);
    NonEmpty(Windows(text))
  }

  /** Every window is at most 450 characters long and stripped. */
  lemma {:induction false} WindowsBounded(rest: string)
    ensures forall s :: s in Windows(rest) ==> |s| <= MaxCharChunk && IsStripped(s)
    decreases |rest|
  {
    if rest != [] {
      var p := Cut(rest);
      var next := rest[Advance(p)..];
      WindowsBounded(next);
      WindowsStep(rest);
      assert forall s :: s in Windows(rest) ==> s == Strip(p.content) || s in Windows(next);
    }
  }

  /** Moving the first element of what remains to the end of what is done
      keeps their concatenation. */
  lemma AppendShift<T>(done: seq<T>, x: T, todo: seq<T>, rest: seq<T>, whole: seq<T>)
    requires done + todo == whole && todo == [x] + rest
    ensures (done + [x]) + rest == whole
  {
  }

  /** The first window of `rest` and the windows after it. */
  lemma WindowsStep(rest: string)
    requires rest != []
    ensures Windows(rest) == [Strip(Cut(rest).content)] + Windows(rest[Advance(Cut(rest))..])
  {
  }

  /** `Cut` at the cursor, when the loop takes the whole window. */
  lemma CutWhole(rest: string, chunk: string)
    requires rest != [] && chunk == rest[..Min(MaxCharChunk, |rest|)]
    requires MaxCharChunk < |rest| ==>
      var lastSpace := RFind(chunk, ' ');
      !(lastSpace > 0 && |chunk| - lastSpace < SpaceTolerance)
    ensures Cut(rest) == Piece(chunk, false)
  {
  }

  /** `Cut` at the cursor, when the loop cuts at the window's last space. */
  lemma CutSpace(rest: string, chunk: string, lastSpace: int)
    requires MaxCharChunk < |rest| && chunk == rest[..MaxCharChunk]
    requires lastSpace == RFind(chunk, ' ') && lastSpace > 0 && |chunk| - lastSpace < SpaceTolerance
    ensures Cut(rest) == Piece(chunk[..lastSpace], true)
  {
  }

  /** One iteration of `_chunk_text`'s loop at cursor `i`: slice the window,
      cut it at its last space when that space is usable and the window is
      not the last, strip what is kept, and move the cursor on. What it keeps
      is the piece `Cut` describes for the text from the cursor on. */
  method NextChunk(text: string, i: nat) returns (chunk: string, next: nat)
    requires i < |text|
    ensures chunk == Strip(Cut(text[i..]).content)
    ensures next == i + Advance(Cut(text[i..])) || (next >= |text| && Advance(Cut(text[i..])) == |text| - i)
  {
    var window := text[i..Min(i + MaxCharChunk, |text|)];
    if i + MaxCharChunk < |text| {
      var lastSpace := RFind(window, ' ');
      if lastSpace > 0 && |window| - lastSpace < SpaceTolerance {
        CutSpace(text[i..], window, lastSpace);
        chunk := Strip(window[..lastSpace]);
        next := i + lastSpace + 1;
      } else {
        CutWhole(text[i..], window);
        chunk := Strip(window);
        next := i + MaxCharChunk;
      }
    } else {
      CutWhole(text[i..], window);
      chunk := Strip(window);
      next := i + MaxCharChunk;
    }
  }

  /** The windows from the cursor on are the one just cut and those from
      where the cursor moves to. */
  lemma StepWindows(text: string, i: nat, next: nat)
    requires i < |text|
    requires next == i + Advance(Cut(text[i..])) || (next >= |text| && Advance(Cut(text[i..])) == |text| - i)
    ensures Windows(From(text, i)) == [Strip(Cut(text[i..]).content)] + Windows(From(text, next))
  {
    var rest := text[i..];
    assert From(text, i) == rest;
    assert From(text, next) == rest[Advance(Cut(rest))..];
    WindowsStep(rest);
  }

  /** `TextCorrector._chunk_text`: a cursor loop over `text` that appends one
      stripped window per step, then drops the empty ones. */
  method ChunkText(text: string) returns (result: seq<string>)
    ensures result == Chunks(text)
  {
    var chunks: seq<string> := [];
    var i: nat := 0;
    assert From(text, 0) == text;
    while i < |text|
      invariant chunks + Windows(From(text, i)) == Windows(text)
      decreases |text| - i
    {
      var chunk, next := NextChunk(text, i);
      StepWindows(text, i, next);
      AppendShift(chunks, chunk, Windows(From(text, i)), Windows(From(text, next)), Windows(text));
      chunks := chunks + [chunk];
      i := next;
    }
    StepDone(text, i, chunks);
    result := NonEmpty(chunks);
  }

  /** Once the cursor has passed the end, every window has been appended. */
  lemma StepDone(text: string, i: nat, done: seq<string>)
    requires |text| <= i && done + Windows(From(text, i)) == Windows(text)
    ensures done == Windows(text)
  {
    assert From(text, i) == [];
  }

  /** The external correction model: `None` stands for a call that raised. */
  type Model = string -> Option<string>

  /** `TextCorrector._run_model`: the model's output, or the unit itself
      when the call fails. */
  function RunModel(model: Model, unit: string): (r: string)
    ensures model(unit).None? ==> r == unit
    ensures model(unit).Some? ==> r == model(unit).value
  {
    match model(unit)
    case Some(out) => out
    case None => unit
  }

  /** The length-inflation guard: a candidate at most five characters longer
      than the unit is accepted, any other is replaced by the unit. */
  function Guard(unit: string, candidate: string): (r: string)
    ensures |r| <= |unit| + LengthSlack
    ensures |candidate| <= |unit| + LengthSlack ==> r == candidate
    ensures |candidate| > |unit| + LengthSlack ==> r == unit
  {
    if |candidate| <= |unit| + LengthSlack then candidate else unit
  }

  /** One unit (a short line or a chunk of a long one) after correction: the
      unit itself, or what the model made of it when that is at most five
      characters longer. */
  function CorrectUnit(model: Model, unit: string): (r: string)
    ensures |r| <= |unit| + LengthSlack
    ensures r == unit || (model(unit) == Some(r) && |r| <= |unit| + LengthSlack)
  {
    Guard(unit, RunModel(model, unit))
  }

  /** Every unit corrected independently, in order. */
  function CorrectUnits(model: Model, units: seq<string>): (r: seq<string>)
    ensures |r| == |units|
    ensures forall k :: 0 <= k < |units| ==> r[k] == CorrectUnit(model, units[k])
  {
    seq(|units|, k requires 0 <= k < |units| => CorrectUnit(model, units[k]))
  }

  /** One input line after correction: blank lines become empty, lines longer
      than 450 characters after stripping are chunked and their corrected
      chunks joined by single spaces, other lines are corrected whole. */
  function CorrectLine(model: Model, line: string): (r: string)
    ensures AllSpace(line) ==> r == []
    ensures 0 < |Strip(line)| <= MaxCharChunk ==>
      |r| <= |Strip(line)| + LengthSlack && (r == Strip(line) || model(Strip(line)) == Some(r))
  {
    assert AllSpace(line) ==> Strip(line) == [] by {
      var _ := StripKeepsMiddle(line);
    }
    var s := Strip(line);
    if s == [] then []
    else if |s| > MaxCharChunk then Join(CorrectUnits(model, Chunks(s)), " ")
    else CorrectUnit(model, s)
  }

  /** Every line corrected independently, in order. */
  function CorrectLines(model: Model, lines: seq<string>): (r: seq<string>)
    ensures |r| == |lines|
    ensures forall k :: 0 <= k < |lines| ==> r[k] == CorrectLine(model, lines[k])
  {
    seq(|lines|, k requires 0 <= k < |lines| => CorrectLine(model, lines[k]))
  }

  /** What `correct_text` returns: one corrected line per `'\n'`-separated
      input line, joined with `'\n'`. */
  function Corrected(model: Model, text: string): (r: string)
    ensures '\n' !in text ==> r == CorrectLine(model, text)
  {
    var lines := SplitOn(text, '\n');
    assert '\n' !in text ==> lines == [text] by {
      if '\n' !in text { SplitOnWhole(text, '\n'); }
    }
    Join(CorrectLines(model, lines), "\n")
  }

  /** The inner loop of `correct_text`: every chunk of a long line through
      the model and the guard, in order. */
  method CorrectChunks(model: Model, chunks: seq<string>) returns (correctedChunks: seq<string>)
    ensures correctedChunks == CorrectUnits(model, chunks)
  {
    correctedChunks := [];
    for m := 0 to |chunks|
      invariant |correctedChunks| == m
      invariant forall k :: 0 <= k < m ==> correctedChunks[k] == CorrectUnit(model, chunks[k])
    {
      var correctedChunk := RunModel(model, chunks[m]);
      if |correctedChunk| > |chunks[m]| + LengthSlack {
        correctedChunk := chunks[m];
      }
      correctedChunks := correctedChunks + [correctedChunk];
    }
  }

  /** The body of `correct_text`'s loop for one line: strip it, keep a blank
      line empty, chunk a long line, and send every unit through the model
      and the guard. */
  method CorrectOneLine(model: Model, rawLine: string) returns (corrected: string)
    ensures corrected == CorrectLine(model, rawLine)
  {
    var line := Strip(rawLine);
    if line == [] {
      corrected := "";
    } else if |line| > MaxCharChunk {
      var chunks := ChunkText(line);
      var correctedChunks := CorrectChunks(model, chunks);
      corrected := Join(correctedChunks, " ");
    } else {
      corrected := RunModel(model, line);
      if |corrected| > |line| + LengthSlack {
        corrected := line;
      }
    }
  }

  /** One more element of a prefix. */
  lemma SliceNext<T>(s: seq<T>, n: nat)
    requires n < |s|
    ensures s[..n + 1] == s[..n] + [s[n]]
  {
  }

  /** `TextCorrector.correct_text`. */
  method CorrectText(model: Model, text: string) returns (out: string)
    ensures out == Corrected(model, text)
  {
    var lines := SplitOn(text, '\n');
    ghost var all := CorrectLines(model, lines);
    var correctedLines: seq<string> := [];
    for n := 0 to |lines|
      invariant correctedLines == all[..n]
    {
      var corrected := CorrectOneLine(model, lines[n]);
      assert all[n] == corrected;
      SliceNext(all, n);
      correctedLines := correctedLines + [corrected];
    }
    assert all[..|all|] == all;
    out := Join(correctedLines, "\n");
  }

  // ---------------------------------------------------------------------
  // Properties of the chunking and of the correction

  /** A stripped line of at most 450 characters is a single chunk. */
  lemma ShortLineOneChunk(s: string)
    requires 0 < |s| <= MaxCharChunk && IsStripped(s)
    ensures Chunks(s) == [s]
  {
    StripOfStripped(s);
    assert s[|s|..] == [];
    assert Windows(s) == [s];
  }

  /** Joining parts that are each at most five characters longer than their
      counterparts gives at most five characters more per part. */
  lemma {:induction false} JoinGrowth(xs: seq<string>, ys: seq<string>, glue: string)
    requires |xs| == |ys|
    requires forall k :: 0 <= k < |xs| ==> |xs[k]| <= |ys[k]| + LengthSlack
    ensures |Join(xs, glue)| <= |Join(ys, glue)| + LengthSlack * |xs|
  {
    if |xs| > 1 {
      JoinGrowth(xs[1..], ys[1..], glue);
    }
  }

  /** A corrected line is at most five characters per chunk longer than the
      chunks of the stripped line joined with single spaces. */
  lemma LineGrowth(model: Model, line: string)
    ensures |CorrectLine(model, line)| <= |Join(Chunks(Strip(line)), " ")| + LengthSlack * |Chunks(Strip(line))|
  {
    var s := Strip(line);
    if |s| > MaxCharChunk {
      JoinGrowth(CorrectUnits(model, Chunks(s)), Chunks(s), " ");
    } else if s != [] {
      ShortLineOneChunk(s);
    }
  }

  lemma StripOfStripped(s: string)
    requires IsStripped(s)
    ensures Strip(s) == s
  {
    assert TrimStart(s) == s;
  }

  /** Stripping drops whitespace only. */
  lemma NonSpaceCharsOfStrip(s: string)
    ensures NonSpaceChars(Strip(s)) == NonSpaceChars(s)
  {
    var a := StripKeepsMiddle(s);
    var b := a + |Strip(s)|;
    assert s == s[..a] + Strip(s) + s[b..];
    NonSpaceCharsAppend(s[..a] + Strip(s), s[b..]);
    NonSpaceCharsAppend(s[..a], Strip(s));
    NonSpaceCharsOfAllSpace(s[..a]);
    NonSpaceCharsOfAllSpace(s[b..]);
  }

  /** The number of pieces cut at a space, which the cursor skips. */
  function SpaceCuts(ps: seq<Piece>): nat {
    if ps == [] then 0 else (if ps[0].skipsSpace then 1 else 0) + SpaceCuts(ps[1..])
  }

  /** The windows hold no more characters than the text without the spaces
      skipped at the cuts. */
  lemma {:induction false} WindowsLength(rest: string)
    ensures |Concat(Windows(rest))| + SpaceCuts(Pieces(rest)) <= |rest|
    decreases |rest|
  {
    if rest != [] {
      var p := Cut(rest);
      var tail := rest[Advance(p)..];
      WindowsLength(tail);
      assert Pieces(rest)[1..] == Pieces(tail) by {
        assert Pieces(rest) == [p] + Pieces(tail);
      }
      assert Concat(Windows(rest)) == Strip(p.content) + Concat(Windows(tail)) by {
        WindowsStep(rest);
        assert Windows(rest)[1..] == Windows(tail);
      }
    }
  }

  /** Joining the chunks of a non-empty text with single spaces gives at most
      the text plus one character for every cut not made at a space: a cut at
      a space turns that space into the joining space, a cut inside a window
      adds one. */
  lemma ChunksLength(text: string)
    requires text != []
    ensures |Join(Chunks(text), " ")| <= |text| + (|Pieces(text)| - 1 - SpaceCuts(Pieces(text)))
  {
    var ws := Windows(text);
    WindowsLength(text);
    ConcatNonEmpty(ws);
    WindowsArePieces(text);
    if Chunks(text) != [] {
      JoinLength(Chunks(text), " ");
    }
  }

  /** A non-blank corrected line is at most the stripped line, plus one
      character for every cut of the chunker not made at a space, plus five
      characters per chunk. */
  lemma LineGrowthBound(model: Model, line: string)
    requires Strip(line) != []
    ensures |CorrectLine(model, line)| <=
      |Strip(line)| + (|Pieces(Strip(line))| - 1 - SpaceCuts(Pieces(Strip(line))))
      + LengthSlack * |Chunks(Strip(line))|
  {
    LineGrowth(model, line);
    ChunksLength(Strip(line));
  }

  lemma ThreeParts<T>(s: seq<T>, n: nat, m: nat)
    requires n <= m <= |s|
    ensures s == s[..n] + s[n..m] + s[m..]
  {
  }

  /** A cut loses no non-whitespace character: what it skips is a space. */
  lemma CutKeepsText(rest: string)
    requires rest != []
    ensures NonSpaceChars(rest) ==
      NonSpaceChars(Strip(Cut(rest).content)) + NonSpaceChars(rest[Advance(Cut(rest))..])
  {
    var p := Cut(rest);
    var tail := rest[Advance(p)..];
    var gap: string := if p.skipsSpace then " " else "";
    assert rest == p.content + gap + tail by {
      var n := |p.content|;
      ThreeParts(rest, n, Advance(p));
      if p.skipsSpace { assert rest[n..n + 1] == [rest[n]]; }
    }
    NonSpaceCharsAppend(p.content + gap, tail);
    NonSpaceCharsAppend(p.content, gap);
    assert NonSpaceChars(gap) == [] by {
      if p.skipsSpace { assert gap[1..] == []; }
    }
    NonSpaceCharsOfStrip(p.content);
  }

  /** The windows hold every non-whitespace character of the text, in order. */
  lemma {:induction false} WindowsKeepText(rest: string)
    ensures NonSpaceChars(Concat(Windows(rest))) == NonSpaceChars(rest)
    decreases |rest|
  {
    if rest != [] {
      var p := Cut(rest);
      var tail := rest[Advance(p)..];
      var ws := Windows(rest);
      WindowsKeepText(tail);
      CutKeepsText(rest);
      assert ws == [Strip(p.content)] + Windows(tail);
      assert ws[1..] == Windows(tail);
      assert Concat(ws) == Strip(p.content) + Concat(Windows(tail));
      NonSpaceCharsAppend(Strip(p.content), Concat(Windows(tail)));
    }
  }

  /** Dropping empty strings does not change the concatenation. */
  lemma {:induction false} ConcatNonEmpty(ss: seq<string>)
    ensures Concat(NonEmpty(ss)) == Concat(ss)
  {
    if ss != [] {
      ConcatNonEmpty(ss[1..]);
      var rest := NonEmpty(ss[1..]);
      assert Concat(ss) == ss[0] + Concat(ss[1..]);
      if ss[0] == [] {
        assert NonEmpty(ss) == rest;
      } else {
        assert NonEmpty(ss) == [ss[0]] + rest;
        assert ([ss[0]] + rest)[1..] == rest;
      }
    }
  }

  /** No character is lost or duplicated by chunking: the chunks joined with
      single spaces hold exactly the non-whitespace characters of the text,
      in order. */
  lemma ChunksKeepText(text: string)
    ensures NonSpaceChars(Join(Chunks(text), " ")) == NonSpaceChars(text)
  {
    NonSpaceCharsOfJoin(Chunks(text));
    ConcatNonEmpty(Windows(text));
    WindowsKeepText(text);
  }

  /** A model whose answer the guard never lets change a unit: it fails,
      returns its input, or inflates beyond the slack. */
  ghost predicate Inert(model: Model) {
    forall u: string :: model(u).None? || model(u) == Some(u) || |model(u).value| > |u| + LengthSlack
  }

  /** What a line becomes under an inert model: stripped, and if longer than
      450 characters, re-joined from its chunks with single spaces. */
  function Baseline(line: string): string {
    var s := Strip(line);
    if |s| > MaxCharChunk then Join(Chunks(s), " ") else s
  }

  /** Under an inert model every line comes out as its baseline. */
  lemma InertLine(model: Model, line: string)
    requires Inert(model)
    ensures CorrectLine(model, line) == Baseline(line)
  {
    var s := Strip(line);
    if |s| > MaxCharChunk {
      var cs := Chunks(s);
      assert CorrectUnits(model, cs) == cs;
    }
  }

  /** Under an inert model, a text whose lines are already stripped and at
      most 450 characters long comes out unchanged. */
  lemma InertKeepsText(model: Model, text: string)
    requires Inert(model)
    requires forall line :: line in SplitOn(text, '\n') ==> IsStripped(line) && |line| <= MaxCharChunk
    ensures Corrected(model, text) == text
  {
    var lines := SplitOn(text, '\n');
    forall k | 0 <= k < |lines| ensures CorrectLine(model, lines[k]) == lines[k] {
      InertLine(model, lines[k]);
      StripOfStripped(lines[k]);
    }
    assert CorrectLines(model, lines) == lines;
  }
}
