# PDF2Braille text core, modelled in Dafny

PDF2Braille turns scanned PDF pages into Grade-1 Braille. After OCR, a
grammar-correction model is run over the text, line by line, and long lines
are cut into chunks first. A guard then rejects any model output that grew by
more than five characters. The corrected text is transliterated into Unicode
Braille cells, and an evaluator scores OCR or corrected text against a
reference.

This project models the three text components of that pipeline:

- `braille.dfy` (module `Braille`) models `BrailleTranslator`.
  - The two constant tables, the number sign `⠼` and the capital sign `⠠`.
  - `translate` as a loop method that carries the number-mode flag. It is proved equal to a left-to-right specification, `Transliteration`.
- `corrector.dfy` (module `Corrector`) models `TextCorrector`.
  - `_chunk_text` as a cursor loop (`ChunkText`), proved equal to a recursive specification (`Chunks`, built on the raw pieces `Pieces`).
  - `correct_text` as nested loops (`CorrectText`), proved equal to `Corrected`.
  - The length-inflation guard.
  - The model behind `_run_model` is a parameter, `string -> Option<string>`. `None` stands for a call that raised, and then the unit itself is returned.
- `levenshtein.dfy` (module `Levenshtein`) holds the edit distance that `Levenshtein.distance` and `nltk.edit_distance` compute.
  - It is a recursive specification with unit costs.
  - A one-row dynamic-programming method (`ComputeDistance`) is proved equal to it.
- `evaluator.dfy` (module `Evaluator`) models `Evaluator`.
  - The light normalisation of `calculate_char_accuracy` (`" ".join(s.split()).lower()`) and the strict normalisation of `calculate_cer`: lower-case, drop everything outside `[\w\s]`, remove all whitespace.
  - CER and character accuracy as exact rationals (`real`).
  - The report of `get_accuracy_report`.
- `strings.dfy` (module `Strings`) holds the Python string built-ins the core relies on: `isspace`, `isdigit`, `isupper`, `lower`, `strip`, `split()`, `split('\n')` and `join`. Each one is restricted to ASCII (see "Left out"). `rfind`, used only by the chunker, is `Corrector.RFind` in `corrector.dfy`.

Two properties one might expect of `correct_text` do not hold for the code, and the model proves what does hold instead:

- Joining a long line's chunks with single spaces does not reproduce the line with its whitespace collapsed. A 450-character cut can fall inside a word, and `correct_text` then joins the two halves with a space. `Corrector.ChunksKeepText` proves the property the code does have: the non-whitespace characters are kept, in order. For the same reason, and because every chunk may grow by five characters, there is no line-level "+5" bound. A corrected line is at most its chunks joined with single spaces plus five characters per chunk (`Corrector.LineGrowth`). Those joined chunks are at most the stripped line plus one character per cut that is not made at a space (`Corrector.ChunksLength`), which gives the bound of `Corrector.LineGrowthBound`.
- A model that returns its input, always fails, or always inflates its input by more than five characters does not leave the text unchanged. `correct_text` strips every line and re-joins long lines from their chunks. So the model proves that such a model yields the stripped or re-chunked lines (`Corrector.InertLine`), and returns the text unchanged when every line is already stripped and at most 450 characters long (`Corrector.InertKeepsText`).

## Model

| member | source | states |
|---|---|---|
| Braille.Translate | src/braille_mapper.py:24-52 | The loop with its number-mode flag, reset on every call, returns exactly `Transliteration(text)`. |
| Braille.Transliteration | src/braille_mapper.py:24-52 | The translation gives at least one cell per input character, so it is empty exactly for the empty text. |
| Braille.Letters | src/braille_mapper.py:7-16 | Every lower-case ASCII letter has a cell. No upper-case letter and no digit has an entry. No entry is `⠼` or `⠠`. |
| Braille.Numbers | src/braille_mapper.py:19-22 | A character has an entry exactly when it is an ASCII digit, and no entry is `⠼` or `⠠`. |
| Braille.DigitsShareLetterCells | src/braille_mapper.py:18-22 | The digits 1-9 and 0 have the cells of the letters a-j. |
| Braille.TableCells | src/braille_mapper.py:7-22 | Every number-table cell is also a letter-table cell, and neither table holds `⠼` or `⠠`, so the signs cannot be confused with a character's own cell. |
| Braille.Cell | src/braille_mapper.py:44-50 | A non-digit, non-capital character gives its letter-table entry, or a space when there is none. Either way the result is a letter-table cell, never `⠼` or `⠠`. |
| Braille.Emit | src/braille_mapper.py:30-50 | One pass of the loop body gives one or two cells for the character. `Braille.EmitShape` says which. |
| Braille.EmitShape | src/braille_mapper.py:28-50 | What one character contributes. A digit gives its cell, preceded by `⠼` only when number mode is off. An upper-case letter gives `⠠` and then the cell of its lower-case form. Any other character gives its table cell, or one space when it has none. |
| Braille.SignPlacement | src/braille_mapper.py:30-42 | In the translation of a prefix, a digit is preceded by `⠼` exactly when it opens a maximal digit run. Every upper-case letter is preceded by its own `⠠`. |
| Braille.TransliterationCounts | src/braille_mapper.py:28-50 | The output has as many `⠼` as maximal digit runs and as many `⠠` as capitals. Its length is the input length plus both counts, so it is never shorter than the input. |
| Braille.OutputAlphabet | src/braille_mapper.py:7-16 | Every output cell is a letter-table value (space and line feed included), `⠼` or `⠠`. |
| Braille.TransliterationAppend | src/braille_mapper.py:25-37 | `translate(a + b)` is `translate(a) + translate(b)`. The one exception: when `a` ends and `b` starts with a digit, the number sign opening `b` is dropped. |
| Braille.ExampleDigitRuns | src/braille_mapper.py:30-35 | `""` gives `""`. `"9"`, `"99"` and `"12"` each carry a single number sign. |
| Braille.ExampleSpaceEndsRun | src/braille_mapper.py:36-37 | A space ends number mode, so `"1 2"` carries two number signs. |
| Braille.ExampleCapitals | src/braille_mapper.py:40-42 | `"A"` gives `⠠⠁`, and `"AB"` gives `⠠⠁⠠⠃`: capitalisation is per letter, not a mode. |
| Braille.ExampleFallback | src/braille_mapper.py:44-50 | A character outside the table becomes one space. |
| Strings.Strip | src/corrector.py:59 | `line.strip()` is no longer than the line and neither starts nor ends with whitespace. |
| Strings.StripKeepsMiddle | src/corrector.py:59-61 | `strip` keeps the text between the leading and trailing whitespace, and it is empty exactly for a blank line. |
| Strings.SplitOn | src/corrector.py:55 | `text.split('\n')` has at least one part, no part holds `'\n'`, and joining with `'\n'` gives the text back. |
| Strings.Words | src/evaluator.py:39 | `s.split()` yields non-empty words without whitespace, which hold exactly the non-whitespace characters of `s` in order. |
| Strings.ToLower | src/braille_mapper.py:42 | The result is never upper case. An upper-case letter goes to the lower-case letter 32 code points above it. Every other character is unchanged. |
| Strings.Lower | src/evaluator.py:68 | `lower()` keeps the length and lower-cases each character. |
| Strings.IsSpace | src/evaluator.py:39 | ASCII whitespace: space, tab, line feed and carriage return among it, and every whitespace character is at or below U+0020. |
| Strings.IsDigit | src/braille_mapper.py:30 | An ASCII digit is never whitespace. |
| Strings.IsUpper | src/braille_mapper.py:40 | An ASCII capital is neither whitespace nor a digit. |
| Strings.IsWordChar | src/evaluator.py:70 | The `\w` class includes every digit, capital and `_`, and no whitespace character. |
| Strings.Join | src/corrector.py:76 | No parts give `""`, one part gives that part, and the result always starts with the first part. `Strings.SplitOn` states that joining the parts of a split gives the text back. |
| Strings.WordsOfJoin | src/evaluator.py:39 | Splitting words that were joined with single spaces gives back the same words. |
| Strings.WordsOfLower | src/evaluator.py:39 | The words of the lower-cased text are the text's words, each lower-cased. |
| Strings.SplitOnWhole | src/corrector.py:55 | A text without `'\n'` splits into itself alone. |
| Corrector.RFind | src/corrector.py:24 | `rfind(' ')` is -1 when there is no space, else the index of the last space. |
| Corrector.Cut | src/corrector.py:19-36 | One window is non-empty, at most 450 characters, and a prefix of the rest. It is the whole rest when at most 450 characters remain. A space cut lies past position 400 of a non-final window, and the character skipped is that space. Otherwise a non-final window is exactly 450 characters. |
| Corrector.CutAtLastSpace | src/corrector.py:23-28 | A non-final window is cut at a space exactly when one of its positions 401-449 holds a space, and then at the last one. |
| Corrector.CursorAdvances | src/corrector.py:18-36 | The cursor always advances, by more than 400 characters at a non-final window and by the whole rest at the last one, and never skips text. |
| Corrector.NextChunk | src/corrector.py:19-36 | One pass of the loop body produces the stripped window of the rest of the text, and moves the cursor by exactly that window's advance. On the last window the cursor may overshoot the end, as `i += 450` does. |
| Corrector.Pieces | src/corrector.py:14-36 | The raw pieces, with each skipped space put back after its piece, are exactly the text. Each piece is 1-450 characters, every piece but the last is longer than 400, and the last skips no space. |
| Corrector.WindowsArePieces | src/corrector.py:18-36 | The loop's appended chunks are the stripped raw pieces, in order. |
| Corrector.Chunks | src/corrector.py:37 | Every returned chunk is non-empty, at most 450 characters, and has no leading or trailing whitespace. |
| Corrector.ChunkText | src/corrector.py:14-37 | The cursor loop returns exactly `Chunks(text)`. |
| Corrector.NonEmpty | src/corrector.py:37 | The filter keeps no more strings than it is given. A string is kept exactly when it is one of the given strings and is not empty. |
| Corrector.NonEmptyAppend | src/corrector.py:37 | Filtering a concatenation filters each part, so the kept chunks stay in their order, duplicates included. |
| Corrector.ChunksKeepText | src/corrector.py:18-37 | Joining the chunks with spaces loses, adds and reorders no non-whitespace character. |
| Corrector.ShortLineOneChunk | src/corrector.py:33-37 | A stripped non-empty line of at most 450 characters is a single chunk. |
| Corrector.RunModel | src/corrector.py:39-47 | The model's output, or the unit itself when the call fails. |
| Corrector.Guard | src/corrector.py:70-73 | A candidate at most five characters longer than the unit is kept, and any other is replaced by the unit. The result is never more than five characters longer. |
| Corrector.CorrectUnit | src/corrector.py:69-73 | A corrected unit is the unit itself, or the model's answer for it when that is at most five characters longer. |
| Corrector.CorrectUnits | src/corrector.py:67-73 | One corrected chunk per chunk, in order. |
| Corrector.CorrectChunks | src/corrector.py:67-73 | The inner loop returns exactly `CorrectUnits(model, chunks)`: one guarded model answer per chunk, in order. |
| Corrector.CorrectLine | src/corrector.py:58-83 | A blank line becomes `""`. A stripped line of 1-450 characters becomes itself or the model's answer for it, at most five characters longer. Longer lines are bounded by `Corrector.LineGrowth`. |
| Corrector.CorrectOneLine | src/corrector.py:58-83 | The body of the outer loop returns exactly `CorrectLine(model, line)`, taking the blank, long and short branches as the code does. |
| Corrector.CorrectLines | src/corrector.py:55-62 | Exactly one output line per input line, in order. |
| Corrector.CorrectText | src/corrector.py:49-85 | The nested loops return exactly `Corrected(model, text)`, the corrected lines joined with `'\n'`. |
| Corrector.Corrected | src/corrector.py:49-85 | A text without `'\n'` is corrected as one line. |
| Corrector.JoinGrowth | src/corrector.py:67-76 | Joining parts that are each at most five characters longer than their counterparts adds at most five characters per part. |
| Corrector.LineGrowth | src/corrector.py:58-83 | Any corrected line, chunked or not, is at most its stripped line's chunks joined with spaces plus five characters per chunk. |
| Strings.JoinLength | src/corrector.py:76 | Joining n parts adds n - 1 copies of the glue to the total length of the parts. |
| Corrector.ChunksLength | src/corrector.py:14-37 | The chunks of a non-empty text, joined with single spaces, are at most the text's length plus one character for every cut not made at a space. A cut at a space reuses that space as the joining space. |
| Corrector.LineGrowthBound | src/corrector.py:58-83 | A non-blank corrected line is at most the stripped line, plus one character per cut not made at a space, plus five characters per chunk. |
| Corrector.InertLine | src/corrector.py:45-83 | If the model always fails, returns its input or inflates beyond +5, a line of at most 450 characters comes out as `line.strip()`. A longer one comes out as its chunks joined with spaces. |
| Corrector.InertKeepsText | src/corrector.py:49-85 | Under such a model, a text whose lines are stripped and at most 450 characters long comes out unchanged. |
| Levenshtein.ComputeDistance | src/evaluator.py:48 | The row-by-row dynamic program returns exactly the recursive edit distance. |
| Levenshtein.Distance | src/evaluator.py:48 | Deleting all of one string and inserting all of the other bounds the distance: d(a, b) ≤ len a + len b. |
| Levenshtein.NextRow | src/evaluator.py:82 | Updating the row array in place turns it from the distances of `a[..i-1]` to every prefix of `b` into those of `a[..i]`. |
| Levenshtein.Recurrence | src/evaluator.py:46-48 | The edit distance of two non-empty prefixes is the least of a deletion, an insertion and a substitution (free when the characters match), each added to a shorter pair. |
| Levenshtein.DistanceToSelf | src/evaluator.py:46-48 | d(a, a) = 0. |
| Levenshtein.DistanceSymmetric | src/evaluator.py:46-48 | d(a, b) = d(b, a). |
| Levenshtein.DistanceBounds | src/evaluator.py:46-48 | The length difference ≤ d ≤ the longer length. |
| Levenshtein.DistanceZero | src/evaluator.py:82 | d = 0 exactly when the strings are equal. |
| Levenshtein.DistanceAppend | src/evaluator.py:46-48 | Appending one character to each string costs at most one substitution. |
| Evaluator.LightNormalize | src/evaluator.py:39-40 | The result is words separated by single spaces, with no leading or trailing whitespace, and lower-case. Its words are exactly the text's words lower-cased, in order. It is empty exactly for a blank text. |
| Evaluator.SingleSpacedIsJoin | src/evaluator.py:39 | A single-spaced text is its own words joined with single spaces. |
| Evaluator.LightNormalFormUnique | src/evaluator.py:39-40 | Any single-spaced text with the lower-cased words of `text` is `LightNormalize(text)`, so the contract fixes where the spaces fall. |
| Evaluator.KeepWordAndSpace | src/evaluator.py:70 | Every kept character is a word character or whitespace, the result is never longer than the text, and a text made only of such characters is kept unchanged. |
| Evaluator.KeepWordAndSpaceAppend | src/evaluator.py:70 | Filtering a concatenation filters each part, so every word character and whitespace character is kept, in order. |
| Evaluator.StrictNormalize | src/evaluator.py:66-73 | The result is exactly the word characters of the lower-cased text, in order. |
| Evaluator.StrictNormalForm | src/evaluator.py:66-73 | The result holds only lower-case word characters and no whitespace, and normalising twice equals normalising once. |
| Evaluator.Cer | src/evaluator.py:60-87 | CER is non-negative. It is 0 for an empty normalised reference. Otherwise it is 0 exactly when both texts normalise to the same string. |
| Evaluator.ErrorRate | src/evaluator.py:78-85 | The rate is non-negative, 0 for an empty reference, and otherwise 0 exactly when the text equals the reference. |
| Evaluator.ErrorRateEdits | src/evaluator.py:82-85 | The ratio times the reference length is the edit count, and the ratio is at most 1 when the text is not longer than the reference. |
| Evaluator.CerAtMostOne | src/evaluator.py:82-85 | CER is at most 1 when the normalised text is not longer than the normalised reference. |
| Evaluator.CerOfSelf | src/evaluator.py:75-87 | CER of a text against itself is 0. |
| Evaluator.CharAccuracy | src/evaluator.py:33-58 | The accuracy is at most 100, and it is not clamped below. For a blank reference it is 100 if the text is blank too and 0 otherwise. Otherwise it is 100 exactly when both texts normalise to the same string, and negative exactly when the edit distance exceeds the reference length. |
| Evaluator.AccuracyRange | src/evaluator.py:52-56 | `(1 - d/n) * 100` is at most 100, equals 100 exactly when d = 0, and is negative exactly when d > n. |
| Evaluator.CharAccuracyLowerBound | src/evaluator.py:48-58 | The accuracy is never below `100 - 100 * max(len gt, len text) / len gt`. |
| Evaluator.WordsEmpty | src/evaluator.py:43-44 | A text has no words exactly when it is blank. |
| Evaluator.AccuracyReportOf | src/evaluator.py:89-100 | `corrected_cer` is non-negative and 0 for an empty normalised reference. `character_accuracy` is at most 100. `raw_length` is the number of non-whitespace characters of the raw reference. |
| Evaluator.ReportFields | src/evaluator.py:91-99 | `corrected_cer` is CER × 100, and `character_accuracy` is the accuracy passed through unchanged. |

## Left out

- OCR (`src/ocr_engine.py`: PDF rasterisation, file checks, EasyOCR inference) is not part of this model. It is I/O and foreign libraries.
- The T5 pipeline, its construction and the `"grammar: "` prompt prefix (src/corrector.py:5-12, 42-44) are left out. The model is an arbitrary function parameter, and an exception is `None`, after which the unit itself is returned.
- The NLTK `wordnet` download at import time (src/evaluator.py:11-27) is left out because it is network I/O. The internals of `Levenshtein.distance` and `nltk.edit_distance` are replaced by the edit-distance specification. Both compute the same unit-cost distance, which is symmetric.
- `app.py` (the Streamlit UI, DOCX export and `clean_final_text`) is not part of this model.
- Floating point is left out: CER and accuracy are exact rationals (`real`), so rounding and the `:.2f` display formatting are not modelled.
- Unicode is left out: character classes are ASCII only.
  - `isdigit` is `0`-`9` and `isupper` is `A`-`Z`.
  - `lower` maps only `A`-`Z`, one character to one.
  - Whitespace is the ASCII characters Python's `isspace` accepts.
  - `\w` is `[A-Za-z0-9_]`.
  - So non-ASCII digits (for which `num_map.get` yields `''`), non-ASCII capitals and length-changing lower-casing are not modelled.
- Strings.Words: only the first word is stated to be maximal, and only when the text starts with a non-whitespace character. That a later word is not split further follows from its definition but is not part of its contract.
- Evaluator.Cer: it does not state the multiplication `CER × len(reference) = edits` itself. That identity is stated by `Evaluator.ErrorRateEdits` on the normalised strings, which `Cer` returns unchanged.
- The model's nondeterminism and cost (batching, `max_length=512` tokens) are not modelled. Every call is a pure function of its input.
