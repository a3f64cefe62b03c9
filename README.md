# MATTR text complexity — a Dafny model

This project models the analysis core of a Raycast command that scores the
lexical diversity of a text with the Moving-Average Type-Token Ratio (MATTR).
The command takes pasted or typed text through a pipeline:

1. **Sanitize** (`sanitizeText`). Every ASCII control code unit becomes a
   space. Every UTF-16 surrogate code unit is deleted.
2. **Tokenize** (`tokenize`). The text is lowercased and split on runs of
   non-word characters (`\W+`, so anything outside `[A-Za-z0-9_]`). Empty
   pieces are dropped.
3. **Score** (`calculateMATTR`). A frequency map slides over the tokens, one
   window of `windowSize` words at a time. The result is the mean over all
   windows of (distinct words in the window) / `windowSize`. With fewer words
   than the window, the result is the type-token ratio of the whole text, or
   0 when there are no words.
4. **Report** (the `Command` component). The text is scored with windows of
   100 and 500 words. Both scores default to 1 when there is no word. The
   description shows the MATTR-500 line only from 500 words on, and a caveat
   only below 100 words.

Text is modelled as a sequence of UTF-16 code units (`CodeUnits.Utf16`, each
unit an `int` in `[0, 65536)`). This is how JavaScript strings and the
command's regular expressions, which have no `u` flag, see text. Scores are
exact `real`s.

Files, one module each:

- `code_units.dfy`: `CodeUnits`, the code-unit type and the `Word` type shared
  by the tokenizer and the MATTR computation.
- `sanitizer.dfy`: `Sanitizer`, the two replacement passes and their
  properties.
- `tokenizer.dfy`: `Tokenizer`, lowercasing, `split(/\W+/)` with its empty
  pieces, the filter, and a reference definition (the maximal runs of word
  units) with the lemmas that connect them.
- `mattr.dfy`: `Mattr`, the brute-force reference `BruteForceMattr`, the
  reference frequency map `Frequencies`, and the method `CalculateMattr`. The
  method holds its map in a local `map<Word, nat>` variable and reassigns it
  at each step with the same update the source applies to its `Map`; nothing
  else refers to that map. The source's first loop, which fills the map for
  the first window, is the method `CountWords`. The sliding loop's invariant
  is that the map is the frequency map of the current window. The method's
  postcondition is that the result equals the brute-force value.
- `report.dfy`: `Report`, the caller's defaulting and line-selection logic.

Three behaviours of the code are worth stating outright:

- An empty word list scores 0 (src/text-complexity.tsx:25). The caller never
  passes one: it uses 1 for both scores when there is no word
  (src/text-complexity.tsx:89-90).
- All surrogate units are deleted, valid high/low pairs included
  (src/text-complexity.tsx:8).
- The window sizes (100, 500), the baselines ("0.80", "0.58"), the three
  decimals and the 100-word caveat threshold are constants
  (src/text-complexity.tsx:89-96).

## Model

| member | source | states |
|---|---|---|
| `Sanitizer.Sanitize` | src/text-complexity.tsx:4-9 | The output holds no control unit (0x00–0x1F, 0x7F) and no surrogate unit (0xD800–0xDFFF), and is never longer than the input |
| `Sanitizer.ReplaceControls` | src/text-complexity.tsx:7 | The first pass keeps the length, turns every control unit into a space, keeps every other unit in place, and leaves no control unit |
| `Sanitizer.RemoveSurrogates` | src/text-complexity.tsx:8 | The second pass leaves no surrogate unit, is never longer than its input, and keeps only units of its input |
| `Sanitizer.SanitizeIsUnitwise` | src/text-complexity.tsx:6-8 | Sanitizing equals a unit-by-unit reference: each control unit becomes exactly one space, each surrogate unit is removed, every other unit is kept in its original order |
| `Sanitizer.SanitizeConcat` | src/text-complexity.tsx:6-8 | Sanitizing distributes over concatenation: no replacement depends on neighbouring units |
| `Sanitizer.SanitizeClean` | src/text-complexity.tsx:6-8 | Text without control or surrogate units is returned unchanged |
| `Sanitizer.SanitizeIdempotent` | src/text-complexity.tsx:4-9 | Sanitizing sanitized text changes nothing |
| `Sanitizer.SanitizeLength` | src/text-complexity.tsx:6-8 | The output length is the input length minus the number of surrogate units |
| `Sanitizer.SanitizeKeepsLengthIff` | src/text-complexity.tsx:6-8 | The output is at most as long as the input, and exactly as long if and only if the input has no surrogate unit |
| `Sanitizer.SanitizeDropsPairs` | src/text-complexity.tsx:8 | A valid high/low surrogate pair is deleted entirely, like unpaired halves |
| `Tokenizer.Split` | src/text-complexity.tsx:18 | `split(/\W+/)` yields at least one piece, and every piece holds only word units |
| `Tokenizer.SplitNoUpper` | src/text-complexity.tsx:17-18 | Splitting lowercased text (no A–Z) yields pieces with no A–Z |
| `Tokenizer.NonEmpty` | src/text-complexity.tsx:19 | The filter keeps only non-empty pieces, each taken from its input |
| `Tokenizer.Tokenize` | src/text-complexity.tsx:15-20 | Every token is non-empty and made only of `[a-z0-9_]` |
| `Tokenizer.ToLower` | src/text-complexity.tsx:17 | Lowercasing keeps the length, turns each A–Z unit into the matching a–z unit (code point plus 0x20), keeps every other unit in place, and so leaves no A–Z |
| `Tokenizer.LowerHasNoUpper` | src/text-complexity.tsx:17 | Lowercasing leaves no A–Z and keeps every unit's word / non-word class |
| `Tokenizer.NonEmptySplitIsRuns` | src/text-complexity.tsx:18-19 | Splitting on `\W+` and dropping empty pieces gives exactly the maximal runs of word units, in order |
| `Tokenizer.TokenizeIsRuns` | src/text-complexity.tsx:15-20 | The tokens are exactly the maximal runs of word units of the lowercased text, in text order |
| `Tokenizer.TokenizeEmptyIff` | src/text-complexity.tsx:16-19 | There are no tokens if and only if the text has no word unit, so the empty text and delimiter-only text give `[]` |
| `Tokenizer.TokenizePreservesWordUnits` | src/text-complexity.tsx:17-19 | The tokens, concatenated in order, are exactly the word units of the lowercased text, in order |
| `Tokenizer.TokenizeAtDelimiter` | src/text-complexity.tsx:18 | A non-word unit separates tokens: the tokens of `a + [d] + b` are those of `a` followed by those of `b` |
| `Tokenizer.TokenizeWordRun` | src/text-complexity.tsx:18 | A run of word units is never split: it is one token, lowercased |
| `Mattr.TypesOccur` | src/text-complexity.tsx:24 | `new Set(words)` holds exactly the words that occur at least once, the first word included |
| `Mattr.AddCounts` | src/text-complexity.tsx:35 | `set(word, (get(word) \|\| 0) + 1)` adds `word` as a key, counts it once more than before (once if it was absent), and changes no other entry |
| `Mattr.FrequenciesCount` | src/text-complexity.tsx:32-36 | The frequency map of a window has the window's distinct words as keys, maps each to its number of occurrences, and so has no entry with count 0 |
| `Mattr.FrequenciesSize` | src/text-complexity.tsx:37 | The map's size is the number of distinct words of the window |
| `Mattr.FrequenciesAppend` | src/text-complexity.tsx:51-52 | `set(word, (get(word) \|\| 0) + 1)` turns the map of a window into the map of the window extended by `word` |
| `Mattr.FrequenciesRemoveFront` | src/text-complexity.tsx:42-48 | The outgoing word is in the map with count at least 1, so `get(removedWord)!` is safe; deleting it at count 1 or decrementing it otherwise gives the map of the rest of the window |
| `Mattr.CountWords` | src/text-complexity.tsx:31-36 | The first loop builds exactly the frequency map of the first window |
| `Mattr.TtrSumStep` | src/text-complexity.tsx:37-55 | Adding `wordCounts.size / windowSize` for the next window extends the running sum of window ratios by that window's ratio |
| `Mattr.SlideWindow` | src/text-complexity.tsx:42-51 | Sliding the window by one drops `words[i - 1]` and appends `words[i + windowSize - 1]` |
| `Mattr.CalculateMattr` | src/text-complexity.tsx:22-59 | The incremental computation equals the brute-force reference: the whole-text ratio (0 for no words) below `windowSize` words, otherwise the mean over all `\|words\| - windowSize + 1` windows of their distinct-word ratio |
| `Mattr.DistinctBounds` | src/text-complexity.tsx:24-25 | A non-empty word list has between 1 and `\|words\|` distinct words |
| `Mattr.DistinctAllDifferent` | src/text-complexity.tsx:24-25 | The distinct count equals the length if and only if no word repeats |
| `Mattr.TtrSumScaled` | src/text-complexity.tsx:37-55 | Adding the window ratios one by one equals dividing the summed distinct counts by the window size |
| `Mattr.DistinctSumBounds` | src/text-complexity.tsx:37-55 | The distinct counts of `k` windows sum to between `k` and `k * windowSize` |
| `Mattr.MattrRange` | src/text-complexity.tsx:22-58 | The score lies in `[0, 1]`, and is 0 if and only if there are no words |
| `Mattr.MattrMovingAverageRange` | src/text-complexity.tsx:28-58 | With at least `windowSize` words the score lies in `[1/windowSize, 1]` |
| `Mattr.MattrWindowOne` | src/text-complexity.tsx:28-58 | With a window of one word, a non-empty text scores exactly 1, however often its words repeat |
| `Mattr.MattrAllDifferent` | src/text-complexity.tsx:22-58 | A non-empty text in which no word repeats scores exactly 1 for every window size |
| `Report.Analyze` | src/text-complexity.tsx:86-91 | The word count is the number of tokens. With no token both scores are 1; otherwise they are the MATTR with windows of 100 and 500. Both scores lie in `(0, 1]`, and each is at least 1/window once the text has a full window |
| `Report.ShowLine` | src/text-complexity.tsx:93 | A line is its value followed by its caption: the value is a prefix, and the rest of the line is exactly the caption |
| `Report.NewLine` | src/text-complexity.tsx:94-95 | A line that starts with a newline and then shows its value |
| `Report.Describe` | src/text-complexity.tsx:93-97 | The MATTR-100 line shows the MATTR-100 score and the description starts with it. The MATTR-500 line is present if and only if there are at least 500 words, and then starts on a new line showing the MATTR-500 score. The word-count line starts on a new line showing the formatted word count. The caveat is present if and only if there are fewer than 100 words |

## Left out

- React and Raycast glue: the `useState` hooks, the clipboard read at start-up
  with its failure toast (src/text-complexity.tsx:67-84), and the `Form`
  rendering with its `onChange` handler (src/text-complexity.tsx:99-111). This
  is host I/O, UI and an asynchronous call. `Report.Analyze` takes the text as
  a parameter.
- Number rendering: `toLocaleString` (`formatNumber`, src/text-complexity.tsx:11-13)
  and `toFixed(3)` depend on locale and floating point. `Report.Describe`
  receives them as function parameters.
- Floating point: sums and divisions are exact `real`s, so rounding and
  summation-order effects of IEEE doubles are not modelled.
- Tokenizer.ToLower: lowercases only ASCII A–Z and leaves every other unit
  unchanged. Full Unicode `toLowerCase` also maps a few non-ASCII characters
  to ASCII letters or changes the text's length (U+0130, U+212A). The lemmas
  about tokens hold for this ASCII lowercasing.
- Mattr.CalculateMattr: requires `windowSize >= 1`. The callers pass only 100
  and 500; with 0 the source would divide 0 by 0. The default argument
  `windowSize = 100` is not modelled, since both calls pass it.
