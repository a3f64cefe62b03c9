/** The decision logic of the `Command` component
    (src/text-complexity.tsx): which scores are computed from the text, and
    which lines the description shows. Rendering numbers (`toFixed(3)` and
    `toLocaleString`) is passed in as functions. */
module Report {
  import opened CodeUnits
  import Tokenizer
  import Mattr

  /** The state derived from the text on every change. */
  datatype Analysis = Analysis(wordCount: nat, mattr100: real, mattr500: real)

  /** The effect that runs whenever the text changes: count the tokens and
      score them with windows of 100 and 500 words; with no token at all
      both scores are 1 and no score is computed. */
  method Analyze(text: Utf16) returns (a: Analysis)
    ensures a.wordCount == |Tokenizer.Tokenize(text)|
    ensures a.wordCount == 0 ==> a.mattr100 == 1.0 && a.mattr500 == 1.0
    ensures a.wordCount > 0 ==>
      && a.mattr100 == Mattr.BruteForceMattr(Tokenizer.Tokenize(text), 100)
      && a.mattr500 == Mattr.BruteForceMattr(Tokenizer.Tokenize(text), 500)
    ensures 0.0 < a.mattr100 <= 1.0 && 0.0 < a.mattr500 <= 1.0
    ensures a.wordCount >= 100 ==> 1.0 / 100.0 <= a.mattr100
    ensures a.wordCount >= 500 ==> 1.0 / 500.0 <= a.mattr500
  {
    var words := Tokenizer.Tokenize(text);
    var mattr100 := 1.0;
    var mattr500 := 1.0;
    if |words| > 0 {
      mattr100 := Mattr.CalculateMattr(words, 100);
      mattr500 := Mattr.CalculateMattr(words, 500);
      Mattr.MattrRange(words, 100);
      Mattr.MattrRange(words, 500);
      if |words| >= 100 {
        Mattr.MattrMovingAverageRange(words, 100);
      }
      if |words| >= 500 {
        Mattr.MattrMovingAverageRange(words, 500);
      }
    }
    a := Analysis(|words|, mattr100, mattr500);
  }

  /** The four parts of the description, in display order. */
  datatype Description = Description(
    mattr100Line: string,
    mattr500Line: string,
    wordCountLine: string,
    inaccuracyWarning: string)
  {
    function Text(): string {
      mattr100Line + mattr500Line + wordCountLine + inaccuracyWarning
    }
  }

  /** The fixed texts of the description. */
  const Mattr100Caption: string := " MATTR-100 score (0.80 typical)"
  const Mattr500Caption: string := " MATTR-500 score (0.58 typical)"
  const WordsCaption: string := " words"
  const Caveat: string := " (may be inaccurate with <100 words)"

  /** A line that shows `value` followed by `caption`. */
  function ShowLine(value: string, caption: string): (line: string)
    ensures value <= line && |line| == |value| + |caption|
    ensures line[|value|..] == caption
  {
    assert (value + caption)[..|value|] == value;
    value + caption
  }

  /** A line that starts on a new line and shows `value` followed by
      `caption`. */
  function NewLine(value: string, caption: string): (line: string)
    ensures line != [] && line[0] == '\n' && value <= line[1..]
  {
    var shown := ShowLine(value, caption);
    assert ("\n" + shown)[1..] == shown;
    "\n" + shown
  }

  /** The description of an analysis. The MATTR-100 line and the word-count
      line are always shown; the MATTR-500 line only from 500 words on; the
      caveat only below 100 words. */
  function Describe(a: Analysis, toFixed3: real -> string, formatNumber: nat -> string): (d: Description)
    ensures d.mattr500Line != [] <==> a.wordCount >= 500
    ensures d.inaccuracyWarning != [] <==> a.wordCount < 100
    ensures toFixed3(a.mattr100) <= d.Text()
    ensures toFixed3(a.mattr100) <= d.mattr100Line && d.mattr100Line != []
    ensures a.wordCount >= 500 ==> d.mattr500Line[0] == '\n' && toFixed3(a.mattr500) <= d.mattr500Line[1..]
    ensures d.wordCountLine != [] && d.wordCountLine[0] == '\n'
    ensures formatNumber(a.wordCount) <= d.wordCountLine[1..]
  {
    var mattr100Line := ShowLine(toFixed3(a.mattr100), Mattr100Caption);
    var mattr500Line := if a.wordCount >= 500 then NewLine(toFixed3(a.mattr500), Mattr500Caption) else "";
    var wordCountLine := NewLine(formatNumber(a.wordCount), WordsCaption);
    var inaccuracyWarning := if a.wordCount < 100 then Caveat else "";
    var d := Description(mattr100Line, mattr500Line, wordCountLine, inaccuracyWarning);
    CaptionsNonEmpty();
    TextStartsWith(d, toFixed3(a.mattr100));
    d
  }

  lemma CaptionsNonEmpty()
    ensures |Mattr100Caption| > 0 && |Caveat| > 0
  {
  }

  /** The description's text starts with its first line, so with anything
      that line starts with. */
  lemma TextStartsWith(d: Description, value: string)
    requires value <= d.mattr100Line
    ensures value <= d.Text()
  {
    var rest := d.mattr500Line + d.wordCountLine + d.inaccuracyWarning;
    assert d.Text() == d.mattr100Line + rest;
    assert (d.mattr100Line + rest)[..|value|] == value;
  }
}
