/** `calculateMATTR` (src/text-complexity.tsx): the Moving-Average
    Type-Token Ratio of a word sequence, computed with a frequency map that
    slides over the words. Arithmetic is exact (`real`). */
module Mattr {
  import opened CodeUnits

  /** The distinct words of `ws` (`new Set(ws)`). */
  function Types(ws: seq<Word>): set<Word> {
    set x | x in ws
  }

  /** A word is one of the types of `ws` exactly when it occurs there at
      least once; a non-empty sequence has its first word among them. */
  lemma TypesOccur(ws: seq<Word>)
    ensures forall x :: x in Types(ws) <==> multiset(ws)[x] >= 1
    ensures ws != [] ==> ws[0] in Types(ws)
  {
  }

  function Distinct(ws: seq<Word>): nat {
    |Types(ws)|
  }

  /** The type-token ratio of the window of `w` words starting at `i`. */
  function WindowTtr(words: seq<Word>, w: nat, i: nat): real
    requires 1 <= w && i + w <= |words|
  {
    Distinct(words[i..i + w]) as real / w as real
  }

  /** The sum of the ratios of the first `k` windows, added in window order. */
  function TtrSum(words: seq<Word>, w: nat, k: nat): real
    requires 1 <= w && k + w <= |words| + 1
  {
    if k == 0 then 0.0 else TtrSum(words, w, k - 1) + WindowTtr(words, w, k - 1)
  }

  /** Reference definition, computed from scratch window by window: the
      whole-text type-token ratio when there are fewer words than the window
      (0 with no words), otherwise the mean over all
      `|words| - w + 1` windows of their type-token ratios. */
  function BruteForceMattr(words: seq<Word>, w: nat): real
    requires 1 <= w
  {
    if |words| < w then
      if |words| > 0 then Distinct(words) as real / |words| as real else 0.0
    else
      TtrSum(words, w, |words| - w + 1) / (|words| - w + 1) as real
  }

  /** `wordCounts.set(word, (wordCounts.get(word) || 0) + 1)` */
  function Add(counts: map<Word, nat>, word: Word): map<Word, nat> {
    counts[word := (if word in counts then counts[word] else 0) + 1]
  }

  /** `Add` gains the key `word`, counts it once more than before (once if
      it was absent), and changes no other entry. */
  lemma AddCounts(counts: map<Word, nat>, word: Word)
    ensures Add(counts, word).Keys == counts.Keys + {word}
    ensures word in counts ==> Add(counts, word)[word] == counts[word] + 1
    ensures word !in counts ==> Add(counts, word)[word] == 1
    ensures forall x :: x in counts && x != word ==> Add(counts, word)[x] == counts[x]
  {
  }

  /** Reference frequency map of `ws`: its words added one by one. */
  function Frequencies(ws: seq<Word>): map<Word, nat> {
    if ws == [] then map[] else Add(Frequencies(ws[..|ws| - 1]), ws[|ws| - 1])
  }

  /** The frequency map holds exactly the words of `window`, each with the
      number of times it occurs there; hence no entry has count 0. */
  ghost predicate CountsWindow(counts: map<Word, nat>, window: seq<Word>) {
    && counts.Keys == Types(window)
    && forall x {:trigger counts[x]} :: x in counts ==> counts[x] == multiset(window)[x]
  }

  /** The frequency map of a window maps each of its words to the number of
      its occurrences there, and holds no other key. */
  lemma {:induction false} FrequenciesCount(ws: seq<Word>)
    ensures CountsWindow(Frequencies(ws), ws)
    ensures forall x :: x in Frequencies(ws) ==> Frequencies(ws)[x] >= 1
  {
    if ws == [] {
      assert Types(ws) == {};
    } else {
      var init, last := ws[..|ws| - 1], ws[|ws| - 1];
      assert ws == init + [last];
      FrequenciesCount(init);
      var m := Frequencies(init);
      assert multiset(ws) == multiset(init) + multiset{last};
      assert Types(ws) == Types(init) + {last};
      if last !in m {
        assert last !in multiset(init);
      }
    }
  }

  /** A map that counts `ws` is its frequency map. */
  lemma CountsWindowUnique(counts: map<Word, nat>, ws: seq<Word>)
    requires CountsWindow(counts, ws)
    ensures counts == Frequencies(ws)
  {
    FrequenciesCount(ws);
    var f := Frequencies(ws);
    assert counts.Keys == f.Keys;
    forall x | x in counts ensures counts[x] == f[x] {
    }
  }

  /** The map's size is the number of distinct words of its window. */
  lemma FrequenciesSize(ws: seq<Word>)
    ensures |Frequencies(ws)| == Distinct(ws)
  {
    FrequenciesCount(ws);
    assert |Frequencies(ws)| == |Frequencies(ws).Keys|;
  }

  /** Adding the word that enters the window at its end:
      `wordCounts.set(word, (wordCounts.get(word) || 0) + 1)`. */
  lemma FrequenciesAppend(counts: map<Word, nat>, ws: seq<Word>, word: Word)
    requires counts == Frequencies(ws)
    ensures counts[word := (if word in counts then counts[word] else 0) + 1] == Frequencies(ws + [word])
  {
    assert (ws + [word])[..|ws|] == ws;
  }

  /** Removing the word that leaves the window at its front: its count is at
      least 1 (so the `get(removedWord)!` lookup always succeeds), and
      deleting the entry at count 1, or decrementing it otherwise, leaves the
      frequency map of the rest of the window. */
  lemma FrequenciesRemoveFront(counts: map<Word, nat>, word: Word, ws: seq<Word>)
    requires counts == Frequencies([word] + ws)
    ensures word in counts && counts[word] >= 1
    ensures counts[word] == 1 ==> counts - {word} == Frequencies(ws)
    ensures counts[word] != 1 ==> counts[word := counts[word] - 1] == Frequencies(ws)
  {
    var whole := [word] + ws;
    FrequenciesCount(whole);
    assert whole[0] == word;
    assert multiset(whole) == multiset{word} + multiset(ws);
    assert Types(whole) == {word} + Types(ws);
    var rest := if counts[word] == 1 then counts - {word} else counts[word := counts[word] - 1];
    if counts[word] == 1 {
      assert word !in multiset(ws);
      assert Types(ws) == Types(whole) - {word};
    } else {
      assert word in multiset(ws);
      assert Types(ws) == Types(whole);
    }
    assert CountsWindow(rest, ws);
    CountsWindowUnique(rest, ws);
  }

  /** Sliding from the window starting at `lo` to the one starting at
      `hi == lo + 1` drops the word `words[hi - 1]` from the front and
      appends `words[hi + w - 1]`. */
  lemma SlideWindow(words: seq<Word>, lo: nat, hi: nat, w: nat, window: seq<Word>)
    requires hi == lo + 1 && 1 <= w && hi + w <= |words|
    requires window == words[lo..lo + w]
    ensures window == [words[hi - 1]] + window[1..]
    ensures window[1..] + [words[hi + w - 1]] == words[hi..hi + w]
  {
  }

  /** One more window adds its distinct-word ratio to the running sum. */
  lemma TtrSumStep(words: seq<Word>, w: nat, k: nat, window: seq<Word>)
    requires 1 <= w && k + w <= |words|
    requires window == words[k..k + w]
    ensures TtrSum(words, w, k + 1) == TtrSum(words, w, k) + |Frequencies(window)| as real / w as real
  {
    FrequenciesSize(window);
  }

  /** The first loop of `calculateMATTR`: counts the words of the first
      window into a fresh map, one `set` per word. */
  method CountWords(window: seq<Word>) returns (wordCounts: map<Word, nat>)
    ensures wordCounts == Frequencies(window)
  {
    wordCounts := map[];
    for i := 0 to |window|
      invariant wordCounts == Frequencies(window[..i])
    {
      var word := window[i];
      FrequenciesAppend(wordCounts, window[..i], word);
      assert window[..i] + [word] == window[..i + 1];
      wordCounts := wordCounts[word := (if word in wordCounts then wordCounts[word] else 0) + 1];
    }
    assert window[..|window|] == window;
  }

  /** `calculateMATTR(words, windowSize)`: the incremental computation gives
      exactly the window-by-window reference value. */
  method CalculateMattr(words: seq<Word>, windowSize: nat) returns (score: real)
    requires windowSize >= 1
    ensures score == BruteForceMattr(words, windowSize)
  {
    if |words| < windowSize {
      var uniqueWords := Types(words);
      return if |words| > 0 then |uniqueWords| as real / |words| as real else 0.0;
    }

    var numWindows := |words| - windowSize + 1;
    var sumTtr := 0.0;

    // Frequency map of the first window.
    var wordCounts := CountWords(words[..windowSize]);
    TtrSumStep(words, windowSize, 0, words[..windowSize]);
    sumTtr := sumTtr + |wordCounts| as real / windowSize as real;

    // Slide the window one word at a time.
    ghost var start := 0;
    ghost var window := words[..windowSize];
    for i := 1 to numWindows
      invariant start == i - 1
      invariant window == words[start..start + windowSize]
      invariant wordCounts == Frequencies(window)
      invariant sumTtr == TtrSum(words, windowSize, i)
    {
      SlideWindow(words, start, i, windowSize, window);
      ghost var middle := window[1..];

      var removedWord := words[i - 1];
      FrequenciesRemoveFront(wordCounts, removedWord, middle);
      var removedCount := wordCounts[removedWord];
      if removedCount == 1 {
        wordCounts := wordCounts - {removedWord};
      } else {
        wordCounts := wordCounts[removedWord := removedCount - 1];
      }

      var addedWord := words[i + windowSize - 1];
      FrequenciesAppend(wordCounts, middle, addedWord);
      wordCounts := wordCounts[addedWord := (if addedWord in wordCounts then wordCounts[addedWord] else 0) + 1];
      window := middle + [addedWord];

      TtrSumStep(words, windowSize, i, window);
      sumTtr := sumTtr + |wordCounts| as real / windowSize as real;
      start := i;
    }

    return sumTtr / numWindows as real;
  }

  /** No word occurs twice in `ws`. */
  predicate AllDifferent(ws: seq<Word>) {
    forall i, j :: 0 <= i < j < |ws| ==> ws[i] != ws[j]
  }

  /** The distinct words of a sequence are its first word and those of
      the rest. */
  lemma TypesCons(ws: seq<Word>)
    requires ws != []
    ensures Types(ws) == {ws[0]} + Types(ws[1..])
    ensures ws[0] in ws[1..] ==> Distinct(ws) == Distinct(ws[1..])
    ensures ws[0] !in ws[1..] ==> Distinct(ws) == Distinct(ws[1..]) + 1
  {
    assert ws == [ws[0]] + ws[1..];
    if ws[0] !in ws[1..] {
      assert ws[0] !in Types(ws[1..]);
    }
  }

  /** A non-empty sequence has at least one and at most `|ws|` distinct
      words. */
  lemma {:induction false} DistinctBounds(ws: seq<Word>)
    ensures ws != [] ==> 1 <= Distinct(ws)
    ensures Distinct(ws) <= |ws|
  {
    if ws == [] {
      assert Types(ws) == {};
    } else {
      DistinctBounds(ws[1..]);
      TypesCons(ws);
    }
  }

  /** `ws` has `|ws|` distinct words exactly when no word repeats. */
  lemma {:induction false} DistinctAllDifferent(ws: seq<Word>)
    ensures Distinct(ws) == |ws| <==> AllDifferent(ws)
  {
    if ws == [] {
      assert Types(ws) == {};
    } else {
      var rest := ws[1..];
      DistinctAllDifferent(rest);
      DistinctBounds(rest);
      TypesCons(ws);
      AllDifferentCons(ws);
    }
  }

  /** No word of `ws` repeats exactly when its first word does not occur
      again and no word of the rest repeats. */
  lemma AllDifferentCons(ws: seq<Word>)
    requires ws != []
    ensures AllDifferent(ws) <==> ws[0] !in ws[1..] && AllDifferent(ws[1..])
  {
    var rest := ws[1..];
    if ws[0] in rest {
      var j :| 0 <= j < |rest| && rest[j] == ws[0];
      assert ws[j + 1] == ws[0];
    } else if AllDifferent(rest) {
      forall i, j | 0 <= i < j < |ws| ensures ws[i] != ws[j] {
        assert ws[j] == rest[j - 1];
        if i > 0 {
          assert ws[i] == rest[i - 1];
        }
      }
    } else {
      var i, j :| 0 <= i < j < |rest| && rest[i] == rest[j];
      assert ws[i + 1] == ws[j + 1];
    }
  }

  /** The number of distinct words of the first `k` windows, summed. */
  function DistinctSum(words: seq<Word>, w: nat, k: nat): nat
    requires 1 <= w && k + w <= |words| + 1
  {
    if k == 0 then 0 else DistinctSum(words, w, k - 1) + Distinct(words[k - 1..k - 1 + w])
  }

  lemma AddFractions(a: real, b: real, w: real)
    requires w > 0.0
    ensures a / w + b / w == (a + b) / w
  {
  }

  /** Adding the ratios window by window is dividing the summed distinct
      counts by the window size once. */
  lemma {:induction false} TtrSumScaled(words: seq<Word>, w: nat, k: nat)
    requires 1 <= w && k + w <= |words| + 1
    ensures TtrSum(words, w, k) == DistinctSum(words, w, k) as real / w as real
  {
    if k > 0 {
      TtrSumScaled(words, w, k - 1);
      AddFractions(DistinctSum(words, w, k - 1) as real, Distinct(words[k - 1..k - 1 + w]) as real, w as real);
    }
  }

  /** Each window has between 1 and `w` distinct words. */
  lemma {:induction false} DistinctSumBounds(words: seq<Word>, w: nat, k: nat)
    requires 1 <= w && k + w <= |words| + 1
    ensures k <= DistinctSum(words, w, k) <= k * w
  {
    if k > 0 {
      DistinctSumBounds(words, w, k - 1);
      DistinctBounds(words[k - 1..k - 1 + w]);
      assert (k - 1) * w + w == k * w;
    }
  }

  lemma DivMonotone(a: real, b: real, c: real)
    requires c > 0.0 && a <= b
    ensures a / c <= b / c
  {
    assert a / c == a * (1.0 / c);
    assert b / c == b * (1.0 / c);
  }

  lemma DivCancel(n: real, w: real)
    requires w > 0.0
    ensures (n * w) / w == n
  {
  }

  lemma DivSelf(n: real)
    requires n > 0.0
    ensures n / n == 1.0
  {
  }

  lemma DivTwice(n: real, w: real)
    requires n > 0.0 && w > 0.0
    ensures (n / w) / n == 1.0 / w
  {
  }

  lemma ProductAsReal(n: nat, w: nat)
    ensures (n * w) as real == n as real * w as real
  {
  }

  /** The mean of `n` ratios whose distinct counts sum to `s`, each count
      between 1 and `w`, lies in `[1/w, 1]`. */
  lemma MeanBounds(s: nat, n: nat, w: nat)
    requires 1 <= n && 1 <= w && n <= s <= n * w
    ensures 1.0 / w as real <= (s as real / w as real) / n as real <= 1.0
  {
    ProductAsReal(n, w);
    var s, n, w := s as real, n as real, w as real;
    var x := s / w;
    DivMonotone(s, n * w, w);
    DivCancel(n, w);
    DivMonotone(n, s, w);
    DivMonotone(x, n, n);
    DivSelf(n);
    DivMonotone(n / w, x, n);
    DivTwice(n, w);
  }

  /** With at least `w` words the score is a true moving average and lies
      in `[1/w, 1]`. */
  lemma MattrMovingAverageRange(words: seq<Word>, w: nat)
    requires 1 <= w <= |words|
    ensures 1.0 / w as real <= BruteForceMattr(words, w) <= 1.0
  {
    var n := |words| - w + 1;
    TtrSumScaled(words, w, n);
    DistinctSumBounds(words, w, n);
    MeanBounds(DistinctSum(words, w, n), n, w);
  }

  /** Whatever the input, the score lies in `[0, 1]`, and it is 0 exactly
      when there are no words. */
  lemma MattrRange(words: seq<Word>, w: nat)
    requires 1 <= w
    ensures 0.0 <= BruteForceMattr(words, w) <= 1.0
    ensures BruteForceMattr(words, w) == 0.0 <==> words == []
  {
    if |words| < w {
      if words != [] {
        DistinctBounds(words);
        MeanBounds(Distinct(words), 1, |words|);
      }
    } else {
      MattrMovingAverageRange(words, w);
    }
  }

  /** With windows of one word every window has one distinct word, so the
      score of a non-empty text is 1 however often its words repeat. */
  lemma MattrWindowOne(words: seq<Word>)
    requires words != []
    ensures BruteForceMattr(words, 1) == 1.0
  {
    var n := |words|;
    TtrSumScaled(words, 1, n);
    DistinctSumBounds(words, 1, n);
    assert DistinctSum(words, 1, n) == n;
    assert n as real / 1.0 == n as real;
    DivSelf(n as real);
  }

  /** A text in which no word repeats scores 1 for every window size. */
  lemma MattrAllDifferent(words: seq<Word>, w: nat)
    requires 1 <= w && words != [] && AllDifferent(words)
    ensures BruteForceMattr(words, w) == 1.0
  {
    if |words| < w {
      DistinctAllDifferent(words);
      DivSelf(|words| as real);
    } else {
      var n := |words| - w + 1;
      TtrSumAllDifferent(words, w, n);
      DivSelf(n as real);
    }
  }

  lemma TtrSumAllDifferent(words: seq<Word>, w: nat, k: nat)
    requires 1 <= w && k + w <= |words| + 1 && AllDifferent(words)
    ensures TtrSum(words, w, k) == k as real
  {
    TtrSumScaled(words, w, k);
    DistinctSumAllDifferent(words, w, k);
    CancelWindow(k, w);
  }

  lemma CancelWindow(k: nat, w: nat)
    requires 1 <= w
    ensures (k * w) as real / w as real == k as real
  {
    ProductAsReal(k, w);
    DivCancel(k as real, w as real);
  }

  lemma {:induction false} DistinctSumAllDifferent(words: seq<Word>, w: nat, k: nat)
    requires 1 <= w && k + w <= |words| + 1 && AllDifferent(words)
    ensures DistinctSum(words, w, k) == k * w
  {
    if k > 0 {
      DistinctSumAllDifferent(words, w, k - 1);
      AllDifferentSlice(words, k - 1, k - 1 + w);
      DistinctAllDifferent(words[k - 1..k - 1 + w]);
      assert (k - 1) * w + w == k * w;
    }
  }

  lemma AllDifferentSlice(ws: seq<Word>, lo: nat, hi: nat)
    requires lo <= hi <= |ws| && AllDifferent(ws)
    ensures AllDifferent(ws[lo..hi])
  {
    var window := ws[lo..hi];
    forall i, j | 0 <= i < j < |window| ensures window[i] != window[j] {
      assert window[i] == ws[lo + i] && window[j] == ws[lo + j];
    }
  }
}
