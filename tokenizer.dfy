/** `tokenize` (src/text-complexity.tsx): lowercase, split on `/\W+/`, drop
    empty pieces. */
module Tokenizer {
  import opened CodeUnits

  predicate IsUpper(u: CodeUnit) {
    0x41 <= u <= 0x5A
  }

  /** `\w` without the `u` flag: `[A-Za-z0-9_]`; `\W` is its complement. */
  predicate IsWordUnit(u: CodeUnit) {
    IsUpper(u) || 0x61 <= u <= 0x7A || 0x30 <= u <= 0x39 || u == 0x5F
  }

  predicate AllWord(s: seq<CodeUnit>) {
    forall i :: 0 <= i < |s| ==> IsWordUnit(s[i])
  }

  predicate NoWord(s: seq<CodeUnit>) {
    forall i :: 0 <= i < |s| ==> !IsWordUnit(s[i])
  }

  predicate NoUpper(s: seq<CodeUnit>) {
    forall i :: 0 <= i < |s| ==> !IsUpper(s[i])
  }

  function LowerUnit(u: CodeUnit): CodeUnit {
    if IsUpper(u) then u + 0x20 else u
  }

  /** `.toLowerCase()`, restricted to ASCII letters. */
  function ToLower(t: Utf16): (r: Utf16)
    ensures |r| == |t|
    ensures NoUpper(r)
    ensures forall i :: 0 <= i < |t| && !IsUpper(t[i]) ==> r[i] == t[i]
    ensures forall i :: 0 <= i < |t| && IsUpper(t[i]) ==> r[i] == t[i] + 0x20
  {
    seq(|t|, i requires 0 <= i < |t| => LowerUnit(t[i]))
  }

  /** The longest prefix of `s` made of word units. */
  function WordPrefix(s: seq<CodeUnit>): (w: seq<CodeUnit>)
    ensures w <= s && AllWord(w)
    ensures |w| < |s| ==> !IsWordUnit(s[|w|])
  {
    if s == [] || !IsWordUnit(s[0]) then [] else [s[0]] + WordPrefix(s[1..])
  }

  /** `s` without its leading run of non-word units. */
  function DropDelimiters(s: seq<CodeUnit>): (r: seq<CodeUnit>)
    ensures |r| <= |s| && r == s[|s| - |r|..]
    ensures forall i :: 0 <= i < |s| - |r| ==> !IsWordUnit(s[i])
    ensures r != [] ==> IsWordUnit(r[0])
  {
    if s == [] || IsWordUnit(s[0]) then s else DropDelimiters(s[1..])
  }

  /** `.split(/\W+/)`: the pieces between the maximal runs of non-word
      units, including the empty pieces before a leading run and after a
      trailing one. The lemma `NonEmptySplitIsRuns` pins which non-empty
      pieces it yields. */
  function Split(s: seq<CodeUnit>): (pieces: seq<seq<CodeUnit>>)
    ensures |pieces| >= 1
    ensures forall k :: 0 <= k < |pieces| ==> AllWord(pieces[k])
    decreases |s|
  {
    var w := WordPrefix(s);
    if |w| == |s| then [w]
    else
      var rest := DropDelimiters(s[|w|..]);
      [w] + Split(rest)
  }

  /** Splitting text without upper-case letters gives pieces without them. */
  lemma {:induction false} SplitNoUpper(s: seq<CodeUnit>)
    requires NoUpper(s)
    ensures forall k :: 0 <= k < |Split(s)| ==> NoUpper(Split(s)[k])
    decreases |s|
  {
    var w := WordPrefix(s);
    NoUpperSlice(s, 0, |w|);
    assert w == s[..|w|];
    if |w| < |s| {
      var tail := s[|w|..];
      var rest := DropDelimiters(tail);
      NoUpperSlice(s, |s| - |rest|, |s|);
      assert rest == s[|s| - |rest|..];
      SplitNoUpper(rest);
      NoUpperCons(w, Split(rest));
      assert Split(s) == [w] + Split(rest);
    }
  }

  lemma NoUpperSlice(s: seq<CodeUnit>, i: nat, j: nat)
    requires NoUpper(s) && i <= j <= |s|
    ensures NoUpper(s[i..j])
  {
    forall k | 0 <= k < j - i ensures !IsUpper(s[i..j][k]) {
      assert s[i..j][k] == s[i + k];
    }
  }

  lemma NoUpperCons(w: seq<CodeUnit>, pieces: seq<seq<CodeUnit>>)
    requires NoUpper(w)
    requires forall k :: 0 <= k < |pieces| ==> NoUpper(pieces[k])
    ensures forall k :: 0 <= k < |[w] + pieces| ==> NoUpper(([w] + pieces)[k])
  {
    forall k | 0 <= k < |[w] + pieces| ensures NoUpper(([w] + pieces)[k]) {
      if k > 0 {
        assert ([w] + pieces)[k] == pieces[k - 1];
      }
    }
  }

  /** `.filter((word) => word.length > 0)`. The lemma `NonEmptySplitIsRuns`
      pins what it keeps of a split. */
  function NonEmpty(pieces: seq<seq<CodeUnit>>): (r: seq<seq<CodeUnit>>)
    ensures forall k :: 0 <= k < |r| ==> r[k] != [] && r[k] in pieces
  {
    if pieces == [] then []
    else (if pieces[0] == [] then [] else [pieces[0]]) + NonEmpty(pieces[1..])
  }

  /** `tokenize`: every token is non-empty and made of `[a-z0-9_]` only. */
  function Tokenize(text: Utf16): (tokens: seq<Word>)
    ensures forall k :: 0 <= k < |tokens| ==> tokens[k] != [] && AllWord(tokens[k]) && NoUpper(tokens[k])
  {
    LowerHasNoUpper(text);
    SplitNoUpper(ToLower(text));
    NonEmpty(Split(ToLower(text)))
  }

  /** Reference definition: the maximal runs of word units of `s`, in order. */
  function Runs(s: seq<CodeUnit>): seq<Word>
    decreases |s|
  {
    if s == [] then []
    else if !IsWordUnit(s[0]) then Runs(s[1..])
    else
      var w := WordPrefix(s);
      [w] + Runs(s[|w|..])
  }

  /** The word units of `s`, in order. */
  function WordUnits(s: seq<CodeUnit>): seq<CodeUnit> {
    if s == [] then [] else (if IsWordUnit(s[0]) then [s[0]] else []) + WordUnits(s[1..])
  }

  function Flatten(pieces: seq<seq<CodeUnit>>): seq<CodeUnit> {
    if pieces == [] then [] else pieces[0] + Flatten(pieces[1..])
  }

  lemma LowerHasNoUpper(t: Utf16)
    ensures NoUpper(ToLower(t))
    ensures forall i :: 0 <= i < |t| ==> IsWordUnit(ToLower(t)[i]) == IsWordUnit(t[i])
  {
  }

  lemma ToLowerConcat(a: Utf16, b: Utf16)
    ensures ToLower(a + b) == ToLower(a) + ToLower(b)
  {
  }

  /** Skipping a leading delimiter run changes no run. */
  lemma {:induction false} RunsDropDelimiters(s: seq<CodeUnit>)
    ensures Runs(DropDelimiters(s)) == Runs(s)
  {
    if s != [] && !IsWordUnit(s[0]) {
      RunsDropDelimiters(s[1..]);
    }
  }

  /** Splitting and dropping the empty pieces gives the maximal runs. */
  lemma {:induction false} NonEmptySplitIsRuns(s: seq<CodeUnit>)
    ensures NonEmpty(Split(s)) == Runs(s)
    decreases |s|
  {
    var w := WordPrefix(s);
    if |w| == |s| {
      assert w == s;
      if s != [] {
        assert s[|w|..] == [];
        assert NonEmpty([w]) == [w];
      }
    } else {
      var rest := DropDelimiters(s[|w|..]);
      NonEmptySplitIsRuns(rest);
      RunsDropDelimiters(s[|w|..]);
      NonEmptyCons(w, Split(rest));
      if w == [] {
        RunsDropDelimiters(s);
        assert DropDelimiters(s) == DropDelimiters(s[1..]);
      }
    }
  }

  lemma NonEmptyCons(p: seq<CodeUnit>, pieces: seq<seq<CodeUnit>>)
    ensures NonEmpty([p] + pieces) == (if p == [] then [] else [p]) + NonEmpty(pieces)
  {
    assert ([p] + pieces)[1..] == pieces;
  }

  /** `tokenize` yields exactly the maximal runs of word units of the
      lowercased text, in text order. */
  lemma TokenizeIsRuns(text: Utf16)
    ensures Tokenize(text) == Runs(ToLower(text))
  {
    NonEmptySplitIsRuns(ToLower(text));
  }

  /** The word prefix stops at the first non-word unit. */
  lemma {:induction false} WordPrefixStops(a: seq<CodeUnit>, tail: seq<CodeUnit>)
    requires tail != [] && !IsWordUnit(tail[0])
    ensures WordPrefix(a + tail) == WordPrefix(a)
  {
    if a == [] {
      assert a + tail == tail;
    } else {
      assert (a + tail)[0] == a[0];
      assert (a + tail)[1..] == a[1..] + tail;
      WordPrefixStops(a[1..], tail);
    }
  }

  lemma {:induction false} WordPrefixOfWord(w: seq<CodeUnit>)
    requires AllWord(w)
    ensures WordPrefix(w) == w
  {
    if w != [] {
      WordPrefixOfWord(w[1..]);
    }
  }

  lemma {:induction false} RunsNone(s: seq<CodeUnit>)
    ensures Runs(s) == [] <==> NoWord(s)
  {
    if s != [] && !IsWordUnit(s[0]) {
      RunsNone(s[1..]);
      assert NoWord(s[1..]) ==> NoWord(s) by {
        if NoWord(s[1..]) {
          forall i | 0 < i < |s| ensures !IsWordUnit(s[i]) {
            assert s[i] == s[1..][i - 1];
          }
        }
      }
    }
  }

  lemma {:induction false} WordUnitsConcat(a: seq<CodeUnit>, b: seq<CodeUnit>)
    ensures WordUnits(a + b) == WordUnits(a) + WordUnits(b)
  {
    if a == [] {
      assert a + b == b;
    } else {
      var head := if IsWordUnit(a[0]) then [a[0]] else [];
      assert (a + b)[0] == a[0];
      assert (a + b)[1..] == a[1..] + b;
      assert WordUnits(a + b) == head + WordUnits(a[1..] + b);
      WordUnitsConcat(a[1..], b);
      assert WordUnits(a) == head + WordUnits(a[1..]);
      assert head + (WordUnits(a[1..]) + WordUnits(b)) == (head + WordUnits(a[1..])) + WordUnits(b);
    }
  }

  lemma {:induction false} WordUnitsOfWord(w: seq<CodeUnit>)
    requires AllWord(w)
    ensures WordUnits(w) == w
  {
    if w != [] {
      WordUnitsOfWord(w[1..]);
    }
  }

  lemma {:induction false} RunsFlatten(s: seq<CodeUnit>)
    ensures Flatten(Runs(s)) == WordUnits(s)
    decreases |s|
  {
    if s != [] {
      if !IsWordUnit(s[0]) {
        RunsFlatten(s[1..]);
      } else {
        var w := WordPrefix(s);
        RunsFlatten(s[|w|..]);
        assert ([w] + Runs(s[|w|..]))[1..] == Runs(s[|w|..]);
        assert s == w + s[|w|..];
        WordUnitsConcat(w, s[|w|..]);
        WordUnitsOfWord(w);
      }
    }
  }

  lemma {:induction false} RunsAtDelimiter(a: seq<CodeUnit>, d: CodeUnit, b: seq<CodeUnit>)
    requires !IsWordUnit(d)
    ensures Runs(a + [d] + b) == Runs(a) + Runs(b)
    decreases |a|
  {
    var s := a + [d] + b;
    if a == [] {
      assert s[1..] == b;
    } else if !IsWordUnit(a[0]) {
      assert s[1..] == a[1..] + [d] + b;
      RunsAtDelimiter(a[1..], d, b);
    } else {
      assert s == a + ([d] + b);
      WordPrefixStops(a, [d] + b);
      var w := WordPrefix(a);
      assert s[|w|..] == a[|w|..] + [d] + b;
      RunsAtDelimiter(a[|w|..], d, b);
    }
  }

  lemma RunsOfWord(w: seq<CodeUnit>)
    requires w != [] && AllWord(w)
    ensures Runs(w) == [w]
  {
    WordPrefixOfWord(w);
    assert w[|w|..] == [];
  }

  lemma ToLowerAllWord(w: Utf16)
    requires AllWord(w)
    ensures AllWord(ToLower(w))
  {
    LowerHasNoUpper(w);
  }

  /** `tokenize` returns no token exactly when the text holds no word unit:
      in particular the empty text and a text of delimiters only give `[]`. */
  lemma TokenizeEmptyIff(text: Utf16)
    ensures Tokenize(text) == [] <==> NoWord(text)
  {
    TokenizeIsRuns(text);
    RunsNone(ToLower(text));
    LowerHasNoUpper(text);
  }

  /** The tokens, concatenated in order, are exactly the word units of the
      lowercased text, in order: nothing is lost, added or reordered. */
  lemma TokenizePreservesWordUnits(text: Utf16)
    ensures Flatten(Tokenize(text)) == WordUnits(ToLower(text))
  {
    TokenizeIsRuns(text);
    RunsFlatten(ToLower(text));
  }

  /** A non-word unit separates tokens: the tokens of `a`, a delimiter and
      `b` are the tokens of `a` followed by those of `b`. */
  lemma TokenizeAtDelimiter(a: Utf16, d: CodeUnit, b: Utf16)
    requires !IsWordUnit(d)
    ensures Tokenize(a + [d] + b) == Tokenize(a) + Tokenize(b)
  {
    ToLowerConcat(a + [d], b);
    ToLowerConcat(a, [d]);
    assert ToLower([d]) == [LowerUnit(d)];
    TokenizeIsRuns(a + [d] + b);
    TokenizeIsRuns(a);
    TokenizeIsRuns(b);
    RunsAtDelimiter(ToLower(a), LowerUnit(d), ToLower(b));
  }

  /** A run of word units is never split: it is one token, lowercased. */
  lemma TokenizeWordRun(w: Utf16)
    requires w != [] && AllWord(w)
    ensures Tokenize(w) == [ToLower(w)]
  {
    TokenizeIsRuns(w);
    ToLowerAllWord(w);
    RunsOfWord(ToLower(w));
  }
}
