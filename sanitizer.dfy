/** `sanitizeText` (src/text-complexity.tsx): two global regular-expression
    replacements applied one after the other. */
module Sanitizer {
  import opened CodeUnits

  /** `[\x00-\x1F\x7F]`: the ASCII control units. */
  predicate IsControl(u: CodeUnit) {
    u <= 0x1F || u == 0x7F
  }

  /** `[\uD800-\uDFFF]`: every surrogate unit, paired or not. */
  predicate IsSurrogate(u: CodeUnit) {
    0xD800 <= u <= 0xDFFF
  }

  /** Text that holds no control unit and no surrogate unit, so that
      sanitizing leaves it alone. */
  predicate IsClean(t: Utf16) {
    forall i :: 0 <= i < |t| ==> !IsControl(t[i]) && !IsSurrogate(t[i])
  }

  /** `.replace(/[\x00-\x1F\x7F]/g, " ")` */
  function ReplaceControls(t: Utf16): (r: Utf16)
    ensures |r| == |t|
    ensures forall i :: 0 <= i < |r| ==> !IsControl(r[i])
    ensures forall i :: 0 <= i < |t| && IsControl(t[i]) ==> r[i] == Space
    ensures forall i :: 0 <= i < |t| && !IsControl(t[i]) ==> r[i] == t[i]
  {
    seq(|t|, i requires 0 <= i < |t| => if IsControl(t[i]) then Space else t[i])
  }

  /** `.replace(/[\uD800-\uDFFF]/g, "")`. The lemma `SanitizeIsUnitwise`
      pins which units it keeps. */
  function RemoveSurrogates(t: Utf16): (r: Utf16)
    ensures |r| <= |t|
    ensures forall i :: 0 <= i < |r| ==> !IsSurrogate(r[i]) && r[i] in t
  {
    if t == [] then []
    else (if IsSurrogate(t[0]) then [] else [t[0]]) + RemoveSurrogates(t[1..])
  }

  /** `sanitizeText`: the output holds no control and no surrogate unit and
      is never longer than the input. */
  function Sanitize(t: Utf16): (r: Utf16)
    ensures IsClean(r)
    ensures |r| <= |t|
  {
    RemoveSurrogates(ReplaceControls(t))
  }

  /** What one input unit becomes: a control unit one space, a surrogate
      unit nothing, any other unit itself. */
  function UnitImage(u: CodeUnit): seq<CodeUnit> {
    if IsControl(u) then [Space] else if IsSurrogate(u) then [] else [u]
  }

  /** Reference definition: sanitize unit by unit, left to right. */
  function SanitizeByUnit(t: Utf16): Utf16 {
    if t == [] then [] else UnitImage(t[0]) + SanitizeByUnit(t[1..])
  }

  /** The number of surrogate units in `t`. */
  function SurrogateCount(t: Utf16): nat {
    if t == [] then 0 else (if IsSurrogate(t[0]) then 1 else 0) + SurrogateCount(t[1..])
  }

  /** The two passes together act unit by unit: each control unit becomes
      exactly one space, each surrogate unit is deleted, and every other unit
      is kept, in its original order. */
  lemma {:induction false} SanitizeIsUnitwise(t: Utf16)
    ensures Sanitize(t) == SanitizeByUnit(t)
  {
    if t != [] {
      SanitizeIsUnitwise(t[1..]);
      assert ReplaceControls(t)[1..] == ReplaceControls(t[1..]);
    }
  }

  /** Sanitizing text written in two parts sanitizes each part. */
  lemma {:induction false} SanitizeConcat(a: Utf16, b: Utf16)
    ensures Sanitize(a + b) == Sanitize(a) + Sanitize(b)
  {
    SanitizeIsUnitwise(a + b);
    SanitizeIsUnitwise(a);
    SanitizeIsUnitwise(b);
    SanitizeByUnitConcat(a, b);
  }

  lemma {:induction false} SanitizeByUnitConcat(a: Utf16, b: Utf16)
    ensures SanitizeByUnit(a + b) == SanitizeByUnit(a) + SanitizeByUnit(b)
  {
    if a == [] {
      assert a + b == b;
    } else {
      assert (a + b)[0] == a[0];
      assert (a + b)[1..] == a[1..] + b;
      SanitizeByUnitConcat(a[1..], b);
    }
  }

  /** Clean text passes through unchanged. */
  lemma {:induction false} SanitizeClean(t: Utf16)
    requires IsClean(t)
    ensures Sanitize(t) == t
  {
    SanitizeIsUnitwise(t);
    SanitizeByUnitClean(t);
  }

  lemma {:induction false} SanitizeByUnitClean(t: Utf16)
    requires IsClean(t)
    ensures SanitizeByUnit(t) == t
  {
    if t != [] {
      assert IsClean(t[1..]) by {
        forall i | 0 <= i < |t[1..]| ensures !IsControl(t[1..][i]) && !IsSurrogate(t[1..][i]) {
          assert t[1..][i] == t[i + 1];
        }
      }
      SanitizeByUnitClean(t[1..]);
    }
  }

  /** `sanitizeText` is idempotent: it is applied on every edit of the text
      box, and applying it again to its own output changes nothing. */
  lemma SanitizeIdempotent(t: Utf16)
    ensures Sanitize(Sanitize(t)) == Sanitize(t)
  {
    SanitizeClean(Sanitize(t));
  }

  /** Only deleted surrogates shorten the text: the output is exactly the
      input's length minus its surrogate units. */
  lemma {:induction false} SanitizeLength(t: Utf16)
    ensures |Sanitize(t)| == |t| - SurrogateCount(t)
  {
    SanitizeIsUnitwise(t);
    SanitizeByUnitLength(t);
  }

  lemma {:induction false} SanitizeByUnitLength(t: Utf16)
    ensures |SanitizeByUnit(t)| == |t| - SurrogateCount(t)
    ensures SurrogateCount(t) <= |t|
  {
    if t != [] {
      SanitizeByUnitLength(t[1..]);
    }
  }

  lemma {:induction false} SurrogateCountZero(t: Utf16)
    ensures SurrogateCount(t) == 0 <==> forall i :: 0 <= i < |t| ==> !IsSurrogate(t[i])
  {
    if t != [] {
      SurrogateCountZero(t[1..]);
      if SurrogateCount(t) == 0 {
        forall i | 0 <= i < |t| ensures !IsSurrogate(t[i]) {
          if i > 0 {
            assert t[i] == t[1..][i - 1];
          }
        }
      } else if !IsSurrogate(t[0]) {
        var j :| 0 <= j < |t[1..]| && IsSurrogate(t[1..][j]);
        assert t[j + 1] == t[1..][j];
      }
    }
  }

  /** The output is as long as the input exactly when the input holds no
      surrogate unit; otherwise it is strictly shorter. */
  lemma SanitizeKeepsLengthIff(t: Utf16)
    ensures |Sanitize(t)| <= |t|
    ensures |Sanitize(t)| == |t| <==> forall i :: 0 <= i < |t| ==> !IsSurrogate(t[i])
  {
    SanitizeLength(t);
    SurrogateCountZero(t);
  }

  /** Both halves of a surrogate pair are deleted, even when they form a
      valid pair: a character outside the Basic Multilingual Plane (an
      emoji, say) disappears from the text. */
  lemma SanitizeDropsPairs(a: Utf16, high: CodeUnit, low: CodeUnit, b: Utf16)
    requires 0xD800 <= high <= 0xDBFF && 0xDC00 <= low <= 0xDFFF
    ensures Sanitize(a + [high, low] + b) == Sanitize(a) + Sanitize(b)
  {
    SanitizeConcat(a + [high, low], b);
    SanitizeConcat(a, [high, low]);
    SanitizeIsUnitwise([high, low]);
    assert [high, low][1..] == [low];
    assert [low][1..] == [];
    assert SanitizeByUnit([low]) == UnitImage(low) + SanitizeByUnit([]) == [];
    assert SanitizeByUnit([high, low]) == UnitImage(high) + SanitizeByUnit([low]) == [];
    assert Sanitize(a) + [] == Sanitize(a);
  }
}
