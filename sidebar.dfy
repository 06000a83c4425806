/**
 * The two text helpers of the side panel: `scrubPII`, which masks
 * identifier-shaped digit groups before a question leaves the browser, and
 * `detectMode`, which picks the bot's mode.  JavaScript regular expressions
 * without the `u` flag: `\d` is an ASCII digit and `\b` sits between an
 * ASCII word character `[A-Za-z0-9_]` and anything else.
 */
module Sidebar {
  import opened Text

  predicate IsWordChar(c: char) {
    ('a' <= c <= 'z') || ('A' <= c <= 'Z') || IsDigit(c) || c == '_'
  }

  /** One position of a fixed-shape identifier pattern: `\d` or a literal dash. */
  datatype Slot = DigitSlot | Dash

  /** `\d{3}-\d{2}-\d{4}`, a Social Security number. */
  const SsnShape := [DigitSlot, DigitSlot, DigitSlot, Dash, DigitSlot, DigitSlot, Dash, DigitSlot, DigitSlot, DigitSlot, DigitSlot]
  /** `\d{2}-\d{7}`, an employer identification number. */
  const EinShape := [DigitSlot, DigitSlot, Dash, DigitSlot, DigitSlot, DigitSlot, DigitSlot, DigitSlot, DigitSlot, DigitSlot]
  /** `\d{9}`, a bank routing number. */
  const RoutingShape := [DigitSlot, DigitSlot, DigitSlot, DigitSlot, DigitSlot, DigitSlot, DigitSlot, DigitSlot, DigitSlot]

  /** A shape starts and ends with a digit, so `\b` on both sides of it means a non-word neighbour or an end. */
  predicate IsShape(shape: seq<Slot>) {
    shape != [] && shape[0] == DigitSlot && shape[|shape| - 1] == DigitSlot
  }

  predicate SlotMatches(c: char, slot: Slot) {
    match slot
    case DigitSlot => IsDigit(c)
    case Dash => c == '-'
  }

  /** `\b` + shape + `\b` matches `s` at `i`. */
  predicate MatchesAt(s: string, i: nat, shape: seq<Slot>) {
    && i + |shape| <= |s|
    && (forall k :: 0 <= k < |shape| ==> SlotMatches(s[i + k], shape[k]))
    && (i == 0 || !IsWordChar(s[i - 1]))
    && (i + |shape| == |s| || !IsWordChar(s[i + |shape|]))
  }

  function MaskSlot(slot: Slot): char {
    match slot
    case DigitSlot => 'X'
    case Dash => '-'
  }

  /** The replacement text: "XXX-XX-XXXX", "XX-XXXXXXX", "XXXXXXXXX". */
  function Mask(shape: seq<Slot>): (m: string)
    ensures |m| == |shape|
    ensures forall k :: 0 <= k < |shape| ==> m[k] == MaskSlot(shape[k])
  {
    seq(|shape|, k requires 0 <= k < |shape| => MaskSlot(shape[k]))
  }

  /** Each character either stays, or is a digit that became 'X'. */
  ghost predicate MasksDigitsOnly(s: string, r: string) {
    |r| == |s| && forall k :: 0 <= k < |s| ==> r[k] == s[k] || (IsDigit(s[k]) && r[k] == 'X')
  }

  /**
   * `s.replace(/\bshape\b/g, mask)` from index `i` on: matches are found in
   * the original string, left to right, and scanning resumes after each one.
   */
  function ReplaceFrom(s: string, shape: seq<Slot>, i: nat): (r: string)
    requires IsShape(shape) && i <= |s|
    ensures |r| == |s| - i
    decreases |s| - i
  {
    if i == |s| then []
    else if MatchesAt(s, i, shape) then Mask(shape) + ReplaceFrom(s, shape, i + |shape|)
    else [s[i]] + ReplaceFrom(s, shape, i + 1)
  }

  function ReplaceShape(s: string, shape: seq<Slot>): (r: string)
    requires IsShape(shape)
    ensures |r| == |s|
  {
    ReplaceFrom(s, shape, 0)
  }

  /** `r`, laid over `s` from `i`, differs from it only where a digit became 'X'. */
  ghost predicate MaskedFrom(s: string, i: nat, r: string) {
    i + |r| <= |s| && forall k :: 0 <= k < |r| ==> r[k] == s[i + k] || (IsDigit(s[i + k]) && r[k] == 'X')
  }

  /** A pass keeps every character but the digits of a match, and those become 'X'. */
  lemma {:induction false} ReplaceFromMasks(s: string, shape: seq<Slot>, i: nat)
    requires IsShape(shape) && i <= |s|
    ensures MaskedFrom(s, i, ReplaceFrom(s, shape, i))
    decreases |s| - i
  {
    var r := ReplaceFrom(s, shape, i);
    if i < |s| {
      if MatchesAt(s, i, shape) {
        var n := |shape|;
        ReplaceFromMasks(s, shape, i + n);
        var rest := ReplaceFrom(s, shape, i + n);
        var m := Mask(shape);
        assert r == m + rest;
        forall k | 0 <= k < |r| ensures r[k] == s[i + k] || (IsDigit(s[i + k]) && r[k] == 'X') {
          if k < n {
            assert r[k] == m[k] == MaskSlot(shape[k]);
            assert SlotMatches(s[i + k], shape[k]);
          } else {
            assert r[k] == rest[k - n];
            assert i + n + (k - n) == i + k;
          }
        }
      } else {
        ReplaceFromMasks(s, shape, i + 1);
        var rest := ReplaceFrom(s, shape, i + 1);
        assert r == [s[i]] + rest;
        forall k | 0 <= k < |r| ensures r[k] == s[i + k] || (IsDigit(s[i + k]) && r[k] == 'X') {
          if k > 0 {
            assert r[k] == rest[k - 1];
            assert i + 1 + (k - 1) == i + k;
          }
        }
      }
    }
  }

  lemma ReplaceShapeMasksDigitsOnly(s: string, shape: seq<Slot>)
    requires IsShape(shape)
    ensures MasksDigitsOnly(s, ReplaceShape(s, shape))
  {
    ReplaceFromMasks(s, shape, 0);
    var r := ReplaceShape(s, shape);
    assert forall k :: 0 <= k < |r| ==> s[0 + k] == s[k];
  }

  /** `scrubPII(text)`: SSNs, then EINs, then routing numbers. */
  function ScrubPII(text: string): (r: string)
    ensures |r| == |text|
  {
    var afterSsn := ReplaceShape(text, SsnShape);
    var afterEin := ReplaceShape(afterSsn, EinShape);
    ReplaceShape(afterEin, RoutingShape)
  }

  lemma MasksDigitsOnlyTrans(a: string, b: string, c: string)
    requires MasksDigitsOnly(a, b) && MasksDigitsOnly(b, c)
    ensures MasksDigitsOnly(a, c)
  {
  }

  /** Scrubbing keeps the length and changes nothing but digits, each into 'X'. */
  lemma ScrubMasksDigitsOnly(text: string)
    ensures MasksDigitsOnly(text, ScrubPII(text))
  {
    var afterSsn := ReplaceShape(text, SsnShape);
    var afterEin := ReplaceShape(afterSsn, EinShape);
    ReplaceShapeMasksDigitsOnly(text, SsnShape);
    ReplaceShapeMasksDigitsOnly(afterSsn, EinShape);
    ReplaceShapeMasksDigitsOnly(afterEin, RoutingShape);
    MasksDigitsOnlyTrans(text, afterSsn, afterEin);
    MasksDigitsOnlyTrans(text, afterEin, ScrubPII(text));
  }

  predicate NoDigits(s: string) {
    forall k :: 0 <= k < |s| ==> !IsDigit(s[k])
  }

  /** Text without a digit comes back unchanged. */
  lemma ScrubWithoutDigits(text: string)
    requires NoDigits(text)
    ensures ScrubPII(text) == text
  {
    ScrubMasksDigitsOnly(text);
  }

  /** A whole text of exactly the shape of an identifier is replaced by its mask. */
  lemma TokenIsMasked(s: string, shape: seq<Slot>)
    requires IsShape(shape) && |s| == |shape|
    requires forall k :: 0 <= k < |shape| ==> SlotMatches(s[k], shape[k])
    ensures ReplaceShape(s, shape) == Mask(shape)
  {
    assert MatchesAt(s, 0, shape);
    assert ReplaceFrom(s, shape, |shape|) == [];
    assert Mask(shape) + [] == Mask(shape);
  }

  /** Where no match starts, a pass copies the text. */
  lemma {:induction false} NoMatchKept(s: string, shape: seq<Slot>, i: nat)
    requires IsShape(shape) && i <= |s|
    requires forall j :: i <= j < |s| ==> !MatchesAt(s, j, shape)
    ensures ReplaceFrom(s, shape, i) == s[i..]
    decreases |s| - i
  {
    if i < |s| {
      NoMatchKept(s, shape, i + 1);
      assert s[i..] == [s[i]] + s[i + 1..];
    }
  }

  /** A text shorter than the shape has nothing to match. */
  lemma ShortTextKept(s: string, shape: seq<Slot>)
    requires IsShape(shape) && |s| < |shape|
    ensures ReplaceShape(s, shape) == s
  {
    NoMatchKept(s, shape, 0);
  }

  /** A stretch without digits is copied, up to the first place a match could start. */
  lemma {:induction false} DigitFreeStretchKept(s: string, shape: seq<Slot>, i: nat, j: nat)
    requires IsShape(shape) && i <= j <= |s|
    requires forall k :: i <= k < j ==> !IsDigit(s[k])
    ensures ReplaceFrom(s, shape, i) == s[i..j] + ReplaceFrom(s, shape, j)
    decreases j - i
  {
    if i < j {
      assert !MatchesAt(s, i, shape) by { assert !SlotMatches(s[i + 0], shape[0]); }
      DigitFreeStretchKept(s, shape, i + 1, j);
      var rest, rj := ReplaceFrom(s, shape, i + 1), ReplaceFrom(s, shape, j);
      assert ReplaceFrom(s, shape, i) == [s[i]] + rest;
      assert s[i..j] == [s[i]] + s[i + 1..j];
      AppendAssoc([s[i]], s[i + 1..j], rj);
    } else {
      assert s[i..j] == [];
    }
  }

  /** `rest` is the part of `s` from `off` on. */
  ghost predicate SuffixAt(s: string, off: nat, rest: string) {
    off + |rest| == |s| && forall m :: 0 <= m < |rest| ==> s[off + m] == rest[m]
  }

  /** Past the first character of `rest`, a match in `s` is a match in `rest`. */
  lemma MatchShifts(s: string, off: nat, rest: string, shape: seq<Slot>, j: nat)
    requires IsShape(shape) && 0 < j < |rest| && SuffixAt(s, off, rest)
    ensures MatchesAt(s, off + j, shape) == MatchesAt(rest, j, shape)
  {
    assert s[off + j - 1] == rest[j - 1];
  }

  /** At a character that cannot start a match in either text, both passes copy it and go on. */
  lemma FirstCharNeverMatches(s: string, off: nat, rest: string, shape: seq<Slot>)
    requires IsShape(shape) && rest != [] && !IsWordChar(rest[0]) && SuffixAt(s, off, rest)
    ensures !MatchesAt(s, off, shape) && !MatchesAt(rest, 0, shape)
  {
    assert s[off + 0] == rest[0];
  }

  /** A match starts at `j` in `rest` exactly when one starts at `off + j` in `s`. */
  lemma SameMatch(s: string, off: nat, rest: string, shape: seq<Slot>, j: nat)
    requires IsShape(shape) && j < |rest| && SuffixAt(s, off, rest)
    requires !IsWordChar(rest[0])
    ensures off + j < |s| && s[off + j] == rest[j]
    ensures MatchesAt(s, off + j, shape) == MatchesAt(rest, j, shape)
  {
    if j == 0 {
      FirstCharNeverMatches(s, off, rest, shape);
    } else {
      MatchShifts(s, off, rest, shape, j);
    }
  }

  /** One step of the two passes, when both see a match at the same place. */
  lemma PassStepMatch(s: string, i: nat, rest: string, j: nat, shape: seq<Slot>)
    requires IsShape(shape) && i <= |s| && j <= |rest|
    requires MatchesAt(s, i, shape) && MatchesAt(rest, j, shape)
    requires ReplaceFrom(s, shape, i + |shape|) == ReplaceFrom(rest, shape, j + |shape|)
    ensures ReplaceFrom(s, shape, i) == ReplaceFrom(rest, shape, j)
  {
  }

  /** One step of the two passes, when neither sees a match and both copy the same character. */
  lemma PassStepCopy(s: string, i: nat, rest: string, j: nat, shape: seq<Slot>)
    requires IsShape(shape) && i < |s| && j < |rest| && s[i] == rest[j]
    requires !MatchesAt(s, i, shape) && !MatchesAt(rest, j, shape)
    requires ReplaceFrom(s, shape, i + 1) == ReplaceFrom(rest, shape, j + 1)
    ensures ReplaceFrom(s, shape, i) == ReplaceFrom(rest, shape, j)
  {
  }

  /** After a token ends at `off` and a non-word character follows, the pass goes on exactly as on the rest alone. */
  lemma {:induction false} PassOverRest(s: string, off: nat, rest: string, shape: seq<Slot>, j: nat)
    requires IsShape(shape) && j <= |rest| && SuffixAt(s, off, rest)
    requires rest == [] || !IsWordChar(rest[0])
    ensures ReplaceFrom(s, shape, off + j) == ReplaceFrom(rest, shape, j)
    decreases |rest| - j
  {
    if j < |rest| {
      var n := NextIndex(rest, shape, j);
      PassOverRest(s, off, rest, shape, n);
      PassStep(s, off, rest, shape, j, n);
    } else {
      PassesEnd(s, off + j, rest, j, shape);
    }
  }

  /** Where the pass over `rest` goes on after index `j`: past the match there, or to the next character. */
  function NextIndex(rest: string, shape: seq<Slot>, j: nat): (n: nat)
    requires IsShape(shape) && j < |rest|
    ensures j < n <= |rest|
  {
    if MatchesAt(rest, j, shape) then j + |shape| else j + 1
  }

  /** One step of both passes, given that they agree from the next index on. */
  lemma PassStep(s: string, off: nat, rest: string, shape: seq<Slot>, j: nat, n: nat)
    requires IsShape(shape) && j < |rest| && SuffixAt(s, off, rest) && !IsWordChar(rest[0])
    requires n == NextIndex(rest, shape, j)
    requires ReplaceFrom(s, shape, off + n) == ReplaceFrom(rest, shape, n)
    ensures ReplaceFrom(s, shape, off + j) == ReplaceFrom(rest, shape, j)
  {
    SameMatch(s, off, rest, shape, j);
    if MatchesAt(rest, j, shape) {
      PassStepMatch(s, off + j, rest, j, shape);
    } else {
      PassStepCopy(s, off + j, rest, j, shape);
    }
  }

  /** Both passes end together. */
  lemma PassesEnd(s: string, i: nat, rest: string, j: nat, shape: seq<Slot>)
    requires IsShape(shape) && i == |s| && j == |rest|
    ensures ReplaceFrom(s, shape, i) == ReplaceFrom(rest, shape, j)
  {
  }

  /**
   * An identifier with non-word characters (or the ends of the text) on both
   * sides, after a stretch without digits, is masked, and the pass goes on
   * over what follows.
   */
  lemma DelimitedTokenMasked(a: string, t: string, b: string, shape: seq<Slot>)
    requires IsShape(shape) && |t| == |shape|
    requires forall k :: 0 <= k < |shape| ==> SlotMatches(t[k], shape[k])
    requires NoDigits(a) && (a == [] || !IsWordChar(a[|a| - 1]))
    requires b == [] || !IsWordChar(b[0])
    ensures ReplaceShape(a + t + b, shape) == a + Mask(shape) + ReplaceShape(b, shape)
  {
    var s := a + t + b;
    DigitFreePrefixKept(s, a, shape);
    TokenThenRest(s, a, t, b, shape);
    ConcatRegroup(ReplaceShape(s, shape), a, ReplaceFrom(s, shape, |a|), Mask(shape), ReplaceShape(b, shape));
  }

  lemma TokenThenRest(s: string, a: string, t: string, b: string, shape: seq<Slot>)
    requires IsShape(shape) && |t| == |shape| && s == a + t + b
    requires forall k :: 0 <= k < |shape| ==> SlotMatches(t[k], shape[k])
    requires a == [] || !IsWordChar(a[|a| - 1])
    requires b == [] || !IsWordChar(b[0])
    ensures ReplaceFrom(s, shape, |a|) == Mask(shape) + ReplaceShape(b, shape)
  {
    RestAfterToken(s, a + t, b, shape, |a| + |t|);
    assert A: ReplaceFrom(s, shape, |a| + |t|) == ReplaceShape(b, shape);
    assert B: forall k :: 0 <= k < |shape| ==> SlotMatches(t[k], shape[k]);
    assert C: s == a + t + b;
    TokenReplaced(s, a, t, b, shape, ReplaceShape(b, shape));
  }

  lemma TokenReplaced(s: string, a: string, t: string, b: string, shape: seq<Slot>, rest: string)
    requires IsShape(shape) && |t| == |shape| && s == a + t + b
    requires forall k :: 0 <= k < |shape| ==> SlotMatches(t[k], shape[k])
    requires a == [] || !IsWordChar(a[|a| - 1])
    requires b == [] || !IsWordChar(b[0])
    requires ReplaceFrom(s, shape, |a| + |t|) == rest
    ensures ReplaceFrom(s, shape, |a|) == Mask(shape) + rest
  {
    DelimitedTokenMatches(a, t, b, shape);
    MatchReplaced(s, shape, |a|, rest);
  }

  lemma RestAfterToken(s: string, x: string, rest: string, shape: seq<Slot>, i: nat)
    requires IsShape(shape) && s == x + rest && i == |x|
    requires rest == [] || !IsWordChar(rest[0])
    ensures ReplaceFrom(s, shape, i) == ReplaceShape(rest, shape)
  {
    assert forall m :: 0 <= m < |rest| ==> s[i + m] == rest[m];
    PassOverRest(s, i, rest, shape, 0);
  }

  lemma AppendAssoc(x: string, y: string, z: string)
    ensures x + (y + z) == (x + y) + z
  {
  }

  lemma ConcatRegroup(x: string, a: string, y: string, m: string, r: string)
    requires x == a + y && y == m + r
    ensures x == a + m + r
  {
  }

  lemma DigitFreePrefixKept(s: string, a: string, shape: seq<Slot>)
    requires IsShape(shape) && |a| <= |s| && s[..|a|] == a && NoDigits(a)
    ensures ReplaceShape(s, shape) == a + ReplaceFrom(s, shape, |a|)
  {
    DigitFreeStretchKept(s, shape, 0, |a|);
    assert s[0..|a|] == a;
  }

  lemma MatchReplaced(s: string, shape: seq<Slot>, i: nat, rest: string)
    requires IsShape(shape) && i <= |s| && MatchesAt(s, i, shape)
    requires ReplaceFrom(s, shape, i + |shape|) == rest
    ensures ReplaceFrom(s, shape, i) == Mask(shape) + rest
  {
  }

  lemma DelimitedTokenMatches(a: string, t: string, b: string, shape: seq<Slot>)
    requires IsShape(shape) && |t| == |shape|
    requires forall k :: 0 <= k < |shape| ==> SlotMatches(t[k], shape[k])
    requires a == [] || !IsWordChar(a[|a| - 1])
    requires b == [] || !IsWordChar(b[0])
    ensures MatchesAt(a + t + b, |a|, shape)
  {
    var s := a + t + b;
    assert forall k :: 0 <= k < |t| ==> s[|a| + k] == t[k];
    if |a| > 0 { assert s[|a| - 1] == a[|a| - 1]; }
    if b != [] { assert s[|a| + |t|] == b[0]; }
  }

  /** An SSN written out in digit-free prose is masked and nothing else changes. */
  lemma ScrubSsnInText(a: string, t: string, b: string)
    requires |t| == |SsnShape| && forall k :: 0 <= k < |SsnShape| ==> SlotMatches(t[k], SsnShape[k])
    requires NoDigits(a) && (a == [] || !IsWordChar(a[|a| - 1]))
    requires NoDigits(b) && (b == [] || !IsWordChar(b[0]))
    ensures ScrubPII(a + t + b) == a + "XXX-XX-XXXX" + b
  {
    DelimitedTokenMasked(a, t, b, SsnShape);
    ReplaceShapeKeepsDigitFree(b, SsnShape);
    SsnMask();
    var m := a + "XXX-XX-XXXX" + b;
    MaskHasNoDigits(SsnShape);
    assert NoDigits(m);
    MaskSurvivesLaterPasses(m);
  }

  /** Digits held in a segment shorter than the shape: no match can start, since a match starts and ends on a digit. */
  lemma DigitsConfinedKept(s: string, a: string, t: string, b: string, shape: seq<Slot>)
    requires IsShape(shape) && s == a + t + b && |t| < |shape|
    requires NoDigits(a) && NoDigits(b)
    ensures ReplaceShape(s, shape) == s
  {
    forall j | 0 <= j < |s| ensures !MatchesAt(s, j, shape) {
      var e := j + |shape| - 1;
      if j < |a| {
        assert s[j + 0] == a[j];
        assert !SlotMatches(s[j + 0], shape[0]);
      } else if e < |s| {
        assert s[j + (|shape| - 1)] == b[e - |a| - |t|];
        assert !SlotMatches(s[j + (|shape| - 1)], shape[|shape| - 1]);
      }
    }
    NoMatchKept(s, shape, 0);
    assert s[0..] == s;
  }

  /** An EIN written out in digit-free prose is masked and nothing else changes: the SSN pass finds too few characters. */
  lemma ScrubEinInText(a: string, t: string, b: string)
    requires |t| == |EinShape| && forall k :: 0 <= k < |EinShape| ==> SlotMatches(t[k], EinShape[k])
    requires NoDigits(a) && (a == [] || !IsWordChar(a[|a| - 1]))
    requires NoDigits(b) && (b == [] || !IsWordChar(b[0]))
    ensures ScrubPII(a + t + b) == a + "XX-XXXXXXX" + b
  {
    DigitsConfinedKept(a + t + b, a, t, b, SsnShape);
    DelimitedTokenMasked(a, t, b, EinShape);
    ReplaceShapeKeepsDigitFree(b, EinShape);
    EinMask();
    var m := a + "XX-XXXXXXX" + b;
    MaskHasNoDigits(EinShape);
    assert NoDigits(m);
    ReplaceShapeKeepsDigitFree(m, RoutingShape);
  }

  /** A routing number written out in digit-free prose is masked and nothing else changes. */
  lemma ScrubRoutingInText(a: string, t: string, b: string)
    requires |t| == |RoutingShape| && forall k :: 0 <= k < |RoutingShape| ==> SlotMatches(t[k], RoutingShape[k])
    requires NoDigits(a) && (a == [] || !IsWordChar(a[|a| - 1]))
    requires NoDigits(b) && (b == [] || !IsWordChar(b[0]))
    ensures ScrubPII(a + t + b) == a + "XXXXXXXXX" + b
  {
    DigitsConfinedKept(a + t + b, a, t, b, SsnShape);
    DigitsConfinedKept(a + t + b, a, t, b, EinShape);
    DelimitedTokenMasked(a, t, b, RoutingShape);
    ReplaceShapeKeepsDigitFree(b, RoutingShape);
    RoutingMask();
  }

  /** A run of more than nine digits is no identifier: `\b` fails inside it, and it has no dash. */
  lemma LongDigitRunKept(s: string)
    requires |s| > |RoutingShape| && forall k :: 0 <= k < |s| ==> IsDigit(s[k])
    ensures ScrubPII(s) == s
  {
    assert SsnShape[3] == Dash && EinShape[2] == Dash;
    forall j | 0 <= j < |s| ensures !MatchesAt(s, j, SsnShape) && !MatchesAt(s, j, EinShape) {
      if j + |SsnShape| <= |s| { assert !SlotMatches(s[j + 3], SsnShape[3]); }
      if j + |EinShape| <= |s| { assert !SlotMatches(s[j + 2], EinShape[2]); }
    }
    NoMatchKept(s, SsnShape, 0);
    NoMatchKept(s, EinShape, 0);
    forall j | 0 <= j < |s| ensures !MatchesAt(s, j, RoutingShape) {
      if j > 0 { assert IsWordChar(s[j - 1]); }
      else { assert IsWordChar(s[|RoutingShape|]); }
    }
    NoMatchKept(s, RoutingShape, 0);
  }

  lemma MaskHasNoDigits(shape: seq<Slot>)
    ensures NoDigits(Mask(shape))
  {
  }

  /** One pass leaves digit-free text alone. */
  lemma ReplaceShapeKeepsDigitFree(s: string, shape: seq<Slot>)
    requires IsShape(shape) && NoDigits(s)
    ensures ReplaceShape(s, shape) == s
  {
    ReplaceShapeMasksDigitsOnly(s, shape);
  }

  /** Once a pass has produced a mask, the later passes leave it alone. */
  lemma MaskSurvivesLaterPasses(m: string)
    requires NoDigits(m)
    ensures ReplaceShape(ReplaceShape(m, EinShape), RoutingShape) == m
  {
    ReplaceShapeKeepsDigitFree(m, EinShape);
    ReplaceShapeKeepsDigitFree(m, RoutingShape);
  }

  lemma SsnMask()
    ensures Mask(SsnShape) == "XXX-XX-XXXX"
  {
  }

  lemma EinMask()
    ensures Mask(EinShape) == "XX-XXXXXXX"
  {
  }

  lemma RoutingMask()
    ensures Mask(RoutingShape) == "XXXXXXXXX"
  {
  }

  /** A whole SSN becomes "XXX-XX-XXXX". */
  lemma ScrubSsn(s: string)
    requires |s| == |SsnShape| && forall k :: 0 <= k < |SsnShape| ==> SlotMatches(s[k], SsnShape[k])
    ensures ScrubPII(s) == "XXX-XX-XXXX"
  {
    TokenIsMasked(s, SsnShape);
    MaskHasNoDigits(SsnShape);
    MaskSurvivesLaterPasses(Mask(SsnShape));
    SsnMask();
  }

  /** A whole EIN becomes "XX-XXXXXXX": it is too short to be read as an SSN. */
  lemma ScrubEin(s: string)
    requires |s| == |EinShape| && forall k :: 0 <= k < |EinShape| ==> SlotMatches(s[k], EinShape[k])
    ensures ScrubPII(s) == "XX-XXXXXXX"
  {
    ShortTextKept(s, SsnShape);
    TokenIsMasked(s, EinShape);
    MaskHasNoDigits(EinShape);
    ReplaceShapeKeepsDigitFree(Mask(EinShape), RoutingShape);
    EinMask();
  }

  /** A whole nine-digit number becomes "XXXXXXXXX". */
  lemma ScrubRouting(s: string)
    requires |s| == |RoutingShape| && forall k :: 0 <= k < |RoutingShape| ==> IsDigit(s[k])
    ensures ScrubPII(s) == "XXXXXXXXX"
  {
    ShortTextKept(s, SsnShape);
    ShortTextKept(s, EinShape);
    TokenIsMasked(s, RoutingShape);
    RoutingMask();
  }

  // ---------------------------------------------------------------------
  // detectMode
  // ---------------------------------------------------------------------

  const ModeKeywords := ["wages", "overtime", "gross", "net", "withholding", "federal tax", "hours", "rate", "deduction"]

  /** `/\d{2,}/.test(text)`, by a left-to-right scan from `i`. */
  function HasDigitPairFrom(text: string, i: nat): bool
    decreases |text| - i
  {
    if i + 1 >= |text| then false
    else if IsDigit(text[i]) && IsDigit(text[i + 1]) then true
    else HasDigitPairFrom(text, i + 1)
  }

  ghost predicate DigitPairAt(text: string, i: nat) {
    i + 1 < |text| && IsDigit(text[i]) && IsDigit(text[i + 1])
  }

  lemma {:induction false} HasDigitPairFromIff(text: string, i: nat)
    ensures HasDigitPairFrom(text, i) <==> exists j: nat :: i <= j && DigitPairAt(text, j)
    decreases |text| - i
  {
    if i + 1 < |text| && !(IsDigit(text[i]) && IsDigit(text[i + 1])) {
      HasDigitPairFromIff(text, i + 1);
      if exists j: nat :: i <= j && DigitPairAt(text, j) {
        var j: nat :| i <= j && DigitPairAt(text, j);
        assert j != i;
      }
    } else if i + 1 < |text| {
      assert DigitPairAt(text, i);
    }
  }

  /** `detectMode(text)` */
  function DetectMode(text: string): (mode: string)
    ensures mode == "calculation" || mode == "research"
  {
    if HasDigitPairFrom(text, 0) && ContainsAny(Lower(text), ModeKeywords) then "calculation" else "research"
  }

  /** Calculation exactly when two digits stand side by side and a keyword occurs, in any case. */
  lemma DetectModeIff(text: string)
    ensures DetectMode(text) == "calculation" <==>
      && (exists j: nat :: DigitPairAt(text, j))
      && (exists k :: 0 <= k < |ModeKeywords| && Contains(Lower(text), ModeKeywords[k]))
  {
    HasDigitPairFromIff(text, 0);
    ContainsAnyExists(Lower(text), ModeKeywords);
  }

  /** Text without a digit is always a research question. */
  lemma DigitFreeIsResearch(text: string)
    requires NoDigits(text)
    ensures DetectMode(text) == "research"
  {
    HasDigitPairFromIff(text, 0);
  }
}
