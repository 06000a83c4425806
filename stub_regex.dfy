/**
 * `extract_stub_values_regex`: three case-insensitive `re.search` calls over
 * the pay-stub text, one per figure, each followed by `float()` on the
 * captured `[\d.]+` text.
 *
 * Each of the three patterns is deterministic once its greedy quantifiers are
 * read left to right: `\s*` is always followed by a letter, and `[:\s$]*` and
 * `[\d.]+` share no character, so neither can give characters back to what
 * follows it, and `[\d.]+` ends the pattern.  The only place where the regex
 * engine backtracks is the optional group `(?:ular)?`, which is tried first
 * with the group and then without it, exactly as MatchAt does.
 */
module StubRegex {
  import opened Wrappers
  import opened Text
  import opened Deduction

  /**
   * A character of the text as `re.IGNORECASE` compares it with a lower-case
   * pattern letter: ASCII letters fold to lower case, and the long s U+017F,
   * which Python's regex engine treats as a case variant of `s`, folds to `s`.
   */
  function Fold(c: char): char {
    if c == '\U{017F}' then 's' else ToLower(c)
  }

  function Folded(s: string): (r: string)
    ensures |r| == |s|
    ensures forall k :: 0 <= k < |s| ==> r[k] == Fold(s[k])
  {
    seq(|s|, k requires 0 <= k < |s| => Fold(s[k]))
  }

  /** The literal `lit` (lower-case letters) matches case-insensitively at `i`. */
  predicate LiteralAt(s: string, i: nat, lit: string) {
    i + |lit| <= |s| && Folded(s[i..i + |lit|]) == lit
  }

  /** The character classes the patterns repeat. */
  datatype CharClass =
    | Space                  // \s
    | Separator(dollar: bool) // [:\s$] when dollar, [:\s] otherwise
    | NumberChar             // [\d.]
    | Digit                  // \d

  predicate InClass(c: char, cls: CharClass) {
    match cls
    case Space => IsSpace(c)
    case Separator(dollar) => c == ':' || IsSpace(c) || (dollar && c == '$')
    case NumberChar => IsDigit(c) || c == '.'
    case Digit => IsDigit(c)
  }

  /** The end of the longest run of `cls` starting at `i` (a greedy `cls*`). */
  function ScanWhile(s: string, i: nat, cls: CharClass): (j: nat)
    requires i <= |s|
    ensures i <= j <= |s|
    decreases |s| - i
  {
    if i < |s| && InClass(s[i], cls) then ScanWhile(s, i + 1, cls) else i
  }

  /** The scan passes over members of `cls` only, and stops at a non-member or the end. */
  lemma {:induction false} ScanWhileStops(s: string, i: nat, cls: CharClass)
    requires i <= |s|
    ensures forall k :: i <= k < ScanWhile(s, i, cls) ==> InClass(s[k], cls)
    ensures ScanWhile(s, i, cls) == |s| || !InClass(s[ScanWhile(s, i, cls)], cls)
    decreases |s| - i
  {
    if i < |s| && InClass(s[i], cls) {
      ScanWhileStops(s, i + 1, cls);
    }
  }

  /**
   * `lead (?:optional)? \s* noun [separators]* ([\d.]+)`: the shape shared by
   * the three patterns.  An empty `optional` means the pattern has no
   * optional group.
   */
  datatype Pattern = Pattern(lead: string, optional: string, noun: string, dollar: bool)

  /** `reg(?:ular)?\s*rate[:\s$]*([\d\.]+)` */
  const RegRatePattern := Pattern("reg", "ular", "rate", true)
  /** `ot\s*rate[:\s$]*([\d\.]+)` */
  const OtRatePattern := Pattern("ot", "", "rate", true)
  /** `ot\s*hours[:\s]*([\d\.]+)` */
  const OtHoursPattern := Pattern("ot", "", "hours", false)

  /** A captured group: a non-empty run of digits and dots. */
  predicate IsCapture(g: string) {
    g != [] && forall k :: 0 <= k < |g| ==> InClass(g[k], NumberChar)
  }

  /** The part of the pattern after `lead (?:optional)?`, tried at index `j`. */
  function MatchTail(s: string, j: nat, p: Pattern): (g: Option<string>)
    requires j <= |s|
    ensures g.Some? ==> IsCapture(g.value)
  {
    var a := ScanWhile(s, j, Space);
    if !LiteralAt(s, a, p.noun) then None
    else
      var b := ScanWhile(s, a + |p.noun|, Separator(p.dollar));
      var c := ScanWhile(s, b, NumberChar);
      ScanWhileStops(s, b, NumberChar);
      if c == b then None else Some(s[b..c])
  }

  /** The group captured by a match starting exactly at `i`, if the pattern matches there. */
  function MatchAt(s: string, i: nat, p: Pattern): (g: Option<string>)
    requires i <= |s|
    ensures g.Some? ==> IsCapture(g.value)
    ensures g.Some? ==> LiteralAt(s, i, p.lead)
  {
    if !LiteralAt(s, i, p.lead) then None else AfterLead(s, i + |p.lead|, p)
  }

  /** `(?:optional)?` and the tail at `j`: the longer alternative first, backtracking to the shorter. */
  function AfterLead(s: string, j: nat, p: Pattern): (g: Option<string>)
    requires j <= |s|
    ensures g.Some? ==> IsCapture(g.value)
    ensures g.Some? ==>
      || g == MatchTail(s, j, p)
      || (p.optional != [] && LiteralAt(s, j, p.optional) && g == MatchTail(s, j + |p.optional|, p))
  {
    var longer := if p.optional != [] && LiteralAt(s, j, p.optional) then MatchTail(s, j + |p.optional|, p) else None;
    if longer.Some? then longer else MatchTail(s, j, p)
  }

  datatype Found = Found(start: nat, capture: string)

  /** The first attempt, from index `i` on, that produced a capture. */
  function FirstFound(attempts: seq<Option<string>>, i: nat): (r: Option<Found>)
    requires i <= |attempts|
    ensures r.None? <==> forall k :: i <= k < |attempts| ==> attempts[k].None?
    ensures r.Some? ==>
      && i <= r.value.start < |attempts|
      && attempts[r.value.start] == Some(r.value.capture)
      && forall k :: i <= k < r.value.start ==> attempts[k].None?
    decreases |attempts| - i
  {
    if i == |attempts| then None
    else if attempts[i].Some? then Some(Found(i, attempts[i].value))
    else FirstFound(attempts, i + 1)
  }

  /**
   * `re.search(pattern, s, re.IGNORECASE)`: of the matches that start at
   * 0, 1, ..., |s|, the leftmost one.
   */
  function Search(s: string, p: Pattern): (r: Option<Found>)
    ensures r.None? <==> forall k :: 0 <= k <= |s| ==> MatchAt(s, k, p).None?
    ensures r.Some? ==>
      && r.value.start <= |s|
      && MatchAt(s, r.value.start, p) == Some(r.value.capture)
      && forall k :: 0 <= k < r.value.start ==> MatchAt(s, k, p).None?
  {
    var attempts := seq(|s| + 1, k requires 0 <= k <= |s| => MatchAt(s, k, p));
    assert forall k :: 0 <= k <= |s| ==> attempts[k] == MatchAt(s, k, p);
    FirstFound(attempts, 0)
  }

  // ---------------------------------------------------------------------
  // float() on the captured text
  // ---------------------------------------------------------------------

  predicate AllDigits(ds: string) {
    forall k :: 0 <= k < |ds| ==> IsDigit(ds[k])
  }

  /** The value of a string of decimal digits, most significant first. */
  function DigitsValue(ds: string): nat
    requires AllDigits(ds)
  {
    if ds == [] then 0 else DigitsValue(ds[..|ds| - 1]) * 10 + DigitValue(ds[|ds| - 1])
  }

  function Pow10(n: nat): (p: nat)
    ensures p >= 1
  {
    if n == 0 then 1 else 10 * Pow10(n - 1)
  }

  /** The value of the numeral `ds.fs`: the whole part plus the fraction over the matching power of ten. */
  function DecimalValue(ds: string, fs: string): (v: real)
    requires AllDigits(ds) && AllDigits(fs)
    ensures v >= 0.0
  {
    DigitsValue(ds) as real + (DigitsValue(fs) as real) / (Pow10(|fs|) as real)
  }

  /**
   * Python's `float(t)` on a string of digits and dots: an integer part,
   * optionally followed by a dot and a fraction part, with at least one digit
   * in all.  Anything else (".", "1.2.3", "20.00.") makes `float()` raise,
   * which is None here.
   */
  function ParseDecimal(t: string): (r: Option<real>)
    ensures r.Some? ==> r.value >= 0.0
  {
    var n := ScanWhile(t, 0, Digit);
    ScanWhileStops(t, 0, Digit);
    var rest := t[n..];
    if rest == [] then
      if n > 0 then Some(DigitsValue(t[..n]) as real) else None
    else if rest[0] == '.' && AllDigits(rest[1..]) && (n > 0 || |rest| > 1) then
      Some(DecimalValue(t[..n], rest[1..]))
    else None
  }

  /** A numeral of digits alone is read as its integer value. */
  lemma ParseDecimalWhole(ds: string)
    requires ds != [] && AllDigits(ds)
    ensures ParseDecimal(ds) == Some(DigitsValue(ds) as real)
  {
    ScanRun(ds, 0, |ds|, Digit);
    assert ds[..|ds|] == ds;
  }

  /** `ds.fs` is read as its decimal value. */
  lemma ParseDecimalFraction(ds: string, fs: string)
    requires AllDigits(ds) && AllDigits(fs) && |ds| + |fs| > 0
    ensures ParseDecimal(ds + "." + fs) ==
      Some(DecimalValue(ds, fs))
  {
    var t := ds + "." + fs;
    FractionLayout(t, ds, fs);
    ScanRun(t, 0, |ds|, Digit);
    ParseDecimalAtDot(t, |ds|, ds, fs);
  }

  lemma FractionLayout(t: string, ds: string, fs: string)
    requires t == ds + "." + fs && AllDigits(ds)
    ensures |ds| < |t| && t[..|ds|] == ds && t[|ds|] == '.' && t[|ds| + 1..] == fs
    ensures forall k :: 0 <= k < |ds| ==> InClass(t[k], Digit)
  {
    assert forall k :: 0 <= k < |ds| ==> t[k] == ds[k];
  }

  /** A digit run `ds` ending at a dot, followed by the digits `fs`, is read as `ds.fs`. */
  lemma ParseDecimalAtDot(t: string, n: nat, ds: string, fs: string)
    requires n == ScanWhile(t, 0, Digit) && n < |t|
    requires t[..n] == ds && t[n] == '.' && t[n + 1..] == fs
    requires AllDigits(ds) && AllDigits(fs) && |ds| + |fs| > 0
    ensures ParseDecimal(t) ==
      Some(DecimalValue(ds, fs))
  {
    var rest := t[n..];
    assert rest[0] == '.' && rest[1..] == fs;
  }

  /** What `float()` accepts is a non-empty run of digits and dots. */
  lemma ParseDecimalChars(t: string)
    requires ParseDecimal(t).Some?
    ensures t != [] && forall k :: 0 <= k < |t| ==> InClass(t[k], NumberChar)
  {
    var n := ScanWhile(t, 0, Digit);
    ScanWhileStops(t, 0, Digit);
    var rest := t[n..];
    forall k | 0 <= k < |t| ensures InClass(t[k], NumberChar) {
      if k > n {
        assert t[k] == rest[1..][k - n - 1];
      }
    }
  }

  ghost predicate HasDigit(t: string) {
    exists k :: 0 <= k < |t| && IsDigit(t[k])
  }

  /** A run of digits and dots is all digits exactly when it holds no dot. */
  lemma NoDotIffAllDigits(u: string)
    requires forall k :: 0 <= k < |u| ==> InClass(u[k], NumberChar)
    ensures AllDigits(u) <==> multiset(u)['.'] == 0
  {
    if !AllDigits(u) {
      var k :| 0 <= k < |u| && !IsDigit(u[k]);
      assert u[k] in multiset(u);
    }
  }

  /** On a captured group, `float()` succeeds exactly when the group has at most one dot and at least one digit. */
  lemma ParseDecimalDefined(t: string)
    requires forall k :: 0 <= k < |t| ==> InClass(t[k], NumberChar)
    ensures ParseDecimal(t).Some? <==> multiset(t)['.'] <= 1 && HasDigit(t)
  {
    var n := ScanWhile(t, 0, Digit);
    DotCount(t, n);
    if n < |t| {
      ParseDecimalDotCase(t, n);
      NoDotIffAllDigits(t[n + 1..]);
    } else {
      ParseDecimalAllDigits(t);
    }
  }

  /** The dots of a captured group: none before the digit run ends, then the one it ends on, then the rest. */
  lemma DotCount(t: string, n: nat)
    requires forall k :: 0 <= k < |t| ==> InClass(t[k], NumberChar)
    requires n == ScanWhile(t, 0, Digit)
    ensures n < |t| ==> multiset(t)['.'] == 1 + multiset(t[n + 1..])['.']
    ensures n == |t| ==> multiset(t)['.'] == 0
  {
    ScanWhileStops(t, 0, Digit);
    NoDotIffAllDigits(t[..n]);
    if n < |t| {
      assert t == t[..n] + [t[n]] + t[n + 1..];
      assert multiset(t) == multiset(t[..n]) + multiset{t[n]} + multiset(t[n + 1..]);
    } else {
      assert t[..n] == t;
    }
  }

  /** A group of digits alone is read exactly when it is not empty. */
  lemma ParseDecimalAllDigits(t: string)
    requires ScanWhile(t, 0, Digit) == |t|
    ensures ParseDecimal(t).Some? <==> HasDigit(t)
  {
    ScanWhileStops(t, 0, Digit);
    if t != [] {
      assert IsDigit(t[0]);
    }
  }

  lemma ParseDecimalDotCase(t: string, n: nat)
    requires forall k :: 0 <= k < |t| ==> InClass(t[k], NumberChar)
    requires n == ScanWhile(t, 0, Digit) && n < |t|
    ensures t[n] == '.'
    ensures ParseDecimal(t).Some? <==> AllDigits(t[n + 1..]) && HasDigit(t)
  {
    ScanWhileStops(t, 0, Digit);
    var frac := t[n + 1..];
    if AllDigits(frac) && |frac| > 0 {
      assert IsDigit(t[n + 1]);
    }
    if AllDigits(frac) && HasDigit(t) && n == 0 {
      var k :| 0 <= k < |t| && IsDigit(t[k]);
      assert k != 0;
      assert frac[k - 1] == t[k];
    }
    assert t[n..][1..] == frac;
  }

  // ---------------------------------------------------------------------
  // extract_stub_values_regex
  // ---------------------------------------------------------------------

  /** One figure: 0.0 when the pattern matches nowhere, else `float()` of the leftmost capture. */
  function FieldValue(s: string, p: Pattern): (r: Option<real>)
    ensures r.Some? ==> r.value >= 0.0
  {
    match Search(s, p)
    case None => Some(0.0)
    case Some(f) => ParseDecimal(f.capture)
  }

  /**
   * `extract_stub_values_regex(text)`.  None stands for the ValueError that
   * `float()` raises on a malformed capture; the function does not catch it.
   */
  function RegexExtract(s: string): (r: Option<StubValues>)
    ensures r.Some? ==> r.value.regRate >= 0.0 && r.value.otRate >= 0.0 && r.value.otHours >= 0.0
    ensures r.Some? <==> FieldValue(s, RegRatePattern).Some? && FieldValue(s, OtRatePattern).Some?
                         && FieldValue(s, OtHoursPattern).Some?
    ensures r.Some? ==> r.value == StubValues(FieldValue(s, RegRatePattern).value, FieldValue(s, OtRatePattern).value,
                                              FieldValue(s, OtHoursPattern).value)
  {
    var reg :- FieldValue(s, RegRatePattern);
    var ot :- FieldValue(s, OtRatePattern);
    var hours :- FieldValue(s, OtHoursPattern);
    Some(StubValues(reg, ot, hours))
  }

  /** A figure whose pattern matches nowhere in the text is reported as 0.0. */
  lemma FieldWithoutMatchIsZero(s: string, p: Pattern)
    requires forall k :: 0 <= k <= |s| ==> MatchAt(s, k, p).None?
    ensures FieldValue(s, p) == Some(0.0)
  {
  }

  /** A figure is `float()` of the capture of the leftmost match, whatever later matches say. */
  lemma FieldIsLeftmostCapture(s: string, p: Pattern, i: nat)
    requires i <= |s| && MatchAt(s, i, p).Some?
    requires forall k :: 0 <= k < i ==> MatchAt(s, k, p).None?
    ensures FieldValue(s, p) == ParseDecimal(MatchAt(s, i, p).value)
  {
  }

  /**
   * No match can start inside a stretch `b` of the text where the first letter
   * of the pattern's lead appears in neither case.
   */
  lemma NoMatchWithoutLead(s: string, a: string, b: string, c: string, p: Pattern)
    requires s == a + b + c
    requires p.lead != [] && 'a' <= p.lead[0] <= 'z' && p.lead[0] != 's'
    requires p.lead[0] !in b && ((p.lead[0] as int) - 32) as char !in b
    ensures forall k :: |a| <= k < |a| + |b| ==> MatchAt(s, k, p).None?
  {
    forall k | |a| <= k < |a| + |b| ensures MatchAt(s, k, p).None? {
      assert s[k] == b[k - |a|];
    }
  }

  /** A lead followed by spaces and then a word that cannot start the pattern's noun gives no match there. */
  lemma WrongNounAfterLead(s: string, x: string, lead: string, sp: string, w: string, z: string, p: Pattern)
    requires s == x + lead + sp + w + z && |lead| == |p.lead| && p.optional == []
    requires forall k :: 0 <= k < |sp| ==> IsSpace(sp[k])
    requires w != [] && !IsSpace(w[0]) && p.noun != [] && Fold(w[0]) != p.noun[0]
    ensures |x| <= |s| && MatchAt(s, |x|, p).None?
  {
    var j := |x| + |lead|;
    var a := j + |sp|;
    forall k | j <= k < a ensures IsSpace(s[k]) { assert s[k] == sp[k - j]; }
    assert s[a] == w[0];
    WrongNounAt(s, j, a, p);
    if LiteralAt(s, |x|, p.lead) {
      MatchAtAfterLead(s, |x|, j, p);
      NoOptionalTail(s, j, p);
    }
  }

  /** After a run of spaces from `j` to `a`, a character that cannot start the noun gives no tail match. */
  lemma WrongNounAt(s: string, j: nat, a: nat, p: Pattern)
    requires j <= a < |s| && p.noun != []
    requires forall k :: j <= k < a ==> IsSpace(s[k])
    requires !IsSpace(s[a]) && Fold(s[a]) != p.noun[0]
    ensures MatchTail(s, j, p).None?
  {
    ScanRun(s, j, a, Space);
  }

  // ---------------------------------------------------------------------
  // How a labelled figure in the text is read
  // ---------------------------------------------------------------------

  /** A greedy scan over a run of `cls` from `i` to `j` stops exactly at `j`. */
  lemma {:induction false} ScanRun(s: string, i: nat, j: nat, cls: CharClass)
    requires i <= j <= |s|
    requires forall k :: i <= k < j ==> InClass(s[k], cls)
    requires j == |s| || !InClass(s[j], cls)
    ensures ScanWhile(s, i, cls) == j
    decreases j - i
  {
    if i < j {
      ScanRun(s, i + 1, j, cls);
    }
  }

  /**
   * After the lead, at `j`: spaces up to `a`, the noun in any case, separators
   * up to `b`, and digits and dots up to `c`, where the run ends, give the
   * text from `b` to `c` as the capture.
   */
  lemma TailReadsFigure(s: string, j: nat, a: nat, b: nat, c: nat, p: Pattern)
    requires j <= a && a + |p.noun| <= b < c <= |s|
    requires forall k :: j <= k < a ==> IsSpace(s[k])
    requires LiteralAt(s, a, p.noun) && p.noun != [] && !IsSpace(p.noun[0])
    requires forall k :: a + |p.noun| <= k < b ==> InClass(s[k], Separator(p.dollar))
    requires forall k :: b <= k < c ==> InClass(s[k], NumberChar)
    requires c == |s| || !InClass(s[c], NumberChar)
    ensures MatchTail(s, j, p) == Some(s[b..c])
  {
    assert Folded(s[a..a + |p.noun|])[0] == Fold(s[a]);
    ScanRun(s, j, a, Space);
    ScanRun(s, a + |p.noun|, b, Separator(p.dollar));
    ScanRun(s, b, c, NumberChar);
  }

  /** TailReadsFigure for text laid out as `x + spaces + noun + separators + number + z`. */
  lemma TailReadsLaidOutFigure(s: string, j: nat, x: string, sp: string, noun: string, sep: string, num: string, z: string,
                                p: Pattern)
    requires s == x + sp + noun + sep + num + z && j == |x|
    requires forall k :: 0 <= k < |sp| ==> IsSpace(sp[k])
    requires Folded(noun) == p.noun && p.noun != [] && !IsSpace(p.noun[0])
    requires forall k :: 0 <= k < |sep| ==> InClass(sep[k], Separator(p.dollar))
    requires IsCapture(num)
    requires z == [] || !InClass(z[0], NumberChar)
    ensures j <= |s| && MatchTail(s, j, p) == Some(num)
  {
    var a := |x| + |sp|;
    var b := a + |noun| + |sep|;
    var c := b + |num|;
    forall k | |x| <= k < a ensures IsSpace(s[k]) { assert s[k] == sp[k - |x|]; }
    assert s[a..a + |noun|] == noun;
    forall k | a + |noun| <= k < b ensures InClass(s[k], Separator(p.dollar)) {
      assert s[k] == sep[k - a - |noun|];
    }
    forall k | b <= k < c ensures InClass(s[k], NumberChar) { assert s[k] == num[k - b]; }
    if c < |s| { assert s[c] == z[0]; }
    TailReadsFigure(s, |x|, a, b, c, p);
    assert s[b..c] == num;
  }

  lemma LeadThenTail(s: string, i: nat, j: nat, p: Pattern)
    requires i <= |s| && LiteralAt(s, i, p.lead) && p.optional == [] && j == i + |p.lead|
    ensures MatchAt(s, i, p) == MatchTail(s, j, p)
  {
    MatchAtAfterLead(s, i, j, p);
    NoOptionalTail(s, j, p);
  }

  lemma MatchAtAfterLead(s: string, i: nat, h: nat, p: Pattern)
    requires i <= |s| && LiteralAt(s, i, p.lead) && h == i + |p.lead|
    ensures h <= |s| && MatchAt(s, i, p) == AfterLead(s, h, p)
  {
  }

  lemma NoOptionalTail(s: string, j: nat, p: Pattern)
    requires j <= |s| && p.optional == []
    ensures AfterLead(s, j, p) == MatchTail(s, j, p)
  {
  }

  lemma LeadOptionalThenTail(s: string, i: nat, j: nat, p: Pattern)
    requires i <= |s| && LiteralAt(s, i, p.lead) && p.optional != [] && LiteralAt(s, i + |p.lead|, p.optional)
    requires j == i + |p.lead| + |p.optional| && j <= |s| && MatchTail(s, j, p).Some?
    ensures MatchAt(s, i, p) == MatchTail(s, j, p)
  {
    var h := i + |p.lead|;
    MatchAtAfterLead(s, i, h, p);
    OptionalTaken(s, h, j, p);
  }

  lemma OptionalTaken(s: string, h: nat, j: nat, p: Pattern)
    requires h <= |s| && p.optional != [] && LiteralAt(s, h, p.optional)
    requires j == h + |p.optional| && j <= |s| && MatchTail(s, j, p).Some?
    ensures AfterLead(s, h, p) == MatchTail(s, j, p)
  {
  }

  /** A pattern without an optional group matches a labelled figure `lead spaces noun separators number`. */
  lemma LabelledFigureMatches(s: string, x: string, lead: string, sp: string, noun: string, sep: string, num: string, z: string,
                              p: Pattern)
    requires s == x + lead + sp + noun + sep + num + z
    requires p.optional == [] && Folded(lead) == p.lead
    requires forall k :: 0 <= k < |sp| ==> IsSpace(sp[k])
    requires Folded(noun) == p.noun && p.noun != [] && !IsSpace(p.noun[0])
    requires forall k :: 0 <= k < |sep| ==> InClass(sep[k], Separator(p.dollar))
    requires IsCapture(num)
    requires z == [] || !InClass(z[0], NumberChar)
    ensures |x| <= |s| && MatchAt(s, |x|, p) == Some(num)
  {
    var j := |x| + |lead|;
    TailReadsLaidOutFigure(s, j, x + lead, sp, noun, sep, num, z, p);
    assert s[|x|..j] == lead;
    LeadThenTail(s, |x|, j, p);
  }

  lemma LeadAndOptionalSpelt(s: string, x: string, lead: string, opt: string)
    requires |s| >= |x| + |lead| + |opt| && s[..|x| + |lead| + |opt|] == x + lead + opt
    ensures s[|x|..|x| + |lead|] == lead && s[|x| + |lead|..|x| + |lead| + |opt|] == opt
  {
    var y := x + lead + opt;
    assert s[|x|..|x| + |lead|] == y[|x|..|x| + |lead|];
    assert s[|x| + |lead|..|y|] == y[|x| + |lead|..];
  }

  lemma LeadAndOptionalAt(s: string, x: string, lead: string, opt: string, p: Pattern)
    requires |s| >= |x| + |lead| + |opt| && s[..|x| + |lead| + |opt|] == x + lead + opt
    requires Folded(lead) == p.lead && Folded(opt) == p.optional
    ensures |x| + |p.lead| + |p.optional| == |x| + |lead| + |opt|
    ensures LiteralAt(s, |x|, p.lead) && LiteralAt(s, |x| + |p.lead|, p.optional)
  {
    LeadAndOptionalSpelt(s, x, lead, opt);
    LiteralSpelt(s, |x|, lead, p.lead);
    LiteralSpelt(s, |x| + |lead|, opt, p.optional);
  }

  lemma OptionalLeadThenTail(s: string, x: string, lead: string, opt: string, p: Pattern, j: nat)
    requires j == |x| + |lead| + |opt| && j <= |s| && s[..j] == x + lead + opt
    requires Folded(lead) == p.lead && p.optional != [] && Folded(opt) == p.optional
    requires MatchTail(s, j, p).Some?
    ensures |x| <= |s| && MatchAt(s, |x|, p) == MatchTail(s, j, p)
  {
    LeadAndOptionalAt(s, x, lead, opt, p);
    LeadOptionalThenTail(s, |x|, j, p);
  }

  /** The text before the spaces of a laid-out figure. */
  lemma PrefixOfLayout(s: string, y: string, sp: string, noun: string, sep: string, num: string, z: string)
    requires s == y + sp + noun + sep + num + z
    ensures |y| <= |s| && s[..|y|] == y
  {
    assert s == y + (sp + noun + sep + num + z);
  }

  /** A stretch of the text that folds to a literal is that literal, case-insensitively. */
  lemma LiteralSpelt(s: string, i: nat, w: string, lit: string)
    requires i + |w| <= |s| && s[i..i + |w|] == w && Folded(w) == lit
    ensures i + |lit| == i + |w| && LiteralAt(s, i, lit)
  {
  }

  /** The same with the optional group present, spelt out in the text. */
  lemma LabelledFigureMatchesWithOptional(s: string, x: string, lead: string, opt: string, sp: string, noun: string,
                                          sep: string, num: string, z: string, p: Pattern)
    requires s == x + lead + opt + sp + noun + sep + num + z
    requires Folded(lead) == p.lead && p.optional != [] && Folded(opt) == p.optional
    requires forall k :: 0 <= k < |sp| ==> IsSpace(sp[k])
    requires Folded(noun) == p.noun && p.noun != [] && !IsSpace(p.noun[0])
    requires forall k :: 0 <= k < |sep| ==> InClass(sep[k], Separator(p.dollar))
    requires IsCapture(num)
    requires z == [] || !InClass(z[0], NumberChar)
    ensures |x| <= |s| && MatchAt(s, |x|, p) == Some(num)
  {
    var j := |x| + |lead| + |opt|;
    TailReadsLaidOutFigure(s, j, x + lead + opt, sp, noun, sep, num, z, p);
    PrefixOfLayout(s, x + lead + opt, sp, noun, sep, num, z);
    OptionalLeadThenTail(s, x, lead, opt, p, j);
  }

  // ---------------------------------------------------------------------
  // What a match says about the text
  // ---------------------------------------------------------------------

  /**
   * The text from `j` is laid out as `\s* noun [separators]* ([\d.]+)`
   * demands: spaces up to `a`, the noun in any case, separators up to `b`,
   * and digits and dots from `b` to `c`, where their run ends.
   */
  ghost predicate TailLayout(s: string, j: nat, a: nat, b: nat, c: nat, p: Pattern) {
    && j <= a && a + |p.noun| <= b < c <= |s|
    && (forall k :: j <= k < a ==> IsSpace(s[k]))
    && LiteralAt(s, a, p.noun)
    && (forall k :: a + |p.noun| <= k < b ==> InClass(s[k], Separator(p.dollar)))
    && (forall k :: b <= k < c ==> InClass(s[k], NumberChar))
    && (c == |s| || !InClass(s[c], NumberChar))
  }

  /** Some layout of the tail from `j` captures `g`. */
  ghost predicate TailReads(s: string, j: nat, p: Pattern, g: string) {
    exists a: nat, b: nat, c: nat :: TailLayout(s, j, a, b, c, p) && g == s[b..c]
  }

  /** A tail match is a laid-out tail, and its capture is the number run. */
  lemma MatchTailSound(s: string, j: nat, p: Pattern)
    requires j <= |s| && MatchTail(s, j, p).Some?
    ensures TailReads(s, j, p, MatchTail(s, j, p).value)
  {
    var a := ScanWhile(s, j, Space);
    ScanWhileStops(s, j, Space);
    var b := ScanWhile(s, a + |p.noun|, Separator(p.dollar));
    ScanWhileStops(s, a + |p.noun|, Separator(p.dollar));
    var c := ScanWhile(s, b, NumberChar);
    ScanWhileStops(s, b, NumberChar);
    assert TailLayout(s, j, a, b, c, p);
  }

  /** For a noun that starts with a non-space, the tail matches with capture `g` exactly when the text is laid out so. */
  lemma MatchTailIff(s: string, j: nat, p: Pattern, g: string)
    requires j <= |s| && p.noun != [] && !IsSpace(p.noun[0])
    ensures MatchTail(s, j, p) == Some(g) <==> TailReads(s, j, p, g)
  {
    if MatchTail(s, j, p) == Some(g) {
      MatchTailSound(s, j, p);
    }
    if TailReads(s, j, p, g) {
      var a: nat, b: nat, c: nat :| TailLayout(s, j, a, b, c, p) && g == s[b..c];
      TailReadsFigure(s, j, a, b, c, p);
    }
  }

  /**
   * A match at `i` capturing `g` is the lead at `i`, then a laid-out tail
   * capturing `g` that starts either after the optional text, spelt in any
   * case, or right after the lead.
   */
  lemma MatchAtSound(s: string, i: nat, p: Pattern, g: string)
    requires i <= |s| && MatchAt(s, i, p) == Some(g)
    ensures LiteralAt(s, i, p.lead) && ReadsAfterLead(s, i + |p.lead|, p, g)
  {
    var j := i + |p.lead|;
    MatchAtAfterLead(s, i, j, p);
    AfterLeadSound(s, j, p, g);
  }

  /** From `j` on, the optional text spelt in any case and then a tail capturing `g`, or such a tail right at `j`. */
  ghost predicate ReadsAfterLead(s: string, j: nat, p: Pattern, g: string) {
    || TailReads(s, j, p, g)
    || (p.optional != [] && LiteralAt(s, j, p.optional) && TailReads(s, j + |p.optional|, p, g))
  }

  /** A capture `g` after the lead is a laid-out tail, after the optional text or right at `j`. */
  lemma AfterLeadSound(s: string, j: nat, p: Pattern, g: string)
    requires j <= |s| && AfterLead(s, j, p) == Some(g)
    ensures ReadsAfterLead(s, j, p, g)
  {
    if Some(g) == MatchTail(s, j, p) {
      MatchTailSound(s, j, p);
    } else {
      MatchTailSound(s, j + |p.optional|, p);
    }
  }

  /** When `(?:optional)?` cannot be taken, or the tail after it fails, the engine backtracks to the tail right after the lead. */
  lemma AfterLeadFallback(s: string, j: nat, p: Pattern)
    requires j <= |s|
    requires p.optional == [] || !LiteralAt(s, j, p.optional) || MatchTail(s, j + |p.optional|, p).None?
    ensures AfterLead(s, j, p) == MatchTail(s, j, p)
  {
  }

  /** A space is its own case fold. */
  lemma FoldSpace(c: char)
    requires IsSpace(c)
    ensures Fold(c) == c
  {
  }

  /**
   * A labelled figure whose lead is followed directly by spaces or the noun,
   * not by the optional text: the group is skipped and the figure is read,
   * as in "Reg Rate: $20.00".
   */
  lemma LabelledFigureMatchesWithoutOptional(s: string, x: string, lead: string, sp: string, noun: string, sep: string,
                                             num: string, z: string, p: Pattern)
    requires s == x + lead + sp + noun + sep + num + z
    requires Folded(lead) == p.lead && p.optional != [] && !IsSpace(p.optional[0])
    requires forall k :: 0 <= k < |sp| ==> IsSpace(sp[k])
    requires Folded(noun) == p.noun && p.noun != [] && !IsSpace(p.noun[0]) && p.noun[0] != p.optional[0]
    requires forall k :: 0 <= k < |sep| ==> InClass(sep[k], Separator(p.dollar))
    requires IsCapture(num)
    requires z == [] || !InClass(z[0], NumberChar)
    ensures |x| <= |s| && MatchAt(s, |x|, p) == Some(num)
  {
    var j := |x| + |lead|;
    TailReadsLaidOutFigure(s, j, x + lead, sp, noun, sep, num, z, p);
    LeadWithoutOptional(s, x, lead, sp, noun, sep, num, z, p);
    SkippedOptionalMatch(s, |x|, j, p);
  }

  /** In the laid-out text, the lead is at `|x|` and the optional text does not follow it. */
  lemma LeadWithoutOptional(s: string, x: string, lead: string, sp: string, noun: string, sep: string, num: string, z: string,
                            p: Pattern)
    requires s == x + lead + sp + noun + sep + num + z
    requires Folded(lead) == p.lead && p.optional != [] && !IsSpace(p.optional[0])
    requires forall k :: 0 <= k < |sp| ==> IsSpace(sp[k])
    requires Folded(noun) == p.noun && p.noun != [] && p.noun[0] != p.optional[0]
    ensures |x| + |lead| <= |s| && |lead| == |p.lead|
    ensures LiteralAt(s, |x|, p.lead) && !LiteralAt(s, |x| + |lead|, p.optional)
  {
    CharAfterLead(s, x, lead, sp, noun, sep, num, z);
    LiteralSpelt(s, |x|, lead, p.lead);
    OptionalNotAt(s, |x| + |lead|, p, if sp != [] then sp[0] else noun[0], noun);
  }

  /** With the lead at `i` and no optional text after it, the match at `i` is the tail right after the lead. */
  lemma SkippedOptionalMatch(s: string, i: nat, j: nat, p: Pattern)
    requires i <= |s| && LiteralAt(s, i, p.lead) && j == i + |p.lead|
    requires !LiteralAt(s, j, p.optional)
    ensures j <= |s| && MatchAt(s, i, p) == MatchTail(s, j, p)
  {
    MatchAtAfterLead(s, i, j, p);
    AfterLeadFallback(s, j, p);
  }

  /** Where the lead sits in the laid-out text, and what follows it. */
  lemma CharAfterLead(s: string, x: string, lead: string, sp: string, noun: string, sep: string, num: string, z: string)
    requires s == x + lead + sp + noun + sep + num + z && noun != []
    ensures |x| + |lead| < |s| && s[|x|..|x| + |lead|] == lead
    ensures s[|x| + |lead|] == if sp != [] then sp[0] else noun[0]
  {
    assert s[|x|..|x| + |lead|] == lead;
  }

  /** A character that is a space, or the noun's first letter, cannot start the optional text. */
  lemma OptionalNotAt(s: string, j: nat, p: Pattern, d: char, noun: string)
    requires j < |s| && s[j] == d && p.optional != [] && !IsSpace(p.optional[0])
    requires IsSpace(d) || (noun != [] && d == noun[0] && Folded(noun) == p.noun && p.noun != [] && p.noun[0] != p.optional[0])
    ensures !LiteralAt(s, j, p.optional)
  {
    if IsSpace(d) {
      FoldSpace(d);
    } else {
      assert Folded(noun)[0] == Fold(noun[0]);
    }
    if j + |p.optional| <= |s| {
      assert Folded(s[j..j + |p.optional|])[0] == Fold(s[j]);
    }
  }

  /** `reg(?:ular)?\s*rate...` reads "Reg Rate: $20.00"-shaped text, without `ular`. */
  lemma RegRateWithoutUlar(s: string, x: string, lead: string, sp: string, noun: string, sep: string, num: string, z: string)
    requires s == x + lead + sp + noun + sep + num + z
    requires Folded(lead) == "reg" && Folded(noun) == "rate"
    requires forall k :: 0 <= k < |sp| ==> IsSpace(sp[k])
    requires forall k :: 0 <= k < |sep| ==> InClass(sep[k], Separator(true))
    requires IsCapture(num)
    requires z == [] || !InClass(z[0], NumberChar)
    ensures |x| <= |s| && MatchAt(s, |x|, RegRatePattern) == Some(num)
  {
    LabelledFigureMatchesWithoutOptional(s, x, lead, sp, noun, sep, num, z, RegRatePattern);
  }

  /** `ot\s*hours[:\s]*` takes no dollar sign: "OT Hours: $10"-shaped text has no match at the lead. */
  lemma HoursRejectDollar(s: string, x: string, lead: string, sp: string, noun: string, sep: string, z: string)
    requires s == x + lead + sp + noun + sep + "$" + z
    requires Folded(lead) == "ot" && Folded(noun) == "hours"
    requires forall k :: 0 <= k < |sp| ==> IsSpace(sp[k])
    requires forall k :: 0 <= k < |sep| ==> InClass(sep[k], Separator(false))
    ensures |x| <= |s| && MatchAt(s, |x|, OtHoursPattern).None?
  {
    var p := OtHoursPattern;
    var j := |x| + |lead|;
    var a := j + |sp|;
    var b := a + |noun| + |sep|;
    DollarLayout(s, x, lead, sp, noun, sep, z, a, b);
    assert Folded(noun)[0] == Fold(noun[0]);
    if IsSpace(s[a]) { FoldSpace(s[a]); }
    ScanRun(s, j, a, Space);
    if LiteralAt(s, a, p.noun) {
      ScanRun(s, a + |p.noun|, b, Separator(false));
      ScanRun(s, b, b, NumberChar);
    }
    if LiteralAt(s, |x|, p.lead) {
      LeadThenTail(s, |x|, j, p);
    }
  }

  /** Where the pieces of `x + lead + sp + noun + sep + "$" + z` sit in the text. */
  lemma DollarLayout(s: string, x: string, lead: string, sp: string, noun: string, sep: string, z: string, a: nat, b: nat)
    requires s == x + lead + sp + noun + sep + "$" + z && noun != []
    requires a == |x| + |lead| + |sp| && b == a + |noun| + |sep|
    ensures b < |s| && s[a] == noun[0] && s[b] == '$'
    ensures forall k :: |x| + |lead| <= k < a ==> s[k] == sp[k - |x| - |lead|]
    ensures forall k :: a + |noun| <= k < b ==> s[k] == sep[k - a - |noun|]
  {
  }
}
