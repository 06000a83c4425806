/**
 * The pay stub of the JSON-flow test, read end to end: where each pattern
 * matches, what `float()` makes of each capture, and the reply of the
 * calculation mode.  Each step is a small lemma of its own.
 */
module StubExample {
  import opened Wrappers
  import opened Text
  import opened Deduction
  import opened StubRegex
  import AiFallback
  import TaxBot

  /** The three labelled figures of the stub, in the order the test writes them. */
  const RegLine := "Regular Rate: $20.00 "
  const OtRateLine := "OT Rate: $30.00 "
  const OtHoursLine := "OT Hours: 10"

  /** "Regular Rate: $20.00 OT Rate: $30.00 OT Hours: 10" */
  const PayStubExample := RegLine + OtRateLine + OtHoursLine

  // The Fold* and Split* lemmas cut the stub into the words each pattern
  // reads, so that every matching lemma below unfolds only a few characters
  // at a time; this is for the verifier's sake and adds nothing to the model.
  lemma FoldReg() ensures Folded("Reg") == "reg" {
    assert Folded("Reg")[0] == 'r';
  }
  lemma FoldUlar() ensures Folded("ular") == "ular" {}
  lemma FoldRate() ensures Folded("Rate") == "rate" {
    assert Folded("Rate")[0] == 'r';
  }
  lemma FoldOt() ensures Folded("OT") == "ot" {
    assert Folded("OT")[0] == 'o';
    assert Folded("OT")[1] == 't';
  }
  lemma FoldHours() ensures Folded("Hours") == "hours" {
    assert Folded("Hours")[0] == 'h';
  }

  lemma SplitRegLine() ensures RegLine == "Reg" + "ular" + " " + "Rate" + ": $" + "20.00" + " " {}
  lemma SplitOtRateLine() ensures OtRateLine == "OT" + " " + "Rate" + ": $" + "30.00" + " " {}
  lemma SplitOtRateLineAtNoun() ensures OtRateLine == "OT" + " " + "Rate: $30.00 " {}
  lemma SplitOtRateLineAtT() ensures OtRateLine == "O" + "T Rate: $30.00 " {}
  lemma SplitOtHoursLine() ensures OtHoursLine == "OT" + " " + "Hours" + ": " + "10" {}

  lemma RegMatch() ensures MatchAt(PayStubExample, 0, RegRatePattern) == Some("20.00") {
    SplitRegLine(); FoldReg(); FoldUlar(); FoldRate();
    var z := " " + OtRateLine + OtHoursLine;
    assert PayStubExample == [] + "Reg" + "ular" + " " + "Rate" + ": $" + "20.00" + z;
    LabelledFigureMatchesWithOptional(PayStubExample, [], "Reg", "ular", " ", "Rate", ": $", "20.00", z, RegRatePattern);
  }
  lemma OtRateMatch() ensures MatchAt(PayStubExample, 21, OtRatePattern) == Some("30.00") {
    SplitOtRateLine(); FoldOt(); FoldRate();
    var z := " " + OtHoursLine;
    assert PayStubExample == RegLine + "OT" + " " + "Rate" + ": $" + "30.00" + z;
    LabelledFigureMatches(PayStubExample, RegLine, "OT", " ", "Rate", ": $", "30.00", z, OtRatePattern);
  }
  lemma OtHoursMatch() ensures MatchAt(PayStubExample, 37, OtHoursPattern) == Some("10") {
    SplitOtHoursLine(); FoldOt(); FoldHours();
    var x := RegLine + OtRateLine;
    assert PayStubExample == x + "OT" + " " + "Hours" + ": " + "10" + "";
    LabelledFigureMatches(PayStubExample, x, "OT", " ", "Hours", ": ", "10", "", OtHoursPattern);
  }
  lemma OtHoursNotAt21() ensures MatchAt(PayStubExample, 21, OtHoursPattern).None? {
    SplitOtRateLineAtNoun();
    var w := "Rate: $30.00 " + OtHoursLine;
    assert PayStubExample == RegLine + "OT" + " " + w + "";
    WrongNounAfterLead(PayStubExample, RegLine, "OT", " ", w, "", OtHoursPattern);
  }
  /** "Reg Rate: $20.00": the spelling without `ular` is read as well. */
  const ShortRegLine := "Reg Rate: $20.00"
  lemma ShortRegMatch() ensures MatchAt(ShortRegLine, 0, RegRatePattern) == Some("20.00") {
    FoldReg(); FoldRate();
    assert ShortRegLine == [] + "Reg" + " " + "Rate" + ": $" + "20.00" + "";
    RegRateWithoutUlar(ShortRegLine, [], "Reg", " ", "Rate", ": $", "20.00", "");
  }
  lemma ShortRegField() ensures FieldValue(ShortRegLine, RegRatePattern) == Some(20.0) {
    ShortRegMatch(); ParseTwenty();
    FieldIsLeftmostCapture(ShortRegLine, RegRatePattern, 0);
  }

  /** "OT Hours: $10": the hours pattern takes no dollar sign, so nothing matches at its lead. */
  const DollarHoursLine := "OT Hours: $10"
  lemma DollarHoursNoMatch() ensures MatchAt(DollarHoursLine, 0, OtHoursPattern).None? {
    FoldOt(); FoldHours();
    assert DollarHoursLine == [] + "OT" + " " + "Hours" + ": " + "$" + "10";
    HoursRejectDollar(DollarHoursLine, [], "OT", " ", "Hours", ": ", "10");
  }

  lemma RegLineHasNoO() ensures 'o' !in RegLine && 'O' !in RegLine {}
  lemma OtRateRestHasNoO() ensures 'o' !in "T Rate: $30.00 " && 'O' !in "T Rate: $30.00 " {}
  lemma OtLead(p: Pattern)
    requires p.lead == "ot"
    ensures p.lead != [] && p.lead[0] == 'o' && ((p.lead[0] as int) - 32) as char == 'O'
  {
  }

  lemma NoOtBefore21(p: Pattern)
    requires p.lead == "ot"
    ensures forall k :: 0 <= k < 21 ==> MatchAt(PayStubExample, k, p).None?
  {
    RegLineHasNoO();
    OtLead(p);
    assert PayStubExample == [] + RegLine + (OtRateLine + OtHoursLine);
    NoMatchWithoutLead(PayStubExample, [], RegLine, OtRateLine + OtHoursLine, p);
  }
  lemma NoOtFrom22To37(p: Pattern)
    requires p.lead == "ot"
    ensures forall k :: 22 <= k < 37 ==> MatchAt(PayStubExample, k, p).None?
  {
    SplitOtRateLineAtT();
    OtRateRestHasNoO();
    OtLead(p);
    var a := RegLine + "O";
    assert PayStubExample == a + "T Rate: $30.00 " + OtHoursLine;
    NoMatchWithoutLead(PayStubExample, a, "T Rate: $30.00 ", OtHoursLine, p);
  }

  lemma ParseTwenty() ensures ParseDecimal("20.00") == Some(20.0) {
    var t := "20.00";
    ScanRun(t, 0, 2, Digit);
    assert t[..2] == "20";
    assert DigitsValue("20") == 20 by { assert "20"[..1] == "2"; assert "2"[..0] == []; }
    assert t[2..] == ".00";
    assert ".00"[1..] == "00";
    assert DigitsValue("00") == 0 by { assert "00"[..1] == "0"; assert "0"[..0] == []; }
  }
  lemma ParseThirty() ensures ParseDecimal("30.00") == Some(30.0) {
    var t := "30.00";
    ScanRun(t, 0, 2, Digit);
    assert t[..2] == "30";
    assert DigitsValue("30") == 30 by { assert "30"[..1] == "3"; assert "3"[..0] == []; }
    assert t[2..] == ".00";
    assert ".00"[1..] == "00";
    assert DigitsValue("00") == 0 by { assert "00"[..1] == "0"; assert "0"[..0] == []; }
  }
  lemma ParseTen() ensures ParseDecimal("10") == Some(10.0) {
    var t := "10";
    ScanRun(t, 0, 2, Digit);
    assert t[..2] == t;
    assert DigitsValue("10") == 10 by { assert "10"[..1] == "1"; assert "1"[..0] == []; }
    assert t[2..] == [];
  }

  lemma ExampleRegField() ensures FieldValue(PayStubExample, RegRatePattern) == Some(20.0) {
    RegMatch(); ParseTwenty();
    FieldIsLeftmostCapture(PayStubExample, RegRatePattern, 0);
  }
  lemma ExampleOtRateField() ensures FieldValue(PayStubExample, OtRatePattern) == Some(30.0) {
    OtRateMatch(); NoOtBefore21(OtRatePattern); ParseThirty();
    FieldIsLeftmostCapture(PayStubExample, OtRatePattern, 21);
  }
  lemma NoOtHoursBefore37() ensures forall k :: 0 <= k < 37 ==> MatchAt(PayStubExample, k, OtHoursPattern).None? {
    NoOtBefore21(OtHoursPattern); OtHoursNotAt21(); NoOtFrom22To37(OtHoursPattern);
    forall k | 0 <= k < 37 ensures MatchAt(PayStubExample, k, OtHoursPattern).None? {
      if k < 21 { } else if k > 21 { }
    }
  }
  lemma ExampleOtHoursField() ensures FieldValue(PayStubExample, OtHoursPattern) == Some(10.0) {
    OtHoursMatch(); NoOtHoursBefore37(); ParseTen();
    FieldIsLeftmostCapture(PayStubExample, OtHoursPattern, 37);
  }
  lemma ExampleExtracts() ensures RegexExtract(PayStubExample) == Some(StubValues(20.0, 30.0, 10.0)) {
    ExampleRegField(); ExampleOtRateField(); ExampleOtHoursField();
  }

  lemma ExampleIsStripped()
    ensures Strip(PayStubExample) == PayStubExample
  {
    assert PayStubExample[0] == RegLine[0] == 'R';
    assert PayStubExample[|PayStubExample| - 1] == OtHoursLine[|OtHoursLine| - 1] == '0';
    StripUnchanged(PayStubExample);
  }

  lemma ExampleDeduction()
    ensures CalculateStub(StubValues(20.0, 30.0, 10.0)) == 100.0
  {
  }

  /**
   * The question of the JSON-flow test in calculation mode gets the deduction
   * 100.0, whatever the language model and the search backend would do: the
   * regex figures are all positive, so neither is consulted.
   */
  lemma ExampleCalculationReply(complete: AiFallback.Completion, decode: AiFallback.Decoder, search: TaxBot.Search)
    ensures TaxBot.HandleTaxBot(PayStubExample, TaxBot.CalculationMode, complete, decode, search) == TaxBot.Calculation(100.0)
  {
    ExampleIsStripped();
    ExampleExtracts();
    ExampleDeduction();
  }
}
