/**
 * `handle_tax_bot` behind `api_router`: an empty question, the calculation
 * branch (regular expressions first, the language model as a fallback, then
 * the calculator) and the research branch.  An exception that escapes the
 * handler becomes the router's "System offline." reply.
 */
module TaxBot {
  import opened Wrappers
  import opened Text
  import opened Deduction
  import StubRegex
  import AiFallback
  import Research

  /** The JSON bodies the handler can send. */
  datatype Reply =
    | Online                                        // {"answer": "System online."}
    | Calculation(deduction: real)                  // {"mode": "calculation", "deduction": ...}
    | ExtractionFailed                              // {"error": "Data extraction failed."}
    | ResearchAnswer(answer: Research.Answer)       // {"answer": ..., "citations": [...]}
    | Offline                                       // {"error": "System offline."}, from the router

  const CalculationMode := "calculation"

  /** The search client: the response to a query, or None when creating the client or searching raises. */
  type Search = string -> Option<Research.SearchOutcome>

  /**
   * The figures the calculator is given: the regex figures when all three are
   * positive, else the AI figures in their place.  None when `float()` raised
   * in the regex step.
   */
  function Extracted(query: string, complete: AiFallback.Completion, decode: AiFallback.Decoder): (r: Option<StubValues>)
    ensures r.None? <==> StubRegex.RegexExtract(query).None?
    ensures r.Some? && AllPositive(StubRegex.RegexExtract(query).value) ==> r.value == StubRegex.RegexExtract(query).value
    ensures r.Some? && !AllPositive(StubRegex.RegexExtract(query).value) ==>
      r.value == AiFallback.AiExtract(query, complete, decode)
  {
    var regex :- StubRegex.RegexExtract(query);
    if AllPositive(regex) then Some(regex) else Some(AiFallback.AiExtract(query, complete, decode))
  }

  /** The final check and the calculator, given the figures (None when extraction raised). */
  function ReplyFor(extracted: Option<StubValues>): (r: Reply)
    ensures r.Calculation? || r.ExtractionFailed? || r.Offline?
    ensures r.Offline? <==> extracted.None?
    ensures r.Calculation? <==> extracted.Some? && AllPositive(extracted.value)
    ensures r.Calculation? ==>
      && r.deduction >= 0.0
      && r.deduction < extracted.value.otRate * extracted.value.otHours
      && (r.deduction > 0.0 <==> extracted.value.otRate > extracted.value.regRate)
  {
    match extracted
    case None => Offline
    case Some(v) =>
      if AllPositive(v) then
        DeductionBelowOvertimePay(v.regRate, v.otRate, v.otHours);
        PositiveDeductionIff(v.regRate, v.otRate, v.otHours);
        Calculation(CalculateStub(v))
      else ExtractionFailed
  }

  /** The calculation branch, for a stripped, non-empty query. */
  function CalculationReply(query: string, complete: AiFallback.Completion, decode: AiFallback.Decoder): (r: Reply)
    ensures r.Calculation? || r.ExtractionFailed? || r.Offline?
    ensures r.Offline? <==> StubRegex.RegexExtract(query).None?
    ensures r.Calculation? ==> r.deduction >= 0.0
  {
    ReplyFor(Extracted(query, complete, decode))
  }

  /**
   * A POST to the bot with `question` and `mode` (the mode defaults to
   * "research" when absent, so any other value here means research).
   */
  function HandleTaxBot(question: string, mode: string, complete: AiFallback.Completion, decode: AiFallback.Decoder,
                        search: Search): (r: Reply)
    ensures r.Online? <==> Strip(question) == []
    ensures mode == CalculationMode ==> !r.ResearchAnswer?
    ensures mode != CalculationMode ==> !r.Calculation? && !r.ExtractionFailed?
    ensures Strip(question) != [] && mode == CalculationMode ==> r == CalculationReply(Strip(question), complete, decode)
    ensures Strip(question) != [] && mode != CalculationMode ==>
      r == match search(Strip(question))
           case None => Offline
           case Some(outcome) => ResearchAnswer(Research.SelectAnswer(outcome))
  {
    var query := Strip(question);
    if query == [] then Online
    else if mode == CalculationMode then CalculationReply(query, complete, decode)
    else match search(query)
      case None => Offline
      case Some(outcome) => ResearchAnswer(Research.SelectAnswer(outcome))
  }

  /** The research branch with its loops, as the handler runs it. */
  method HandleResearch(question: string, search: Search) returns (r: Reply)
    requires Strip(question) != []
    ensures forall complete, decode :: r == HandleTaxBot(question, "research", complete, decode, search)
  {
    var query := Strip(question);
    var response := search(query);
    if response.None? {
      return Offline;
    }
    var answer := Research.AnswerResearch(response.value);
    r := ResearchAnswer(answer);
  }

  // ---------------------------------------------------------------------
  // What the calculation branch promises
  // ---------------------------------------------------------------------

  /** When the regex figures are all positive, the model is never consulted: the reply does not depend on it. */
  lemma RegexSuccessSkipsAi(query: string, c1: AiFallback.Completion, d1: AiFallback.Decoder,
                            c2: AiFallback.Completion, d2: AiFallback.Decoder)
    requires StubRegex.RegexExtract(query).Some? && AllPositive(StubRegex.RegexExtract(query).value)
    ensures CalculationReply(query, c1, d1) == CalculationReply(query, c2, d2)
    ensures CalculationReply(query, c1, d1) == Calculation(CalculateStub(StubRegex.RegexExtract(query).value))
  {
  }

  /**
   * When any regex figure is not positive, the AI figures replace all three:
   * the reply is decided by the AI result alone, whatever the regex found.
   */
  lemma AiReplacesRegexWholesale(query: string, complete: AiFallback.Completion, decode: AiFallback.Decoder)
    requires StubRegex.RegexExtract(query).Some? && !AllPositive(StubRegex.RegexExtract(query).value)
    ensures var ai := AiFallback.AiExtract(query, complete, decode);
      CalculationReply(query, complete, decode) == if AllPositive(ai) then Calculation(CalculateStub(ai)) else ExtractionFailed
  {
  }

  /** The calculator is reached only with three strictly positive figures, and what it reports is their deduction. */
  lemma CalculatorOnlyOnPositiveFigures(query: string, complete: AiFallback.Completion, decode: AiFallback.Decoder)
    requires CalculationReply(query, complete, decode).Calculation?
    ensures var v := Extracted(query, complete, decode);
      && v.Some? && AllPositive(v.value)
      && CalculationReply(query, complete, decode).deduction == CalculateStub(v.value)
  {
  }

  /** A malformed regex capture (say "20.00.") is not caught: the request ends in the router's offline reply, before the AI is asked. */
  lemma MalformedCaptureIsOffline(question: string, complete: AiFallback.Completion, decode: AiFallback.Decoder,
                                  search: Search)
    requires Strip(question) != [] && StubRegex.RegexExtract(Strip(question)).None?
    ensures HandleTaxBot(question, CalculationMode, complete, decode, search) == Offline
  {
  }

  /** Research mode never reports a deduction or an extraction failure, and research replies come from SelectAnswer. */
  lemma ResearchNeverCalculates(question: string, mode: string, complete: AiFallback.Completion,
                                decode: AiFallback.Decoder, search: Search)
    requires mode != CalculationMode
    ensures var r := HandleTaxBot(question, mode, complete, decode, search);
      r.ResearchAnswer? ==> search(Strip(question)).Some? && r.answer == Research.SelectAnswer(search(Strip(question)).value)
  {
  }
}
