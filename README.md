# TaxVision core, modelled in Dafny

TaxVision is a tax assistant. It has a browser side panel and one HTTP function behind it.

- **Calculation mode.** The bot reads three figures from pay-stub text: regular rate, overtime rate and overtime hours. It reads them first with three case-insensitive regular expressions. When any figure is not positive, it asks a language model for JSON instead. It then computes the overtime ("OBBBA") deduction, `(ot_rate - reg_rate) * ot_hours`, floored at zero.
- **Research mode.** The bot searches an IRS knowledge base once. It answers with the search summary and up to three citations when the summary has text and passes a refusal screen. Otherwise it answers with the first snippets of the top three results, or with "No guidance found.".
- **Daily tax fact.** It is served from a one-slot cache that lives for 300 seconds.
- **Side panel.** Before a question is sent, the panel masks SSN-, EIN- and routing-number-shaped digit groups (`scrubPII`). It guesses the mode from the text (`detectMode`).

The project models these pieces. Each piece keeps the form of its source:

| file | module | models |
|---|---|---|
| `wrappers.dfy` | `Wrappers` | Option, with `:-` |
| `text.dfy` | `Text` | Python `str.strip` and `str.lower`, `in` on strings, `str.replace`, `"\n".join`, slicing |
| `deduction.dfy` | `Deduction` | `calculate_obbba` |
| `stub_regex.dfy` | `StubRegex` | `extract_stub_values_regex`: the three patterns as a matcher, `re.search` as "leftmost start that matches", and `float()` on the capture |
| `ai_fallback.dfy` | `AiFallback` | `extract_stub_values_ai`: the prompt, code-fence cleaning and key reading; the model and `json.loads` are parameters |
| `research.dfy` | `Research` | `is_refusal`, `safe_summary`, `safe_extract_snippets`, and the research branch of `handle_tax_bot` with its two loops |
| `fact_cache.dfy` | `TaxFact` | `handle_tax_fact`; the two module globals are the fields of a `FactCache` class |
| `tax_bot.dfy` | `TaxBot` | `handle_tax_bot`, and the router turning an escaping exception into "System offline." |
| `sidebar.dfy` | `Sidebar` | `scrubPII` and `detectMode` |
| `stub_example.dfy` | `StubExample` | the JSON-flow question of the test suite, followed through to the deduction 100.0 |

Regex extraction is not total: a capture such as `20.00.` matches `[\d.]+` and makes `float()` raise. `extract_stub_values_regex` does not catch that error, so the request ends in the router's "System offline." reply before the language model is consulted. `StubRegex.RegexExtract` returns None there, and `TaxBot.MalformedCaptureIsOffline` states the consequence.

## Model

| member | source | states |
|---|---|---|
| Deduction.Calculate | main.py:77-81 | never negative; 0 when any input is not positive or the overtime rate does not exceed the regular rate; otherwise exactly `(ot_rate - reg_rate) * ot_hours` |
| Deduction.AllPositive | main.py:137-140 | no contract; the check that all three figures are positive, see PositiveDeductionIff and TaxBot.ReplyFor |
| Deduction.CalculateStub | main.py:143 | the deduction of a stub is never negative, and 0 when a figure is not positive |
| Deduction.PositiveDeductionIff | main.py:77-81 | the deduction is positive exactly when the regular rate and hours are positive and the overtime rate exceeds the regular rate |
| Deduction.DeductionBelowOvertimePay | main.py:77-81 | with all inputs positive, the deduction is below the whole overtime pay `ot_rate * ot_hours` |
| Deduction.DeductionMonotoneInHours | main.py:77-81 | more overtime hours never lower the deduction |
| StubRegex.Fold | main.py:84-86 | no contract; see Folded |
| StubRegex.Folded | main.py:84-86 | `re.IGNORECASE` comparison folds each character of the text on its own, keeping the length |
| StubRegex.ScanWhile | main.py:84-86 | a greedy `cls*` ends inside the text, at or after where it starts |
| StubRegex.ScanWhileStops | main.py:84-86 | the greedy run passes over members of the class only, and stops at a non-member or at the end |
| StubRegex.ScanRun | main.py:84-86 | over a run of the class that ends at `j`, the greedy scan stops exactly at `j` |
| StubRegex.MatchTail | main.py:84-86 | whatever `\s* noun [separators]* ([\d.]+)` captures is a non-empty run of digits and dots; see MatchTailIff for what a match means |
| StubRegex.MatchAt | main.py:84-86 | a match anchored at an index captures only digits and dots, and the lead is at that index; see MatchAtSound |
| StubRegex.AfterLead | main.py:84 | `(?:ular)?` is tried with the group first, then without: a capture is the tail after the optional text, found in any case, or the tail right after the lead; see AfterLeadFallback |
| StubRegex.FirstFound | main.py:84-86 | finds the first attempt with a capture: none exactly when all attempts fail, and every earlier attempt failed |
| StubRegex.Search | main.py:84-86 | `re.search` finds no match exactly when no start index matches; otherwise its match starts at the leftmost matching index and carries that capture |
| StubRegex.ParseDecimal | main.py:89-91 | `float()` on a capture, where it succeeds, gives a non-negative value; its values are given by ParseDecimalWhole and ParseDecimalFraction |
| StubRegex.DecimalValue | main.py:89-91 | the value of the numeral `ds.fs`, `ds + fs / 10^len(fs)`, is never negative |
| StubRegex.ParseDecimalWhole | main.py:89-91 | `float()` of a non-empty run of digits is the integer they spell |
| StubRegex.ParseDecimalFraction | main.py:89-91 | `float()` of `ds.fs`, with some digit on either side, is `ds + fs / 10^len(fs)` |
| StubRegex.ParseDecimalChars | main.py:89-91 | `float()` succeeds only on a non-empty run of digits and dots |
| StubRegex.ParseDecimalDefined | main.py:89-91 | on a capture, `float()` succeeds exactly when there is at most one dot and at least one digit |
| StubRegex.NoDotIffAllDigits | main.py:84-86 | a run of digits and dots is all digits exactly when it holds no dot |
| StubRegex.DotCount | main.py:89-91 | the digit run of a capture ends at its first dot, or at its end when it has none |
| StubRegex.ParseDecimalAllDigits | main.py:89-91 | a capture of digits alone is read exactly when it is non-empty |
| StubRegex.ParseDecimalDotCase | main.py:89-91 | a capture with a dot is read exactly when the part after the first dot is all digits and there is some digit |
| StubRegex.FieldValue | main.py:89-91 | one figure: if read, it is non-negative (see also FieldWithoutMatchIsZero and FieldIsLeftmostCapture) |
| StubRegex.RegexExtract | main.py:83-92 | all three figures are non-negative; the extraction succeeds exactly when all three `float()` calls do, and then each slot holds its own pattern's figure |
| StubRegex.FieldWithoutMatchIsZero | main.py:89-91 | a pattern that matches nowhere reports 0.0 |
| StubRegex.FieldIsLeftmostCapture | main.py:84-91 | a figure is `float()` of the leftmost match's capture, whatever later matches hold |
| StubRegex.NoMatchWithoutLead | main.py:84-86 | no match starts inside a stretch where the first letter of the lead is absent in both cases |
| StubRegex.WrongNounAfterLead | main.py:85-86 | a lead followed by spaces and a word that cannot start the noun gives no match at that index |
| StubRegex.WrongNounAt | main.py:84-86 | after a run of spaces, a character that cannot start the noun ends the tail match in failure |
| StubRegex.TailReadsFigure | main.py:84-86 | after the lead: spaces, the noun in any case, separators, then a run of digits and dots give that run as the capture |
| StubRegex.TailReadsLaidOutFigure | main.py:84-86 | the same for text laid out as prefix + spaces + noun + separators + number + rest |
| StubRegex.LeadThenTail | main.py:85-86 | for a pattern without an optional group, a match after the lead is the tail match |
| StubRegex.MatchAtAfterLead | main.py:84-86 | once the lead matches, the match is what follows the lead |
| StubRegex.NoOptionalTail | main.py:85-86 | without an optional group, what follows the lead is the tail match |
| StubRegex.OptionalTaken | main.py:84 | when `ular` is present and the longer tail matches, the group is taken |
| StubRegex.LeadOptionalThenTail | main.py:84 | `reg` + `ular` + a matching tail: the match is the tail after `ular` |
| StubRegex.OptionalLeadThenTail | main.py:84 | the same, stated on the spelt-out lead and optional text |
| StubRegex.LeadAndOptionalAt | main.py:84 | lead and optional text spelt in any case match their literals |
| StubRegex.LabelledFigureMatches | main.py:85-86 | `OT Rate: $30.00`-shaped text is matched at the lead, capturing the number |
| StubRegex.TailLayout | main.py:84-86 | no contract; the positions of spaces, noun, separators and the maximal number run that the tail pattern demands |
| StubRegex.MatchTailSound | main.py:84-86 | a tail match is such a layout, and its capture is the number run |
| StubRegex.MatchTailIff | main.py:84-86 | for a noun starting with a non-space, the tail matches with capture `g` exactly when some layout captures `g` |
| StubRegex.MatchAtSound | main.py:84-86 | a match at `i` capturing `g` means the lead at `i`, then a laid-out tail capturing `g`, after the optional text or right after the lead |
| StubRegex.AfterLeadSound | main.py:84 | a capture after the lead is a laid-out tail, after the optional text (in any case) or right after the lead |
| StubRegex.AfterLeadFallback | main.py:84 | when the optional text is absent, or the tail after it fails, the engine backtracks to the tail right after the lead |
| StubRegex.SkippedOptionalMatch | main.py:84 | with the lead at `i` and no optional text after it, the match at `i` is the tail after the lead |
| StubRegex.OptionalNotAt | main.py:84 | a space, or the noun's first letter, cannot start the optional text |
| StubRegex.LeadWithoutOptional | main.py:84 | in `lead spaces noun ...` text, the lead matches and the optional text does not follow it |
| StubRegex.LabelledFigureMatchesWithoutOptional | main.py:84 | a labelled figure without the optional text is matched at the lead, capturing the number |
| StubRegex.RegRateWithoutUlar | main.py:84 | `Reg Rate: $20.00`-shaped text is read by the regular-rate pattern |
| StubRegex.HoursRejectDollar | main.py:86 | `[:\s]*` takes no dollar sign: `OT Hours: $10`-shaped text has no match at the lead |
| StubRegex.LabelledFigureMatchesWithOptional | main.py:84 | `Regular Rate: $20.00`-shaped text is matched at the lead, capturing the number |
| AiFallback.Prompt | main.py:96 | the prompt is the fixed instruction followed by the text verbatim |
| AiFallback.ToFloat | main.py:102-104 | `float()` of a JSON number is the number, of a boolean 1.0 or 0.0, of a string what DecimalText reads, and raises on null, arrays and objects |
| AiFallback.DecimalText | main.py:102-104 | `float()` of a blank string raises; success exactly on a signed numeral after the strip, by DecimalTextIff |
| AiFallback.SignedDecimal | main.py:102-104 | a numeral with an optional sign: the empty text is not a number; SignedDecimalIff gives the rest |
| AiFallback.SignedDecimalIff | main.py:102-104 | a stripped text is read exactly when it is "", "-" or "+" followed by a numeral `float()` accepts, and then as that numeral's value, negated after a minus sign |
| AiFallback.DecimalTextIff | main.py:102-104 | `float()` of a string succeeds exactly when the stripped string is an optional sign and a numeral, with the value signed accordingly |
| AiFallback.DecimalTextChars | main.py:102-104 | a string `float()` accepts is, after the strip, non-empty and made of digits and dots after an optional sign |
| AiFallback.FloatOfTwenty | main.py:102-104 | `float("20")` is 20.0 |
| AiFallback.FloatOfDollarRaises | main.py:102-104 | `float("$20.00")` raises |
| AiFallback.FloatOfWordRaises | main.py:102-104 | `float("abc")` raises |
| AiFallback.FloatOfTwoDotsRaises | main.py:102-104 | `float("1.2.3")` raises |
| AiFallback.FloatOfBareSignRaises | main.py:102-104 | `float("-")` raises |
| AiFallback.DollarStringRateGivesNoValues | main.py:102-108 | a reply whose `reg_rate` is the string "$20.00" gives the all-zero stub, not a partial one |
| AiFallback.DecimalTextValue | main.py:102-104 | `float()` of whitespace + optional sign + numeral + whitespace is the numeral's value, negated after a minus sign |
| AiFallback.FieldFloat | main.py:102-104 | `data.get(key, 0.0)`: a missing key reads as 0.0, a present key as `float()` of its value |
| AiFallback.ReadFields | main.py:100-105 | the three keys are read exactly when the document is an object and all three `float()` calls succeed, and then each slot holds `float(data.get(key, 0.0))` of its own key |
| AiFallback.CleanReply | main.py:98-99 | the cleaned reply neither starts nor ends with whitespace |
| AiFallback.TryExtract | main.py:95-105 | the body of the `try` raises exactly when the model call, the JSON decode or one of the three reads fails |
| AiFallback.AiExtract | main.py:94-108 | when the model call or the decode fails, the result is the all-zero stub; when the reply decodes, it is the values ReadFields reads from it, or the all-zero stub when those reads fail |
| AiFallback.UnreadableReplyGivesNoValues | main.py:100-108 | a reply that decodes but cannot be read gives the all-zero stub |
| AiFallback.ReadableReplyIsTaken | main.py:100-105 | a reply read in full gives exactly its three values |
| AiFallback.PlainReplyIsStripped | main.py:98-99 | a reply with no backtick is only stripped |
| AiFallback.FencedReplyIsUnwrapped | main.py:98-99 | "```json" + body + "```" cleans to the stripped body |
| AiFallback.SpacedFencedReplyIsUnwrapped | main.py:98-99 | whitespace around the fences does not change the cleaned reply |
| AiFallback.StripSurrounded | main.py:98-99 | stripping text framed by whitespace gives the framed text |
| AiFallback.JsonFenceRemoved | main.py:99 | removing "```json" from a fenced reply leaves body + "```" |
| AiFallback.ClosingFenceRemoved | main.py:99 | removing "```" from body + "```" leaves the body |
| Research.IsRefusal | main.py:49-51 | no contract; see IsRefusalIff |
| Research.IsRefusalIff | main.py:49-51 | a text is a refusal exactly when its lower-cased form contains one of the four refusal phrases |
| Research.SafeSummary | main.py:56-59 | a missing summary is ""; a present one is its `strip()`, so it neither starts nor ends with whitespace |
| Research.CitationTitle | main.py:164-166 | no contract; see CitationOfResult |
| Research.CitationOf | main.py:164-170 | no contract; see CitationOfResult |
| Research.Citations | main.py:160-172 | one citation per document, in order, each with the document's title (or "IRS Source") and URI |
| Research.FirstResults | main.py:63 | `results[:n]`: the first min(n, length) results |
| Research.BuildCitations | main.py:160-172 | the loop builds the citations of the first three results |
| Research.FirstSnippet | main.py:65-69 | `derived["snippets"][0].get("snippet", "").strip()` when the first entry exists and has the key, and "" otherwise; never framed by whitespace |
| Research.SnippetIsSection | main.py:63-69 | a non-empty first snippet of a document is among the sections |
| Research.SnippetReachesAnswer | main.py:157-176 | without a usable summary, the stripped first snippet of one of the first three results is a line of the answer |
| Research.Sections | main.py:61-72 | at most one section per document, each non-empty and stripped |
| Research.SectionsEmptyIff | main.py:61-72 | no section is left exactly when no document has a non-empty first snippet |
| Research.SectionsAppend | main.py:66-69 | one more document adds its first snippet at the end, or nothing when it is empty |
| Research.SectionsStep | main.py:63-69 | one loop step: the sections of i+1 documents, from those of i |
| Research.SafeExtractSnippets | main.py:61-72 | the loop collects the non-empty first snippets of the first `max_docs` results, in order |
| Research.UsableSummary | main.py:157-159 | no contract; the summary has text and is not a refusal, used by SelectAnswer's contract |
| Research.CitationOfResult | main.py:160-170 | with a usable summary, citation `k` carries result `k`'s URI and its title, or "IRS Source" when it has none |
| Research.SelectAnswer | main.py:157-176 | the answer text is never empty; a usable summary is the answer, with the citations of the first three results (min(3, #results) of them); otherwise there are no citations |
| Research.FallbackText | main.py:175-176 | the fallback text is never empty, and is "No guidance found." without snippets |
| Research.UnusableSummaryFallsBack | main.py:159-176 | a missing or refused summary gives the snippets joined by newlines (or the notice), without citations |
| Research.CitedAnswerIsScreenedSummary | main.py:159-173 | citations come only with the summary text, and that text is not a refusal |
| Research.AnswerResearch | main.py:157-176 | the branch with its two loops gives SelectAnswer's answer |
| Research.NothingFoundGivesNoGuidance | main.py:175-176 | no usable summary and no snippets give "No guidance found." without citations |
| Research.ReferralIsRefusal | main.py:49-51 | "Consult a professional for specifics." is screened out, in any case |
| Research.PlainSummaryIsNotRefusal | main.py:49-51 | a factual summary passes the screen |
| TaxFact.FactQuery | main.py:190 | the query is "2026 tax fact for " followed by the topic |
| TaxFact.FactOf | main.py:196-197 | the stored fact has 1 to 100 characters: the summary cut to 100, or "IRS Library Online." when the summary is empty |
| TaxFact.FactCache.constructor | main.py:27-29 | nothing is cached at start and the timestamp is 0 |
| TaxFact.FactCache.IsFresh | main.py:181 | no contract; a predicate on the cache fields, used by GetFact's contract and RequestTwice |
| TaxFact.FactCache.GetFact | main.py:178-200 | a fresh cache answers without a query and unchanged; otherwise one attempted query is recorded; a failure returns "IRS Source Library Online." and keeps the cache; a success caches the fact with the current time |
| TaxFact.RequestTwice | main.py:178-198 | a second request within 300 seconds of a refresh returns the same fact and sends no query |
| TaxBot.Extracted | main.py:135-138 | the figures are the regex ones when all are positive, else the AI ones; the regex step raising gives None |
| TaxBot.ReplyFor | main.py:140-144 | "Data extraction failed." exactly when a figure is not positive; otherwise a deduction that is non-negative, below the overtime pay, and positive exactly when the overtime rate beats the regular rate |
| TaxBot.CalculationReply | main.py:135-144 | a deduction, an extraction failure or "System offline."; offline exactly when the regex step raises; a deduction is never negative |
| TaxBot.HandleTaxBot | main.py:124-176 | "System online." exactly for a blank question; calculation mode gives CalculationReply of the stripped question, never a research answer; research mode gives "System offline." when the search fails and SelectAnswer's answer otherwise, never a deduction or an extraction failure |
| TaxBot.HandleResearch | main.py:146-176 | the research branch as run, whatever the model and decoder, is HandleTaxBot's reply in research mode |
| TaxBot.RegexSuccessSkipsAi | main.py:136-138 | when the regex figures are all positive, the reply does not depend on the language model and is their deduction |
| TaxBot.AiReplacesRegexWholesale | main.py:137-141 | otherwise the AI figures replace all three, and the reply depends on them alone |
| TaxBot.CalculatorOnlyOnPositiveFigures | main.py:140-144 | the calculator is reached only with all figures positive, and reports their deduction |
| TaxBot.MalformedCaptureIsOffline | main.py:116-122 | a capture `float()` rejects ends in "System offline.", before the AI is asked |
| TaxBot.ResearchNeverCalculates | main.py:146-176 | a research reply is SelectAnswer's answer for the search of the stripped question |
| StubExample.ShortRegMatch | main.py:84 | "Reg Rate: $20.00" is matched at 0 with capture "20.00" |
| StubExample.ShortRegField | main.py:84-89 | and its regular rate is 20.0 |
| StubExample.DollarHoursNoMatch | main.py:86 | "OT Hours: $10" has no hours match at its lead |
| StubExample.ExampleExtracts | test_image_upload.py:85-101 | the test's question gives the figures 20, 30 and 10 |
| StubExample.ExampleCalculationReply | test_image_upload.py:85-101 | the test's question in calculation mode gives the deduction 100.0, whatever the model and search do |
| Sidebar.Mask | sidebar.js:18-20 | the replacement has the token's length: 'X' for each digit and '-' for each dash |
| Sidebar.ReplaceFrom | sidebar.js:18-20 | a global replace from an index keeps the length of the rest of the text |
| Sidebar.ReplaceShape | sidebar.js:18-20 | one `replace(/\b...\b/g, mask)` pass keeps the text's length |
| Sidebar.MatchesAt | sidebar.js:18-20 | no contract; see NoMatchKept and DelimitedTokenMasked |
| Sidebar.ReplaceFromMasks | sidebar.js:18-20 | a pass changes only digits, each into 'X' |
| Sidebar.ReplaceShapeMasksDigitsOnly | sidebar.js:18-20 | the same for a whole pass |
| Sidebar.ScrubPII | sidebar.js:16-22 | scrubbing keeps the length (see ScrubMasksDigitsOnly for the rest) |
| Sidebar.ScrubMasksDigitsOnly | sidebar.js:16-22 | scrubbing keeps the length and changes nothing but digits, each into 'X' |
| Sidebar.ScrubWithoutDigits | sidebar.js:16-22 | a text without digits is returned unchanged |
| Sidebar.TokenIsMasked | sidebar.js:18-20 | a text that is exactly one token of the shape becomes its mask |
| Sidebar.NoMatchKept | sidebar.js:18-20 | where no match starts, the pass keeps the text |
| Sidebar.ShortTextKept | sidebar.js:18-20 | a text shorter than the shape is kept |
| Sidebar.DigitFreeStretchKept | sidebar.js:18-20 | a stretch without digits is copied through a pass |
| Sidebar.PassOverRest | sidebar.js:18-20 | after a non-word character, the pass goes on as it would on the rest alone |
| Sidebar.DelimitedTokenMasked | sidebar.js:18-20 | a token between word boundaries, after digit-free text, is masked, and the pass goes on over the rest |
| Sidebar.ScrubSsnInText | sidebar.js:16-22 | an SSN between digit-free text on word boundaries becomes "XXX-XX-XXXX" and nothing else changes |
| Sidebar.DigitsConfinedKept | sidebar.js:18-20 | when every digit lies in a segment shorter than the shape, a pass keeps the text |
| Sidebar.ScrubEinInText | sidebar.js:16-22 | an EIN between digit-free text on word boundaries becomes "XX-XXXXXXX" and nothing else changes |
| Sidebar.ScrubRoutingInText | sidebar.js:16-22 | a routing number between digit-free text on word boundaries becomes "XXXXXXXXX" and nothing else changes |
| Sidebar.LongDigitRunKept | sidebar.js:18-20 | a run of more than nine digits has no word boundary inside it and is kept whole |
| Sidebar.MaskSurvivesLaterPasses | sidebar.js:19-20 | the EIN and routing passes leave a digit-free mask alone |
| Sidebar.ScrubSsn | sidebar.js:18 | an SSN-shaped text becomes "XXX-XX-XXXX" |
| Sidebar.ScrubEin | sidebar.js:19 | an EIN-shaped text becomes "XX-XXXXXXX" |
| Sidebar.ScrubRouting | sidebar.js:20 | nine digits become "XXXXXXXXX" |
| Sidebar.HasDigitPairFrom | sidebar.js:26-28 | no contract; see HasDigitPairFromIff |
| Sidebar.HasDigitPairFromIff | sidebar.js:26-28 | the scan finds two adjacent digits exactly when some index holds two |
| Sidebar.DetectMode | sidebar.js:25-31 | the mode is "calculation" or "research" |
| Sidebar.DetectModeIff | sidebar.js:25-31 | "calculation" exactly when the text has two adjacent digits and its lower-cased form contains one of the nine keywords |
| Sidebar.DigitFreeIsResearch | sidebar.js:25-31 | a text without digits is a research question |
| Text.IsSpace | main.py:58 | no contract; see StripIsSlice and StubRegex.ScanWhileStops |
| Text.Lower | main.py:51 | lower-casing keeps the length and maps each character on its own |
| Text.Contains | main.py:51 | no contract; see ContainsOccurs |
| Text.ContainsAny | sidebar.js:29 | no contract; see ContainsAnyExists |
| Text.ContainsOccurs | main.py:51 | `sub in s` holds exactly when `sub` occurs at some index |
| Text.ContainsAnyExists | main.py:51 | `any(k in s for k in keys)` holds exactly when some key is contained |
| Text.Strip | main.py:58 | no contract; see StripIsSlice, StripIdempotent and StripUnchanged |
| Text.TrimStart | main.py:58 | the leading whitespace is dropped, and only that |
| Text.TrimEnd | main.py:58 | the trailing whitespace is dropped, and only that |
| Text.StripIsSlice | main.py:58 | `strip()` gives a slice of the text with only whitespace around it, neither starting nor ending with whitespace |
| Text.StripIdempotent | main.py:98-99 | stripping twice is stripping once |
| Text.StripUnchanged | main.py:129 | a text with no whitespace at either end is its own strip |
| Text.ReplaceAll | main.py:99 | no contract; see ReplaceAllSkips and ReplaceAllAbsent |
| Text.ReplaceAllSkips | main.py:99 | `replace` copies a prefix that has no first letter of the pattern |
| Text.ReplaceAllAbsent | main.py:99 | `replace` of an absent pattern changes nothing |
| Text.Join | main.py:176 | no contract; see JoinNonEmpty |
| Text.JoinNonEmpty | main.py:176 | joining parts whose first is non-empty gives a non-empty text |
| Text.Take | main.py:197 | `fact[:100]` is the prefix of length min(100, length) |

## Left out

- The network services are parameters: the language model (`Completion`), `json.loads` (`Decoder`), the search client (`Search`, `Backend`). Creating a client or calling one raises exactly where the parameter returns None. Configuration, `vertexai.init` and the serving-config string are not modelled.
- The clock and `random.choice` are parameters of `TaxFact.FactCache.GetFact` (`now`, `pick`).
- HTTP is not modelled: the OPTIONS reply, CORS headers, the 405 for non-POST requests, status codes, path routing and `jsonify`. Replies are the `TaxBot.Reply` values. `get_json(silent=True) or {}` is not modelled; the question and mode arrive as strings.
- A question or mode that is not a string in the JSON body is not modelled (`.strip()` would raise and give "System offline.").
- Amounts are exact reals, not IEEE doubles, so rounding, infinities and NaN are not modelled. This includes the overflow path below.
- AiFallback.ToFloat: a JSON integer beyond the double range makes `float()` raise OverflowError, so the source returns the all-zero stub. The model reads that integer as its exact value instead.
- AiFallback.DecimalText: `float()` on a JSON string covers only surrounding whitespace, a sign and a plain decimal numeral. Exponents, "inf"/"nan", underscores and non-ASCII decimal digits are treated as failures, so the model is weaker than the source for those strings. It is also stronger than the source in one place: the model strips with `str.strip()`'s whitespace set, which includes U+001C to U+001F, while `float()` strips only the ASCII whitespace `\t\n\v\f\r` and space (plus non-ASCII whitespace). So `DecimalText("\u001c20")` gives 20.0 where `float()` raises.
- StubRegex.Search: `\d` and `\s` follow Python's definitions for ASCII. `\s` is modelled as Python's whitespace set. Python 3 `\d` also matches non-ASCII decimal digits, and this is not modelled. Under `re.IGNORECASE`, case folding covers ASCII letters and the long s (U+017F) that Python equates with `s`. The Kelvin sign, which Python equates with `k`, is not needed because no pattern contains a `k`.
- Text.Lower: `str.lower()` and `toLowerCase()` are modelled for ASCII only. This is exact for the keyword tests. Beyond ASCII, only the Kelvin sign lower-cases to a `k`, and no keyword contains a `k`. The dotted capital I lower-cases to `i` followed by a combining dot, and no keyword ends in an `i`. Other characters that lower-case to ASCII letters are not modelled.
- Research.CitationTitle: `normalize_utf8` is the identity. A Dafny string holds no lone surrogates, and re-encoding drops nothing else. An empty title (which `normalize_utf8` turns into "") is the identity too.
- Sidebar: JavaScript strings are UTF-16. The model works on characters, which is the same for text without characters beyond the Basic Multilingual Plane.
- The attributes the Python code reads with `getattr` on search results are a `Research.Document` value. A document whose `snippets` entry is not a list, or whose first entry has no `get`, is not modelled beyond "no snippet". The `except Exception: continue` in both loops is folded into that.
- The citations loop's `except Exception: continue` cannot drop a citation in the model, because reading a title or URI never raises there.
- The logging calls (`logging.error` at main.py:107 and `logging.exception` at main.py:121) are not modelled: they write to the log and do not change any reply.
- The race between concurrent requests on the two cache globals is not modelled: `GetFact` runs atomically.
- The rest of sidebar.js is not modelled: the UI, `fetch` calls, rendering, the status display and the event handlers. background.js is not part of this model. The image-upload tests describe a handler branch that main.py does not contain, and are not modelled.
