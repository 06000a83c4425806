/**
 * Research mode: the answer the bot gives from one search of the IRS
 * knowledge base.  A summary that is present and is not a refusal is the
 * answer, with citations for the first three documents; otherwise the
 * answer is built from the first snippet of each of the first three
 * documents.  The search itself is a parameter: its outcome is a value.
 */
module Research {
  import opened Wrappers
  import opened Text

  /**
   * One search result.  `title` is None when the document has no title
   * attribute; `snippets` is None when the document carries no derived data
   * or no "snippets" entry, and otherwise lists the snippet entries, each
   * None when the entry has no "snippet" key.
   */
  datatype Document = Document(title: Option<string>, uri: string, snippets: Option<seq<Option<string>>>)

  /** The part of a search response the bot reads: the summary text, if any, and the ranked results. */
  datatype SearchOutcome = SearchOutcome(summary: Option<string>, results: seq<Document>)

  datatype Citation = Citation(title: string, url: string)

  /** The JSON body of a research reply. */
  datatype Answer = Answer(text: string, citations: seq<Citation>)

  const RefusalKeywords := ["not qualified", "tax advice", "cannot provide", "consult a professional"]

  const DefaultTitle := "IRS Source"
  const NoGuidance := "No guidance found."

  /** How many results feed the citations and the snippets. */
  const MaxDocs := 3

  // ---------------------------------------------------------------------
  // is_refusal, safe_summary
  // ---------------------------------------------------------------------

  /** `is_refusal(text)`: the lower-cased text contains one of the refusal phrases. */
  predicate IsRefusal(text: string) {
    ContainsAny(Lower(text), RefusalKeywords)
  }

  lemma IsRefusalIff(text: string)
    ensures IsRefusal(text) <==> exists k :: 0 <= k < |RefusalKeywords| && Contains(Lower(text), RefusalKeywords[k])
  {
    ContainsAnyExists(Lower(text), RefusalKeywords);
  }

  /** `safe_summary(response)`: the stripped summary text, or "" when there is none. */
  function SafeSummary(summary: Option<string>): (r: string)
    ensures summary.None? ==> r == []
    ensures summary.Some? ==> r == Strip(summary.value)
    ensures r == [] || (!IsSpace(r[0]) && !IsSpace(r[|r| - 1]))
  {
    match summary
    case None => ""
    case Some(t) => StripIsSlice(t); Strip(t)
  }

  // ---------------------------------------------------------------------
  // Citations (main.py:160-172)
  // ---------------------------------------------------------------------

  /** `normalize_utf8(getattr(doc, "title", "IRS Source"))`; a string with no lone surrogates comes back as it was. */
  function CitationTitle(d: Document): string {
    match d.title
    case None => DefaultTitle
    case Some(t) => t
  }

  function CitationOf(d: Document): Citation {
    Citation(CitationTitle(d), d.uri)
  }

  /** One citation per document, in order. */
  function Citations(docs: seq<Document>): (cs: seq<Citation>)
    ensures |cs| == |docs|
    ensures forall k :: 0 <= k < |docs| ==> cs[k] == CitationOf(docs[k])
  {
    if docs == [] then [] else Citations(docs[..|docs| - 1]) + [CitationOf(docs[|docs| - 1])]
  }

  function Min(a: nat, b: nat): nat {
    if a <= b then a else b
  }

  /** `response.results[:n]` */
  function FirstResults(docs: seq<Document>, n: nat): (r: seq<Document>)
    ensures |r| == Min(n, |docs|) && r == docs[..|r|]
  {
    docs[..Min(n, |docs|)]
  }

  /** The citations loop of the research branch, over `response.results[:3]`. */
  method BuildCitations(docs: seq<Document>) returns (citations: seq<Citation>)
    ensures citations == Citations(FirstResults(docs, MaxDocs))
  {
    var firsts := FirstResults(docs, MaxDocs);
    citations := [];
    var i := 0;
    while i < |firsts|
      invariant 0 <= i <= |firsts|
      invariant citations == Citations(firsts[..i])
    {
      assert firsts[..i + 1][..i] == firsts[..i];
      citations := citations + [CitationOf(firsts[i])];
      i := i + 1;
    }
    assert firsts[..i] == firsts;
  }

  // ---------------------------------------------------------------------
  // safe_extract_snippets (main.py:61-72)
  // ---------------------------------------------------------------------

  /**
   * The stripped text of a document's first snippet, or "" when it has none:
   * no snippets entry, an empty list (the IndexError is caught), or a first
   * entry without a "snippet" key.
   */
  function FirstSnippet(d: Document): (r: string)
    ensures r == [] || (!IsSpace(r[0]) && !IsSpace(r[|r| - 1]))
    ensures HasFirstEntry(d) ==> r == Strip(d.snippets.value[0].value)
    ensures !HasFirstEntry(d) ==> r == []
  {
    match d.snippets
    case None => ""
    case Some(entries) =>
      if entries == [] then ""
      else match entries[0]
        case None => ""
        case Some(t) => StripIsSlice(t); Strip(t)
  }

  /** `derived["snippets"][0]` exists and has a "snippet" key. */
  predicate HasFirstEntry(d: Document) {
    d.snippets.Some? && d.snippets.value != [] && d.snippets.value[0].Some?
  }

  predicate IsSection(s: string) {
    s != [] && !IsSpace(s[0]) && !IsSpace(s[|s| - 1])
  }

  /** The non-empty first snippets of the documents, in order. */
  function Sections(docs: seq<Document>): (ss: seq<string>)
    ensures |ss| <= |docs|
    ensures forall k :: 0 <= k < |ss| ==> IsSection(ss[k])
  {
    if docs == [] then []
    else
      var front := Sections(docs[..|docs| - 1]);
      var last := FirstSnippet(docs[|docs| - 1]);
      if last == [] then front else front + [last]
  }

  predicate NoSnippets(docs: seq<Document>) {
    forall k :: 0 <= k < |docs| ==> FirstSnippet(docs[k]) == []
  }

  /** No section is left exactly when no document has a non-empty first snippet. */
  lemma {:induction false} SectionsEmptyIff(docs: seq<Document>)
    ensures Sections(docs) == [] <==> NoSnippets(docs)
  {
    if docs != [] {
      var front := docs[..|docs| - 1];
      SectionsEmptyIff(front);
      NoSnippetsSplit(docs);
    }
  }

  lemma NoSnippetsSplit(docs: seq<Document>)
    requires docs != []
    ensures NoSnippets(docs) <==> NoSnippets(docs[..|docs| - 1]) && FirstSnippet(docs[|docs| - 1]) == []
  {
    var front := docs[..|docs| - 1];
    assert forall k :: 0 <= k < |front| ==> front[k] == docs[k];
  }

  /** `safe_extract_snippets(response, max_docs)` */
  method SafeExtractSnippets(docs: seq<Document>, maxDocs: nat) returns (sections: seq<string>)
    ensures sections == Sections(FirstResults(docs, maxDocs))
  {
    var firsts := FirstResults(docs, maxDocs);
    sections := [];
    var i := 0;
    while i < |firsts|
      invariant 0 <= i <= |firsts|
      invariant sections == Sections(firsts[..i])
    {
      SectionsStep(firsts, i);
      var snippet := FirstSnippet(firsts[i]);
      if snippet != [] {
        sections := sections + [snippet];
      }
      i := i + 1;
    }
    assert firsts[..i] == firsts;
  }

  lemma SectionsStep(docs: seq<Document>, i: nat)
    requires i < |docs|
    ensures Sections(docs[..i + 1]) ==
      if FirstSnippet(docs[i]) == [] then Sections(docs[..i]) else Sections(docs[..i]) + [FirstSnippet(docs[i])]
  {
    assert docs[..i + 1] == docs[..i] + [docs[i]];
    SectionsAppend(docs[..i], docs[i]);
  }

  /** Adding a document adds its first snippet, when it has one, at the end. */
  lemma SectionsAppend(docs: seq<Document>, d: Document)
    ensures Sections(docs + [d]) == if FirstSnippet(d) == [] then Sections(docs) else Sections(docs) + [FirstSnippet(d)]
  {
    assert (docs + [d])[..|docs|] == docs;
  }

  // ---------------------------------------------------------------------
  // Answer selection (main.py:157-176)
  // ---------------------------------------------------------------------

  /** The summary is used when it has text and is not a refusal. */
  predicate UsableSummary(outcome: SearchOutcome) {
    var summary := SafeSummary(outcome.summary);
    summary != [] && !IsRefusal(summary)
  }

  /** The research branch of `handle_tax_bot`, given the search response. */
  function SelectAnswer(outcome: SearchOutcome): (a: Answer)
    ensures |a.citations| <= MaxDocs
    ensures a.text != []
    ensures UsableSummary(outcome) ==> a.text == SafeSummary(outcome.summary)
    ensures UsableSummary(outcome) ==> a.citations == Citations(FirstResults(outcome.results, MaxDocs))
    ensures UsableSummary(outcome) ==> |a.citations| == Min(MaxDocs, |outcome.results|)
    ensures !UsableSummary(outcome) ==> a.citations == []
  {
    if UsableSummary(outcome) then
      Answer(SafeSummary(outcome.summary), Citations(FirstResults(outcome.results, MaxDocs)))
    else
      Answer(FallbackText(Sections(FirstResults(outcome.results, MaxDocs))), [])
  }

  /** The answer text without a usable summary: the snippets one per line, or the notice when there are none. */
  function FallbackText(sections: seq<string>): (t: string)
    requires forall k :: 0 <= k < |sections| ==> IsSection(sections[k])
    ensures t != []
    ensures sections == [] ==> t == NoGuidance
  {
    if sections == [] then NoGuidance
    else
      assert IsSection(sections[0]);
      JoinNonEmpty("\n", sections);
      Join("\n", sections)
  }

  /** The text of a refused or missing summary is replaced: by the joined snippets, or by the no-guidance notice. */
  lemma UnusableSummaryFallsBack(outcome: SearchOutcome)
    requires !UsableSummary(outcome)
    ensures var sections := Sections(FirstResults(outcome.results, MaxDocs));
      && SelectAnswer(outcome).citations == []
      && SelectAnswer(outcome).text == (if sections == [] then NoGuidance else Join("\n", sections))
  {
  }

  /** Citations come only with a summary that has text and passed the refusal screen. */
  lemma CitedAnswerIsScreenedSummary(outcome: SearchOutcome)
    requires SelectAnswer(outcome).citations != []
    ensures SelectAnswer(outcome).text == SafeSummary(outcome.summary)
    ensures !IsRefusal(SelectAnswer(outcome).text)
  {
  }

  /** The research branch with its two loops, as the handler runs it. */
  method AnswerResearch(outcome: SearchOutcome) returns (answer: Answer)
    ensures answer == SelectAnswer(outcome)
  {
    var summary := SafeSummary(outcome.summary);
    if summary != [] && !IsRefusal(summary) {
      var citations := BuildCitations(outcome.results);
      return Answer(summary, citations);
    }
    var sections := SafeExtractSnippets(outcome.results, MaxDocs);
    answer := Answer(if sections == [] then NoGuidance else Join("\n", sections), []);
  }

  /** A non-empty first snippet of one of the documents is one of their sections. */
  lemma {:induction false} SnippetIsSection(docs: seq<Document>, k: nat)
    requires k < |docs| && FirstSnippet(docs[k]) != []
    ensures FirstSnippet(docs[k]) in Sections(docs)
  {
    var front := docs[..|docs| - 1];
    var last := FirstSnippet(docs[|docs| - 1]);
    var x := FirstSnippet(docs[k]);
    assert Sections(docs) == if last == [] then Sections(front) else Sections(front) + [last];
    if k < |docs| - 1 {
      assert front[k] == docs[k];
      SnippetIsSection(front, k);
      assert x in Sections(front);
    } else {
      assert x == last;
    }
  }

  /**
   * Without a usable summary, the stripped first snippet `t` of one of the
   * first three results is one of the lines of the answer.
   */
  lemma SnippetReachesAnswer(outcome: SearchOutcome, k: nat, t: string)
    requires !UsableSummary(outcome) && k < MaxDocs && k < |outcome.results|
    requires outcome.results[k].snippets.Some? && outcome.results[k].snippets.value != []
    requires outcome.results[k].snippets.value[0] == Some(t) && Strip(t) != []
    ensures var sections := Sections(FirstResults(outcome.results, MaxDocs));
      && Strip(t) in sections
      && SelectAnswer(outcome).text == Join("\n", sections)
  {
    var firsts := FirstResults(outcome.results, MaxDocs);
    assert firsts[k] == outcome.results[k];
    SnippetIsSection(firsts, k);
  }

  /**
   * With a usable summary, citation `k` is the `k`-th result's: its URI, and
   * its title, or "IRS Source" when it has none.
   */
  lemma CitationOfResult(outcome: SearchOutcome, k: nat)
    requires UsableSummary(outcome) && k < Min(MaxDocs, |outcome.results|)
    ensures k < |SelectAnswer(outcome).citations|
    ensures SelectAnswer(outcome).citations[k].url == outcome.results[k].uri
    ensures SelectAnswer(outcome).citations[k].title ==
      if outcome.results[k].title.Some? then outcome.results[k].title.value else DefaultTitle
  {
    var firsts := FirstResults(outcome.results, MaxDocs);
    assert firsts[k] == outcome.results[k];
  }

  /** With nothing usable in the summary or the snippets, the reply is the no-guidance notice without citations. */
  lemma NothingFoundGivesNoGuidance(outcome: SearchOutcome)
    requires !UsableSummary(outcome) && NoSnippets(FirstResults(outcome.results, MaxDocs))
    ensures SelectAnswer(outcome) == Answer(NoGuidance, [])
  {
    SectionsEmptyIff(FirstResults(outcome.results, MaxDocs));
  }

  // ---------------------------------------------------------------------
  // The refusal screen on two summaries
  // ---------------------------------------------------------------------

  // The literals are written as short pieces so that the case-folding and
  // search lemmas below work on one piece at a time, which keeps each proof
  // small for the verifier.
  const ReferralSummary := "Consult" + " a professional" + " for specifics."
  const PlainSummary := "The standard " + "deduction is " + "higher in 2026."

  lemma LowerConsult()
    ensures Lower("Consult") == "consult"
  {
    assert Lower("Consult")[0] == 'c';
  }

  lemma ReferralPhrase()
    ensures "consult" + " a professional" == RefusalKeywords[3]
  {
  }

  lemma LowerReferral()
    ensures Lower(ReferralSummary) == "consult" + " a professional" + Lower(" for specifics.")
  {
    LowerConsult();
    LowerWithoutUpper(" a professional");
    LowerAppend("Consult", " a professional");
    LowerAppend("Consult" + " a professional", " for specifics.");
  }

  /** A summary that sends the user to a professional is screened out. */
  lemma ReferralIsRefusal()
    ensures IsRefusal(ReferralSummary)
  {
    LowerReferral();
    ReferralPhrase();
    ContainsMiddle([], RefusalKeywords[3], Lower(" for specifics."));
    assert [] + RefusalKeywords[3] == RefusalKeywords[3];
    IsRefusalIff(ReferralSummary);
  }

  lemma PlainSummaryLacksQ() ensures 'q' !in Lower(PlainSummary) { LowerMissing(PlainSummary, 'q', 'Q'); }
  lemma PlainSummaryLacksV() ensures 'v' !in Lower(PlainSummary) { LowerMissing(PlainSummary, 'v', 'V'); }
  lemma PlainSummaryLacksF() ensures 'f' !in Lower(PlainSummary) { LowerMissing(PlainSummary, 'f', 'F'); }

  lemma KeywordLetters()
    ensures 'q' in RefusalKeywords[0] && 'v' in RefusalKeywords[1] && 'v' in RefusalKeywords[2] && 'f' in RefusalKeywords[3]
  {
    assert RefusalKeywords[0][4] == 'q';
    assert RefusalKeywords[1][6] == 'v';
    assert RefusalKeywords[2][10] == 'v';
    assert RefusalKeywords[3][13] == 'f';
  }

  /** A factual summary is not: each refusal phrase has a letter the summary lacks. */
  lemma PlainSummaryIsNotRefusal()
    ensures !IsRefusal(PlainSummary)
  {
    var low := Lower(PlainSummary);
    PlainSummaryLacksQ();
    PlainSummaryLacksV();
    PlainSummaryLacksF();
    KeywordLetters();
    MissingCharNotContained(low, RefusalKeywords[0], 'q');
    MissingCharNotContained(low, RefusalKeywords[1], 'v');
    MissingCharNotContained(low, RefusalKeywords[2], 'v');
    MissingCharNotContained(low, RefusalKeywords[3], 'f');
    IsRefusalIff(PlainSummary);
  }
}
