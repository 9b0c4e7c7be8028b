/** The end-to-end review: extract clauses, judge them against the policy,
    ask for rewrites of the non-compliant ones, and have the orchestrator
    write the final report from the three intermediate results. The same
    stages can also be driven one tool at a time through the shared
    context; the lemmas here relate the two routes. */
module Pipeline {
  import opened Results
  import opened Models
  import opened Prompting
  import opened Suggestions
  import opened Tools

  /** What the final-report stage is shown: the three intermediate results. */
  datatype ReviewData = ReviewData(
    extractedClauses: seq<ClauseExtraction>,
    policyMatches: seq<PolicyMatch>,
    suggestions: seq<ClauseSuggestion>)

  /** The four language-model stages, each as a function of what it is
      asked. */
  datatype Agents = Agents(
    extractor: string -> Result<seq<ClauseExtraction>>,
    policyAgent: string -> Result<seq<PolicyMatch>>,
    suggestionAgent: string -> Result<seq<ClauseSuggestion>>,
    reviewer: ReviewData -> Result<FinalReview>)

  /** The dictionary the review returns. */
  datatype ReviewResults = ReviewResults(
    finalReport: FinalReview,
    extractedClauses: seq<ClauseExtraction>,
    policyMatches: seq<PolicyMatch>,
    clauseSuggestions: seq<ClauseSuggestion>)

  /** Step 3 of the review: ask for suggestions only when there is a
      non-compliant judgement with a matching clause, else none. */
  function SuggestStep(
    clauses: seq<ClauseExtraction>,
    matches: seq<PolicyMatch>,
    policyText: string,
    suggestionAgent: string -> Result<seq<ClauseSuggestion>>
  ): (r: Result<seq<ClauseSuggestion>>)
    ensures (forall m :: m in matches && !m.compliant ==> FirstClauseNamed(clauses, m.clauseName).None?)
      ==> r == Ok([])
    ensures SuggestionPrompt(clauses, matches, policyText).Some? ==>
      r == suggestionAgent(SuggestionPrompt(clauses, matches, policyText).value)
  {
    match SuggestionPrompt(clauses, matches, policyText)
    case None => Ok([])
    case Some(prompt) => suggestionAgent(prompt)
  }

  /** The whole review. Each stage is asked with the prompt built from the
      earlier stages' outputs; the first stage failure ends the review with
      that failure, and the review succeeds exactly when every stage does. */
  function ReviewContract(contractText: string, policyText: string, agents: Agents): (r: Result<ReviewResults>)
    ensures agents.extractor(ExtractionPrompt(contractText)).Err? ==>
      r == Err(agents.extractor(ExtractionPrompt(contractText)).error)
    ensures var e := agents.extractor(ExtractionPrompt(contractText));
      e.Ok? ==>
        var p := agents.policyAgent(PolicyPrompt(e.value, policyText));
        && (p.Err? ==> r == Err(p.error))
        && (p.Ok? ==>
              var s := SuggestStep(e.value, p.value, policyText, agents.suggestionAgent);
              && (s.Err? ==> r == Err(s.error))
              && (s.Ok? ==>
                    var f := agents.reviewer(ReviewData(e.value, p.value, s.value));
                    && (f.Err? ==> r == Err(f.error))
                    && (f.Ok? ==> r == Ok(ReviewResults(f.value, e.value, p.value, s.value)))))
    ensures r.Ok? ==>
      && agents.extractor(ExtractionPrompt(contractText)) == Ok(r.value.extractedClauses)
      && agents.policyAgent(PolicyPrompt(r.value.extractedClauses, policyText)) == Ok(r.value.policyMatches)
      && SuggestStep(r.value.extractedClauses, r.value.policyMatches, policyText, agents.suggestionAgent)
         == Ok(r.value.clauseSuggestions)
      && agents.reviewer(ReviewData(r.value.extractedClauses, r.value.policyMatches, r.value.clauseSuggestions))
         == Ok(r.value.finalReport)
  {
    var clauses :- agents.extractor(ExtractionPrompt(contractText));
    var matches :- agents.policyAgent(PolicyPrompt(clauses, policyText));
    var suggestions :- SuggestStep(clauses, matches, policyText, agents.suggestionAgent);
    var report :- agents.reviewer(ReviewData(clauses, matches, suggestions));
    Ok(ReviewResults(report, clauses, matches, suggestions))
  }

  /** The suggestions a context holds, reading "never set" as none. */
  function RecordedSuggestions(deps: ContractReviewDeps): seq<ClauseSuggestion> {
    if deps.clauseSuggestions.Some? then deps.clauseSuggestions.value else []
  }

  /** The three tools run in order on a fresh context. A successful run
      keeps both texts and leaves non-empty clauses and judgements
      recorded, in a consistent context. */
  function RunTools(contractText: string, policyText: string, agents: Agents): (r: Result<ContractReviewDeps>)
    ensures r.Ok? ==>
      && r.value.contractText == contractText
      && r.value.policyText == policyText
      && !Missing(r.value.extractedClauses)
      && !Missing(r.value.policyMatches)
      && Consistent(r.value)
  {
    var extracted :- ExtractClauses(NewDeps(contractText, policyText), agents.extractor);
    var analysed :- AnalyzePolicyCompliance(extracted.deps, agents.policyAgent);
    var suggested :- GenerateSuggestions(analysed.deps, agents.suggestionAgent);
    Ok(suggested.deps)
  }

  /** Steps 1-3: when the first two stages produce non-empty results, the
      tool chain fails exactly when the suggestion step does, and otherwise
      records the same clauses, judgements and suggestions; the only
      difference is that a context never asked for suggestions keeps them
      unset where the review reports an empty list. */
  lemma ToolsAgreeWithReview(contractText: string, policyText: string, agents: Agents,
                             clauses: seq<ClauseExtraction>, matches: seq<PolicyMatch>)
    requires agents.extractor(ExtractionPrompt(contractText)) == Ok(clauses) && |clauses| > 0
    requires agents.policyAgent(PolicyPrompt(clauses, policyText)) == Ok(matches) && |matches| > 0
    ensures var tools := RunTools(contractText, policyText, agents);
      && (tools.Ok? <==> SuggestStep(clauses, matches, policyText, agents.suggestionAgent).Ok?)
      && (tools.Err? ==> tools.error == SuggestStep(clauses, matches, policyText, agents.suggestionAgent).error)
      && (tools.Ok? ==>
          && tools.value.contractText == contractText
          && tools.value.policyText == policyText
          && tools.value.extractedClauses == Some(clauses)
          && tools.value.policyMatches == Some(matches)
          && SuggestStep(clauses, matches, policyText, agents.suggestionAgent) == Ok(RecordedSuggestions(tools.value)))
  {
    var d0 := NewDeps(contractText, policyText);
    var d1 := d0.(extractedClauses := Some(clauses));
    assert ExtractClauses(d0, agents.extractor) == Ok(ToolRun(clauses, d1));
    var d2 := d1.(policyMatches := Some(matches));
    assert AnalyzePolicyCompliance(d1, agents.policyAgent) == Ok(ToolRun(matches, d2));
  }

  /** The review does not check that clauses were found: with none it
      still asks the policy stage, while the tools stop at the compliance
      step. With no clauses there is never anything to ask the suggestion
      stage. */
  lemma EmptyExtractionDivergence(contractText: string, policyText: string, agents: Agents)
    requires agents.extractor(ExtractionPrompt(contractText)) == Ok([])
    ensures RunTools(contractText, policyText, agents) == Err(ValueError(NoClausesMessage))
    ensures agents.policyAgent(PolicyPrompt([], policyText)).Err? ==>
      ReviewContract(contractText, policyText, agents) == Err(agents.policyAgent(PolicyPrompt([], policyText)).error)
    ensures ReviewContract(contractText, policyText, agents).Ok? ==>
      && ReviewContract(contractText, policyText, agents).value.extractedClauses == []
      && ReviewContract(contractText, policyText, agents).value.clauseSuggestions == []
  {
    var d1 := NewDeps(contractText, policyText).(extractedClauses := Some([]));
    assert ExtractClauses(NewDeps(contractText, policyText), agents.extractor) == Ok(ToolRun([], d1));
    forall matches: seq<PolicyMatch> {
      NoClausesNoPrompt(matches, policyText);
    }
  }

  /** The suggestion stage has no influence on a review in which nothing
      needs asking. */
  lemma SuggestionStageUnusedWithoutPrompt(contractText: string, policyText: string, agents: Agents,
                                           clauses: seq<ClauseExtraction>, matches: seq<PolicyMatch>,
                                           other: string -> Result<seq<ClauseSuggestion>>)
    requires agents.extractor(ExtractionPrompt(contractText)) == Ok(clauses)
    requires agents.policyAgent(PolicyPrompt(clauses, policyText)) == Ok(matches)
    requires forall m :: m in matches && !m.compliant ==> FirstClauseNamed(clauses, m.clauseName).None?
    ensures ReviewContract(contractText, policyText, agents)
         == ReviewContract(contractText, policyText, agents.(suggestionAgent := other))
    ensures ReviewContract(contractText, policyText, agents).Ok? ==>
      ReviewContract(contractText, policyText, agents).value.clauseSuggestions == []
  {
  }

  /** The whole review against the tool chain: with non-empty clauses and
      judgements, a successful review means the tools succeed and record
      what the review reports, and a tool failure is the review's failure.
      The review can still fail after the tools succeed, when the
      final-report stage fails. */
  lemma ReviewAgreesWithTools(contractText: string, policyText: string, agents: Agents,
                              clauses: seq<ClauseExtraction>, matches: seq<PolicyMatch>)
    requires agents.extractor(ExtractionPrompt(contractText)) == Ok(clauses) && |clauses| > 0
    requires agents.policyAgent(PolicyPrompt(clauses, policyText)) == Ok(matches) && |matches| > 0
    ensures var review := ReviewContract(contractText, policyText, agents);
      var tools := RunTools(contractText, policyText, agents);
      && (review.Ok? ==>
            && tools.Ok?
            && tools.value.extractedClauses == Some(review.value.extractedClauses)
            && tools.value.policyMatches == Some(review.value.policyMatches)
            && RecordedSuggestions(tools.value) == review.value.clauseSuggestions)
      && (tools.Err? ==> review == Err(tools.error))
  {
    ToolsAgreeWithReview(contractText, policyText, agents, clauses, matches);
    var step := SuggestStep(clauses, matches, policyText, agents.suggestionAgent);
    var review := ReviewContract(contractText, policyText, agents);
    if step.Ok? {
      assert review.Ok? ==> review.value.clauseSuggestions == step.value;
    } else {
      assert review == Err(step.error);
    }
  }

  /** The review does not check that judgements were made either: with
      clauses but no judgements the tools stop with the ValueError, while
      the review goes on with no suggestions and asks only the final-report
      stage. */
  lemma EmptyJudgementsDivergence(contractText: string, policyText: string, agents: Agents,
                                  clauses: seq<ClauseExtraction>)
    requires agents.extractor(ExtractionPrompt(contractText)) == Ok(clauses) && |clauses| > 0
    requires agents.policyAgent(PolicyPrompt(clauses, policyText)) == Ok([])
    ensures RunTools(contractText, policyText, agents) == Err(ValueError(NoAnalysisMessage))
    ensures var f := agents.reviewer(ReviewData(clauses, [], []));
      && (f.Ok? ==> ReviewContract(contractText, policyText, agents) == Ok(ReviewResults(f.value, clauses, [], [])))
      && (f.Err? ==> ReviewContract(contractText, policyText, agents) == Err(f.error))
  {
    var d0 := NewDeps(contractText, policyText);
    var d1 := d0.(extractedClauses := Some(clauses));
    var d2 := d1.(policyMatches := Some([]));
    assert ExtractClauses(d0, agents.extractor) == Ok(ToolRun(clauses, d1));
    assert AnalyzePolicyCompliance(d1, agents.policyAgent) == Ok(ToolRun([], d2));
  }
}
