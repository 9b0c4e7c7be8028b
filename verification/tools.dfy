/** The orchestrator's three tools. Each reads the shared review context,
    may call one language-model stage, and records that stage's output in
    the context. A stage is a parameter: a function from its prompt to
    either its structured output or the failure it raised. */
module Tools {
  import opened Results
  import opened Models
  import opened Prompting
  import opened Suggestions

  const NoClausesMessage: string := "No clauses extracted yet. Run extract_clauses first."
  const NoAnalysisMessage: string := "No policy analysis completed. Run analyze_policy_compliance first."
  /** What Python raises on iterating over `None`. */
  const NotIterableMessage: string := "'NoneType' object is not iterable"

  /** A tool's return value together with the context as the tool leaves it. */
  datatype ToolRun<T> = ToolRun(output: T, deps: ContractReviewDeps)

  /** `extract_clauses`: ask the extractor about the contract and record the
      clauses. */
  function ExtractClauses(
    deps: ContractReviewDeps,
    extractor: string -> Result<seq<ClauseExtraction>>
  ): (r: Result<ToolRun<seq<ClauseExtraction>>>)
    ensures r.Err? <==> extractor(ExtractionPrompt(deps.contractText)).Err?
    ensures r.Err? ==> r.error == extractor(ExtractionPrompt(deps.contractText)).error
    ensures r.Ok? ==>
      && extractor(ExtractionPrompt(deps.contractText)) == Ok(r.value.output)
      && r.value.deps == deps.(extractedClauses := Some(r.value.output))
  {
    var clauses :- extractor(ExtractionPrompt(deps.contractText));
    Ok(ToolRun(clauses, deps.(extractedClauses := Some(clauses))))
  }

  /** `analyze_policy_compliance`: refuse unless clauses were extracted
      (an empty list counts as none); otherwise ask the policy stage and
      record the judgements. */
  function AnalyzePolicyCompliance(
    deps: ContractReviewDeps,
    policyAgent: string -> Result<seq<PolicyMatch>>
  ): (r: Result<ToolRun<seq<PolicyMatch>>>)
    ensures Missing(deps.extractedClauses) ==> r == Err(ValueError(NoClausesMessage))
    ensures !Missing(deps.extractedClauses) ==>
      (r.Ok? <==> policyAgent(PolicyPrompt(deps.extractedClauses.value, deps.policyText)).Ok?)
    ensures !Missing(deps.extractedClauses) && r.Err? ==>
      r.error == policyAgent(PolicyPrompt(deps.extractedClauses.value, deps.policyText)).error
    ensures r.Ok? ==>
      && !Missing(deps.extractedClauses)
      && policyAgent(PolicyPrompt(deps.extractedClauses.value, deps.policyText)) == Ok(r.value.output)
      && r.value.deps == deps.(policyMatches := Some(r.value.output))
  {
    if Missing(deps.extractedClauses) then Err(ValueError(NoClausesMessage))
    else
      var matches :- policyAgent(PolicyPrompt(deps.extractedClauses.value, deps.policyText));
      Ok(ToolRun(matches, deps.(policyMatches := Some(matches))))
  }

  /** `generate_suggestions`: refuse unless judgements exist; return no
      suggestions, without asking and without touching the context, when
      everything complies or no non-compliant judgement names an extracted
      clause; fail like Python does when the clause list was never set but
      there is a non-compliant judgement to look up; otherwise ask the
      suggestion stage and record its answer. */
  function GenerateSuggestions(
    deps: ContractReviewDeps,
    suggestionAgent: string -> Result<seq<ClauseSuggestion>>
  ): (r: Result<ToolRun<seq<ClauseSuggestion>>>)
    ensures Missing(deps.policyMatches) ==> r == Err(ValueError(NoAnalysisMessage))
    ensures !Missing(deps.policyMatches) && NonCompliant(deps.policyMatches.value) == [] ==>
      r == Ok(ToolRun([], deps))
    ensures (!Missing(deps.policyMatches) && NonCompliant(deps.policyMatches.value) != []
             && deps.extractedClauses.None?) ==>
      r == Err(TypeError(NotIterableMessage))
    ensures !Missing(deps.policyMatches) && deps.extractedClauses.Some? ==>
      match SuggestionPrompt(deps.extractedClauses.value, deps.policyMatches.value, deps.policyText)
      case None => r == Ok(ToolRun([], deps))
      case Some(prompt) =>
        && (r.Ok? <==> suggestionAgent(prompt).Ok?)
        && (r.Ok? ==> suggestionAgent(prompt) == Ok(r.value.output))
        && (r.Ok? ==> r.value.deps == deps.(clauseSuggestions := Some(r.value.output)))
        && (r.Err? ==> r.error == suggestionAgent(prompt).error)
    ensures r.Ok? ==> r.value.deps == deps || r.value.deps == deps.(clauseSuggestions := Some(r.value.output))
  {
    if Missing(deps.policyMatches) then Err(ValueError(NoAnalysisMessage))
    else if NonCompliant(deps.policyMatches.value) == [] then Ok(ToolRun([], deps))
    else if deps.extractedClauses.None? then Err(TypeError(NotIterableMessage))
    else
      match SuggestionPrompt(deps.extractedClauses.value, deps.policyMatches.value, deps.policyText)
      case None => Ok(ToolRun([], deps))
      case Some(prompt) =>
        var suggestions :- suggestionAgent(prompt);
        Ok(ToolRun(suggestions, deps.(clauseSuggestions := Some(suggestions))))
  }

  /** A context the tools can reach from a fresh one: judgements are only
      ever recorded after a clause list has been. */
  predicate Consistent(deps: ContractReviewDeps) {
    deps.policyMatches.Some? ==> deps.extractedClauses.Some?
  }

  lemma FreshIsConsistent(contractText: string, policyText: string)
    ensures Consistent(NewDeps(contractText, policyText))
    ensures NewDeps(contractText, policyText).extractedClauses.None?
    ensures NewDeps(contractText, policyText).policyMatches.None?
    ensures NewDeps(contractText, policyText).clauseSuggestions.None?
  {
  }

  /** Every tool keeps the context consistent. */
  lemma ToolsPreserveConsistency(
    deps: ContractReviewDeps,
    extractor: string -> Result<seq<ClauseExtraction>>,
    policyAgent: string -> Result<seq<PolicyMatch>>,
    suggestionAgent: string -> Result<seq<ClauseSuggestion>>)
    requires Consistent(deps)
    ensures ExtractClauses(deps, extractor).Ok? ==> Consistent(ExtractClauses(deps, extractor).value.deps)
    ensures AnalyzePolicyCompliance(deps, policyAgent).Ok? ==>
      Consistent(AnalyzePolicyCompliance(deps, policyAgent).value.deps)
    ensures GenerateSuggestions(deps, suggestionAgent).Ok? ==>
      Consistent(GenerateSuggestions(deps, suggestionAgent).value.deps)
  {
  }

  /** In a consistent context `generate_suggestions` can fail only by its
      own guard or by the suggestion stage failing: the `None` iteration
      cannot happen when the tools are used as intended. */
  lemma ConsistentSuggestionFailures(deps: ContractReviewDeps, suggestionAgent: string -> Result<seq<ClauseSuggestion>>)
    requires Consistent(deps)
    ensures GenerateSuggestions(deps, suggestionAgent).Err? ==>
      || GenerateSuggestions(deps, suggestionAgent) == Err(ValueError(NoAnalysisMessage))
      || exists prompt ::
           && SuggestionPrompt(deps.extractedClauses.value, deps.policyMatches.value, deps.policyText) == Some(prompt)
           && GenerateSuggestions(deps, suggestionAgent) == Err(suggestionAgent(prompt).error)
  {
  }
}
