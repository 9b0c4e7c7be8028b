/** The structured records the language-model stages exchange, and the
    shared review context the orchestrator's tools read and fill in. The
    numeric ranges the field descriptions mention (importance 1-10,
    alignment and overall score 0-100) are never validated by the
    reviewer, so they are plain integers here. */
module Models {
  import opened Results

  /** One clause found in the contract. */
  datatype ClauseExtraction = ClauseExtraction(
    clauseName: string,
    sectionReference: string,
    clauseText: string,
    importance: int)

  /** The compliance judgement for one clause, keyed by `clauseName`. */
  datatype PolicyMatch = PolicyMatch(
    clauseName: string,
    policyAlignment: int,
    policyReference: string,
    issues: seq<string>,
    compliant: bool)

  /** A suggested rewrite of one clause. */
  datatype ClauseSuggestion = ClauseSuggestion(
    clauseName: string,
    suggestedText: string,
    explanation: string,
    importance: int)

  /** The aggregate review of the whole contract. */
  datatype FinalReview = FinalReview(
    overallScore: int,
    keyStrengths: seq<string>,
    keyIssues: seq<string>,
    recommendations: seq<string>)

  /** The shared context: the two input texts and the (initially absent)
      output of each stage. */
  datatype ContractReviewDeps = ContractReviewDeps(
    contractText: string,
    policyText: string,
    extractedClauses: Option<seq<ClauseExtraction>>,
    policyMatches: Option<seq<PolicyMatch>>,
    clauseSuggestions: Option<seq<ClauseSuggestion>>)

  /** A fresh context: no stage has run yet. */
  function NewDeps(contractText: string, policyText: string): (r: ContractReviewDeps)
    ensures r.contractText == contractText && r.policyText == policyText
    ensures r.extractedClauses.None? && r.policyMatches.None? && r.clauseSuggestions.None?
  {
    ContractReviewDeps(contractText, policyText, None, None, None)
  }

  /** Python's `not x` on an optional list: true for `None` and for `[]`. */
  predicate Missing<T>(o: Option<seq<T>>): (b: bool)
    ensures b <==> o == None || o == Some([])
  {
    o.None? || |o.value| == 0
  }
}
