# Multi-agent NDA contract review — a Dafny model

The reviewer examines a non-disclosure agreement with four language-model
stages:

1. An extractor lists the contract's key clauses.
2. A policy stage judges each clause against a company policy written in
   Markdown.
3. A suggestion stage proposes rewrites for the non-compliant clauses.
4. An orchestrator writes the final report.

The stages can be chained in one function (`review_contract_with_agents`)
or driven as three orchestrator tools that share a mutable review context
(`ContractReviewDeps`).

This project models the deterministic logic around those stages:

- the guards,
- the non-compliant filter,
- the join of each judgement to its clause,
- the policy-section lookup,
- the exact prompt texts.

Each language-model stage is a function parameter. It maps its prompt to
either its structured output or the failure it raised.

Files:

| file | module | contents |
|---|---|---|
| `results.dfy` | `Results` | `Option`, the error kinds, and a `Result` usable with `:-` |
| `text.dfy` | `Text` | Python's whitespace, `strip()`/`rstrip()`, and `str.join` |
| `models.dfy` | `Models` | the record types and the shared review context |
| `policy_section.dfy` | `PolicySection` | `find_policy_section` |
| `prompting.dfy` | `Prompting` | the extraction, compliance and suggestion prompts |
| `suggestions.dfy` | `Suggestions` | the non-compliant filter, the clause join, and the detail blocks |
| `tools.dfy` | `Tools` | the three orchestrator tools and the context invariant |
| `pipeline.dfy` | `Pipeline` | the end-to-end review and its relation to the tools |

The policy-section lookup models the pattern `##\s*<escaped reference>`
as a predicate, `HeadingAt`. A heading is a `##` marker, any run of
whitespace, then the reference taken literally. The lookup returns:

- the leftmost such heading;
- cut at the next `##` found two characters later, or at the end of the
  text;
- then stripped.

It returns the sentinel `"Policy section not found"` when no heading
matches.

## Model

| member | source | states |
|---|---|---|
| Text.TrimEnd | agents.py:206-208 | `rstrip()`: a prefix of the text, ending in non-whitespace or empty, with only whitespace cut |
| Text.ContentStart | agents.py:206 | the first non-whitespace position at or after a start point; only whitespace comes before it |
| Text.ContentEnd | agents.py:206 | the end of the last non-whitespace character before a bound; only whitespace comes after it |
| Text.Strip | agents.py:206-208 | `strip()` yields a contiguous piece of the text with only whitespace cut on either side and non-whitespace at both ends |
| Text.StripIsUnique | agents.py:206-208 | any cut that leaves only whitespace outside and has non-whitespace ends is exactly what `strip()` returns |
| Text.StripOfUnpaddedStart | agents.py:206-208 | a text that already starts with non-whitespace loses only its trailing whitespace |
| Text.TrimEndIsUnique | agents.py:206-208 | removing trailing whitespace has exactly one result |
| Text.Join | agents.py:127-130 | `sep.join` of no parts is empty and of one part is that part; otherwise its length is the parts' total plus one separator between each pair of neighbours |
| Text.JoinAppend | agents.py:127-130 | joining is appending the parts one after another with the separator between neighbours |
| PolicySection.RefAfterWhitespaceIff | agents.py:196-197 | the executable matcher for `\s*<reference>` succeeds exactly when some whitespace gap followed by the literal reference exists |
| PolicySection.FirstHeading | agents.py:196-199 | the search returns the leftmost position where `##\s*<reference>` matches, or reports that none does |
| PolicySection.NextMarker | agents.py:202-205 | finds the leftmost `##` at or after the given position, or reports there is none |
| PolicySection.Locate | agents.py:196-205 | no span exactly when no heading matches; a found span starts at the leftmost heading and ends at the next `##` after its marker, or at the end of the text |
| PolicySection.SectionBoundsUnique | agents.py:201-208 | the described cut is unique |
| PolicySection.SectionText | agents.py:204-208 | the stripped section is the cut without trailing whitespace and still opens with `##` |
| PolicySection.FindPolicySection | agents.py:194-208 | the sentinel comes back exactly when no heading names the reference; otherwise the result is the cut with trailing whitespace removed |
| PolicySection.TrimKeepsMarker | agents.py:206-208 | trimming a section that opens with `##` keeps the marker |
| PolicySection.NoMarkerInsideSection | agents.py:202-205 | no `##` starts at offset 2 or later inside the returned section |
| PolicySection.FoundSectionShape | agents.py:194-208 | a found section is a contiguous piece of the policy no longer than the cut; it opens with `##` and never runs into the next section |
| PolicySection.TrailingTrimIsTrimEnd | agents.py:206-208 | the section result equals `rstrip()` of the cut |
| PolicySection.AbsentReferenceNotFound | agents.py:197-199 | a reference whose first character never occurs in the policy yields the sentinel |
| PolicySection.SmallPolicyBounds | agents.py:196-205 | in `"## A\ntext1\n## B\ntext2"` the section for `A` spans positions 0 to 11 |
| PolicySection.LookupExample | agents.py:194-208 | the section for `A` in that policy is `"## A\ntext1"` |
| PolicySection.SmallPolicyTrim | agents.py:206 | stripping that cut removes only its final newline |
| PolicySection.LookupAbsentExample | agents.py:197-199 | looking up `Z` in that policy gives the sentinel |
| PolicySection.LongerHeadingBounds | agents.py:196-205 | reference `3.2` matches the heading `## 3.21`, because the pattern has no end anchor |
| PolicySection.ReferenceMatchesLongerHeading | agents.py:194-208 | the lookup of `3.2` in `"## 3.21\n## 3.2"` returns `"## 3.21"`, not the exact heading |
| PolicySection.LongerHeadingTrim | agents.py:206 | stripping that cut removes only its final newline |
| Models.NewDeps | agents.py:39-45 | a new context holds the two texts and leaves clauses, judgements and suggestions at `None` |
| Models.Missing | agents.py:124-149 | `not lst` on an optional list holds exactly for `None` and for the empty list |
| Prompting.ExtractionPrompt | agents.py:115-117 | the extraction prompt is the fixed header followed by the contract verbatim |
| Prompting.ClausesText | agents.py:127-130 | no clauses give the empty listing; one clause gives exactly its block |
| Prompting.ClausesTextAppend | agents.py:127-130 | clause blocks appear in extraction order with a blank line between neighbours |
| Prompting.PolicyPrompt | agents.py:132-140 | the compliance prompt is the fixed header, the clause listing, the fixed divider and the verbatim policy, in that order |
| Prompting.Repeat | agents.py:180 | `"=" * n` has length n and consists only of `=` |
| Prompting.WrapAllLength | agents.py:180-181 | each framing adds two separators and two newlines |
| Prompting.FormatDetailsLength | agents.py:180-181 | the formatted details are the blocks plus 102 characters of framing each, plus one newline between neighbours |
| Prompting.FormatDetails | agents.py:180-181 | no blocks format to the empty text; one block formats to that block between two separator lines |
| Prompting.FormatDetailsAppend | agents.py:181 | framed blocks appear in order, one newline apart |
| Prompting.SuggestionInstruction | agents.py:183-187 | the suggestion prompt is the fixed header, the formatted details verbatim and the fixed closing request, in that order |
| Suggestions.NonCompliant | agents.py:152 | keeps exactly the judgements marked non-compliant |
| Suggestions.NonCompliantAppend | agents.py:152 | the filter keeps the judgements' relative order |
| Suggestions.NonCompliantIdempotent | agents.py:152 | filtering twice is filtering once |
| Suggestions.ClauseIndex | agents.py:161-164 | the first position at or after a start whose clause has the given name, or none |
| Suggestions.FirstClauseNamed | agents.py:161-164 | nothing comes back exactly when no clause has the name; otherwise it is the first clause with that name |
| Suggestions.FirstClauseNamedIsFirst | agents.py:161-164 | the clause at the earliest position carrying the name is the one found |
| Suggestions.JoinClauses | agents.py:159-166 | a pair is produced exactly for a judgement whose name has a clause, joined to the first such clause; the result is empty exactly when no judgement's name has a clause |
| Suggestions.JoinClausesAppend | agents.py:159-175 | the join keeps the judgements' order |
| Suggestions.DetailBlock | agents.py:169-175 | a detail block is `Clause: ` and the judgement's clause name, then the joined clause's section reference and text and the judgement's issues joined by `, `, each on its own labelled line, then `Policy Section: ` and the section its reference finds |
| Suggestions.BlocksFor | agents.py:159-175 | a judgement contributes at most one block, and none exactly when it complies or no clause carries its name |
| Suggestions.Details | agents.py:158-175 | no more blocks than non-compliant judgements, and none exactly when no non-compliant judgement names an extracted clause |
| Suggestions.DetailsIsFilterThenJoin | agents.py:152-175 | the detail loop equals filtering the non-compliant judgements, joining each to its first clause, and rendering one block per pair |
| Suggestions.DetailsOfOne | agents.py:159-175 | a single judgement yields a block exactly when it is non-compliant and named by some clause, and the block quotes the first such clause |
| Suggestions.DetailsAppend | agents.py:158-175 | the blocks for two runs of judgements are the blocks for each run, in order |
| Suggestions.NoJoinIffAllUnmatched | agents.py:158-178 | no detail is produced exactly when no non-compliant judgement names an extracted clause |
| Suggestions.SuggestionPrompt | agents.py:177-187 | there is no prompt exactly when no non-compliant judgement names an extracted clause; a prompt is the fixed header, the formatted detail blocks and the fixed closing request |
| Suggestions.AllCompliantNoPrompt | agents.py:152-155 | when every clause complies, there is nothing to filter and nothing to ask |
| Suggestions.NoClausesNoPrompt | agents.py:158-178 | with no extracted clauses there is nothing to ask |
| Tools.ExtractClauses | agents.py:112-119 | fails exactly when the extractor fails, with the extractor's own error; otherwise records the extractor's clauses and changes nothing else |
| Tools.AnalyzePolicyCompliance | agents.py:121-143 | refuses with the fixed ValueError when clauses are absent or empty; otherwise fails exactly when the policy stage does, with its error, and records only its judgements |
| Tools.GenerateSuggestions | agents.py:145-191 | refuses when judgements are absent or empty; returns no suggestions with the context untouched when all comply or no prompt is needed; raises the `None`-iteration TypeError when the clause list was never set; otherwise succeeds exactly when the suggestion stage answers the prompt, records that answer, and fails with the stage's own error |
| Tools.FreshIsConsistent | agents.py:39-45 | a fresh context is consistent and all three lists are `None` |
| Tools.ToolsPreserveConsistency | agents.py:112-191 | every tool keeps judgements recorded only after a clause list |
| Tools.ConsistentSuggestionFailures | agents.py:145-191 | in a consistent context, suggestion generation fails only through its own guard or through the suggestion stage |
| Pipeline.SuggestStep | agents.py:271-306 | no suggestions when no non-compliant judgement names a clause; whenever a prompt is built, exactly the suggestion stage's answer to that prompt, failure included |
| Pipeline.ReviewContract | agents.py:211-358 | the review succeeds exactly when every stage answers, each asked with the prompt built from the earlier answers; the first failing stage's error is the review's error; a success carries the four answers |
| Pipeline.RunTools | agents.py:112-191 | a successful tool chain keeps both texts and leaves non-empty clauses and judgements in a consistent context |
| Pipeline.ToolsAgreeWithReview | agents.py:239-306 | for steps 1-3 only: with non-empty clauses and judgements, the tool chain fails exactly when the review's suggestion step does, with the same error, and otherwise records the same clauses, judgements and suggestions |
| Pipeline.EmptyExtractionDivergence | agents.py:122-125 | with no clauses extracted, the tools stop with the ValueError; the review still asks the policy stage and produces no suggestions |
| Pipeline.SuggestionStageUnusedWithoutPrompt | agents.py:271-306 | the suggestion stage cannot influence a review in which nothing needs asking |
| Pipeline.ReviewAgreesWithTools | agents.py:211-358 | with non-empty clauses and judgements, a successful review means the tool chain succeeds and records the review's clauses, judgements and suggestions; a tool failure is the review's failure |
| Pipeline.EmptyJudgementsDivergence | agents.py:148-306 | with clauses but no judgements the tools stop with the ValueError, while the review goes on with no suggestions and depends only on the final-report stage |

## Behaviour worth knowing

- The lookup strips the cut, so for `"## A\ntext1\n## B\ntext2"` it
  returns `"## A\ntext1"` without the final newline
  (`PolicySection.LookupExample`).
- The cut stops at any `##` at or after the end of the heading's own
  `##`, even one directly after it (as in `####`), including one that
  opens a `###` heading or one inside body text (`PolicySection.NextMarker`,
  `PolicySection.NoMarkerInsideSection`).
- The pattern has no end anchor, so reference `3.2` also matches a
  `## 3.21` heading (`PolicySection.ReferenceMatchesLongerHeading`).
- The one-function review never checks its intermediate lists, while the
  tools refuse empty ones. With no clauses the tools stop at
  agents.py:124-125 and the review still asks the policy stage
  (`Pipeline.EmptyExtractionDivergence`). With no judgements the tools
  stop at agents.py:148-149 and the review goes on with no suggestions
  (`Pipeline.EmptyJudgementsDivergence`).

## Left out

- The language-model calls (`run_sync` on each agent) are parameters; their
  answers are arbitrary, but each stage is a fixed function of its prompt.
  `Pipeline.ToolsAgreeWithReview` and `Pipeline.ReviewAgreesWithTools`
  therefore compare the two routes only when a stage gives the same answer
  to the same prompt on both, which two real model calls do not guarantee. The orchestrator's own decision of which tools to
  call and in what order is not modelled. The tool lemmas relate the
  in-order tool chain (`Pipeline.RunTools`) to the one-function review.
- Step 4's prompt is not modelled as text. It contains the intermediate
  results rendered with `json.dumps(..., indent=2)`, and JSON serialisation
  is outside this model. The final-report stage therefore receives the three
  results as a `ReviewData` record. That call passes no review context,
  so whether the orchestrator could use its tools at that point is not
  modelled.
- Console output (`print`, the `verbose` summaries), the clause-text
  truncation used only for display, and `format_multi_agent_results`
  (Markdown rendering) have no effect on the returned data and are left out.
- `async` tool signatures and the mutation of the context in place: each
  tool is a function that returns its output together with the updated
  context.
- Regular expressions in general: only the single pattern shape the lookup
  uses is encoded. `re.escape` makes every reference character literal, so
  the reference is compared character by character.
- The numeric ranges in the field descriptions (importance 1-10, alignment
  and score 0-100) are never validated, so the fields are plain integers.
- prompts.py, models.py and utils.py are not part of this model.
