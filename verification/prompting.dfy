/** The instructions the reviewer sends to its language-model stages,
    built deterministically from the upstream records. */
module Prompting {
  import opened Text
  import opened Models

  /** Instruction for the clause-extraction stage: a fixed header, then the
      contract verbatim, so the contract can be read back from it. */
  function ExtractionPrompt(contractText: string): (r: string)
    ensures |r| == |ExtractionHeader| + |contractText|
    ensures r[..|ExtractionHeader|] == ExtractionHeader
    ensures r[|ExtractionHeader|..] == contractText
  {
    ExtractionHeader + contractText
  }

  const ExtractionHeader: string := "Extract the key clauses from this NDA contract:\n\n"

  /** One clause as the compliance stage sees it. */
  function ClauseBlock(c: ClauseExtraction): string {
    "Clause: " + c.clauseName + "\nReference: " + c.sectionReference + "\nText: " + c.clauseText
  }

  function ClauseBlocks(clauses: seq<ClauseExtraction>): (r: seq<string>)
    ensures |r| == |clauses|
    ensures forall i :: 0 <= i < |clauses| ==> r[i] == ClauseBlock(clauses[i])
  {
    seq(|clauses|, i requires 0 <= i < |clauses| => ClauseBlock(clauses[i]))
  }

  /** All clause blocks, separated by a blank line. */
  function ClausesText(clauses: seq<ClauseExtraction>): (r: string)
    ensures |clauses| == 0 ==> r == ""
    ensures |clauses| == 1 ==> r == ClauseBlock(clauses[0])
  {
    Join(ClauseBlocks(clauses), "\n\n")
  }

  /** Clause blocks are laid out one after another in extraction order,
      a blank line between neighbours. */
  lemma ClausesTextAppend(clauses: seq<ClauseExtraction>, c: ClauseExtraction)
    requires |clauses| > 0
    ensures ClausesText(clauses + [c]) == ClausesText(clauses) + "\n\n" + ClauseBlock(c)
  {
    assert ClauseBlocks(clauses + [c]) == ClauseBlocks(clauses) + [ClauseBlock(c)];
    JoinAppend(ClauseBlocks(clauses), "\n\n", ClauseBlock(c));
  }

  /** Instruction for the compliance stage: a fixed header, the clause
      listing, a fixed divider, then the policy verbatim. */
  function PolicyPrompt(clauses: seq<ClauseExtraction>, policyText: string): (r: string)
    ensures var c := ClausesText(clauses);
      && |r| == |PolicyHeader| + |c| + |PolicyDivider| + |policyText|
      && r[..|PolicyHeader|] == PolicyHeader
      && r[|PolicyHeader|..|PolicyHeader| + |c|] == c
      && r[|PolicyHeader| + |c|..|r| - |policyText|] == PolicyDivider
      && r[|r| - |policyText|..] == policyText
  {
    var c := ClausesText(clauses);
    var r := PolicyHeader + c + PolicyDivider + policyText;
    assert r == PolicyHeader + (c + (PolicyDivider + policyText));
    r
  }

  const PolicyHeader: string := "Analyze these contract clauses against our company policy:\n\nContract Clauses:\n"
  const PolicyDivider: string := "\n\nCompany NDA Policy:\n"

  /** `c * n` for a one-character string `c`. */
  function Repeat(c: char, n: nat): (r: string)
    ensures |r| == n
    ensures forall i :: 0 <= i < n ==> r[i] == c
  {
    if n == 0 then "" else [c] + Repeat(c, n - 1)
  }

  /** The line that frames each detail block: `"=" * 50`. */
  const Separator: string := Repeat('=', 50)

  /** A detail block between two separator lines. */
  function Wrap(detail: string): string {
    Separator + "\n" + detail + "\n" + Separator
  }

  function WrapAll(details: seq<string>): (r: seq<string>)
    ensures |r| == |details|
    ensures forall i :: 0 <= i < |details| ==> r[i] == Wrap(details[i])
  {
    seq(|details|, i requires 0 <= i < |details| => Wrap(details[i]))
  }

  /** The detail blocks, each wrapped, one per line group. */
  function FormatDetails(details: seq<string>): (r: string)
    ensures |details| == 0 ==> r == ""
    ensures |details| == 1 ==> r == Wrap(details[0])
  {
    Join(WrapAll(details), "\n")
  }

  /** Each wrapping adds two separator lines and two newlines. */
  lemma {:induction false} WrapAllLength(details: seq<string>)
    ensures TotalLength(WrapAll(details)) == TotalLength(details) + |details| * (2 * |Separator| + 2)
    decreases |details|
  {
    if |details| > 0 {
      assert WrapAll(details)[1..] == WrapAll(details[1..]);
      WrapAllLength(details[1..]);
    }
  }

  /** The formatted details consist of the blocks, 102 characters of
      wrapping per block, and one newline between neighbouring blocks. */
  lemma FormatDetailsLength(details: seq<string>)
    requires |details| > 0
    ensures |FormatDetails(details)| == TotalLength(details) + |details| * 102 + (|details| - 1)
  {
    WrapAllLength(details);
  }

  /** Blocks appear in order, each wrapped, separated by a single newline. */
  lemma FormatDetailsAppend(details: seq<string>, d: string)
    requires |details| > 0
    ensures FormatDetails(details + [d]) == FormatDetails(details) + "\n" + Wrap(d)
  {
    assert WrapAll(details + [d]) == WrapAll(details) + [Wrap(d)];
    JoinAppend(WrapAll(details), "\n", Wrap(d));
  }

  /** Instruction for the suggestion stage: a fixed header, the formatted
      details verbatim, then a fixed closing request. */
  function SuggestionInstruction(formattedDetails: string): (r: string)
    ensures var h := |SuggestionHeader|;
      && |r| == h + |formattedDetails| + |SuggestionFooter|
      && r[..h] == SuggestionHeader
      && r[h..h + |formattedDetails|] == formattedDetails
      && r[h + |formattedDetails|..] == SuggestionFooter
  {
    SuggestionHeader + formattedDetails + SuggestionFooter
  }

  const SuggestionHeader: string := "Generate suggested improvements for these non-compliant clauses:\n\n"
  const SuggestionFooter: string := "\n\nFor each clause, suggest revised text that would make it compliant with our policy."
}
