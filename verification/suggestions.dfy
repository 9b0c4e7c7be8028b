/** The deterministic half of the suggestion stage: pick out the
    non-compliant judgements, join each to the first extracted clause of
    the same name, render one detail block per joined pair, and build the
    prompt (or decide there is nothing to ask). */
module Suggestions {
  import opened Results
  import opened Text
  import opened Models
  import opened PolicySection
  import opened Prompting

  /** The judgements that found their clause non-compliant, in order. */
  function NonCompliant(matches: seq<PolicyMatch>): (r: seq<PolicyMatch>)
    ensures |r| <= |matches|
    ensures forall m :: m in r <==> m in matches && !m.compliant
  {
    if |matches| == 0 then []
    else if matches[0].compliant then NonCompliant(matches[1..])
    else [matches[0]] + NonCompliant(matches[1..])
  }

  /** The filter keeps the relative order: it works piecewise on a split
      list. */
  lemma {:induction false} NonCompliantAppend(a: seq<PolicyMatch>, b: seq<PolicyMatch>)
    ensures NonCompliant(a + b) == NonCompliant(a) + NonCompliant(b)
    decreases |a|
  {
    if |a| == 0 {
      assert a + b == b;
    } else {
      assert (a + b)[1..] == a[1..] + b;
      NonCompliantAppend(a[1..], b);
    }
  }

  /** Filtering twice changes nothing. */
  lemma {:induction false} NonCompliantIdempotent(matches: seq<PolicyMatch>)
    ensures NonCompliant(NonCompliant(matches)) == NonCompliant(matches)
    decreases |matches|
  {
    if |matches| > 0 {
      NonCompliantIdempotent(matches[1..]);
      if !matches[0].compliant {
        var r := NonCompliant(matches);
        assert r[1..] == NonCompliant(matches[1..]);
      }
    }
  }

  /** Index of the first clause named `name` at or after `from`. */
  function ClauseIndex(clauses: seq<ClauseExtraction>, name: string, from: nat): (r: Option<nat>)
    requires from <= |clauses|
    ensures r.None? ==> forall i :: from <= i < |clauses| ==> clauses[i].clauseName != name
    ensures r.Some? ==>
      && from <= r.value < |clauses|
      && clauses[r.value].clauseName == name
      && forall i :: from <= i < r.value ==> clauses[i].clauseName != name
    decreases |clauses| - from
  {
    if from == |clauses| then None
    else if clauses[from].clauseName == name then Some(from)
    else ClauseIndex(clauses, name, from + 1)
  }

  /** `next((c for c in clauses if c.clause_name == name), None)`. */
  function FirstClauseNamed(clauses: seq<ClauseExtraction>, name: string): (r: Option<ClauseExtraction>)
    ensures r.None? <==> forall i :: 0 <= i < |clauses| ==> clauses[i].clauseName != name
    ensures r.Some? ==> exists k ::
      && 0 <= k < |clauses|
      && clauses[k] == r.value
      && r.value.clauseName == name
      && forall i :: 0 <= i < k ==> clauses[i].clauseName != name
  {
    match ClauseIndex(clauses, name, 0)
    case None => None
    case Some(k) => Some(clauses[k])
  }

  /** Reference characterisation: the clause at the first position that
      carries the name is the one found. */
  lemma FirstClauseNamedIsFirst(clauses: seq<ClauseExtraction>, name: string, k: nat)
    requires k < |clauses| && clauses[k].clauseName == name
    requires forall i :: 0 <= i < k ==> clauses[i].clauseName != name
    ensures FirstClauseNamed(clauses, name) == Some(clauses[k])
  {
    var j :| 0 <= j < |clauses| && clauses[j] == FirstClauseNamed(clauses, name).value
      && clauses[j].clauseName == name
      && forall i :: 0 <= i < j ==> clauses[i].clauseName != name;
    assert !(j < k);
    assert !(k < j);
  }

  /** A judgement paired with the clause it is about. */
  datatype Joined = Joined(policyMatch: PolicyMatch, original: ClauseExtraction)

  /** Pair each judgement with the first clause of the same name, dropping
      judgements no clause is named after. */
  function JoinClauses(clauses: seq<ClauseExtraction>, matches: seq<PolicyMatch>): (r: seq<Joined>)
    ensures |r| <= |matches|
    ensures forall j :: j in r <==>
      j.policyMatch in matches && FirstClauseNamed(clauses, j.policyMatch.clauseName) == Some(j.original)
    ensures |r| == 0 <==>
      forall m :: m in matches ==> FirstClauseNamed(clauses, m.clauseName).None?
  {
    if |matches| == 0 then []
    else
      var rest := JoinClauses(clauses, matches[1..]);
      match FirstClauseNamed(clauses, matches[0].clauseName)
      case None => rest
      case Some(o) => [Joined(matches[0], o)] + rest
  }

  /** The join keeps the judgements' order: it works piecewise on a split
      list. */
  lemma {:induction false} JoinClausesAppend(clauses: seq<ClauseExtraction>, a: seq<PolicyMatch>, b: seq<PolicyMatch>)
    ensures JoinClauses(clauses, a + b) == JoinClauses(clauses, a) + JoinClauses(clauses, b)
    decreases |a|
  {
    if |a| == 0 {
      assert a + b == b;
    } else {
      assert (a + b)[1..] == a[1..] + b;
      JoinClausesAppend(clauses, a[1..], b);
    }
  }

  /** The detail block for one non-compliant clause: it opens with the
      clause's name, quotes the joined clause's section reference and text
      and the judgement's issues, and closes with the policy section the
      judgement cites. */
  function DetailBlock(j: Joined, policyText: string): (r: string)
    ensures var head := "Clause: " + j.policyMatch.clauseName;
      |head| <= |r| && r[..|head|] == head
    ensures var section := FindPolicySection(policyText, j.policyMatch.policyReference);
      |section| <= |r| && r[|r| - |section|..] == section
    ensures var head := "Clause: " + j.policyMatch.clauseName;
      var mid := "\nSection: " + j.original.sectionReference
        + "\nOriginal Text: " + j.original.clauseText
        + "\nIssues: " + Join(j.policyMatch.issues, ", ")
        + "\nPolicy Section: ";
      var section := FindPolicySection(policyText, j.policyMatch.policyReference);
      && |r| == |head| + |mid| + |section|
      && r[|head|..|head| + |mid|] == mid
  {
    var head := "Clause: " + j.policyMatch.clauseName;
    var middle := "\nSection: " + j.original.sectionReference
      + "\nOriginal Text: " + j.original.clauseText
      + "\nIssues: " + Join(j.policyMatch.issues, ", ")
      + "\nPolicy Section: ";
    Concat3(head, middle, FindPolicySection(policyText, j.policyMatch.policyReference))
  }

  /** The blocks one judgement contributes: none when it complies or no
      clause carries its name, otherwise one block quoting the first clause
      of that name. */
  function BlocksFor(clauses: seq<ClauseExtraction>, m: PolicyMatch, policyText: string): (r: seq<string>)
    ensures |r| <= 1
    ensures |r| == 0 <==> m.compliant || FirstClauseNamed(clauses, m.clauseName).None?
  {
    if m.compliant then []
    else
      match FirstClauseNamed(clauses, m.clauseName)
      case None => []
      case Some(o) => [DetailBlock(Joined(m, o), policyText)]
  }

  /** The detail blocks as the loop over the judgements builds them, each
      judgement contributing its blocks in turn. */
  function Details(clauses: seq<ClauseExtraction>, matches: seq<PolicyMatch>, policyText: string): (r: seq<string>)
    ensures |r| <= |NonCompliant(matches)|
    ensures |r| == 0 <==>
      forall m :: m in matches && !m.compliant ==> FirstClauseNamed(clauses, m.clauseName).None?
    decreases |matches|
  {
    if |matches| == 0 then []
    else
      assert matches == [matches[0]] + matches[1..];
      BlocksFor(clauses, matches[0], policyText) + Details(clauses, matches[1..], policyText)
  }

  /** One block per joined pair, in order. */
  function DetailBlocks(joined: seq<Joined>, policyText: string): (r: seq<string>)
    ensures |r| == |joined|
  {
    if |joined| == 0 then [] else [DetailBlock(joined[0], policyText)] + DetailBlocks(joined[1..], policyText)
  }

  lemma DetailBlocksCons(j: Joined, rest: seq<Joined>, policyText: string)
    ensures DetailBlocks([j] + rest, policyText) == [DetailBlock(j, policyText)] + DetailBlocks(rest, policyText)
  {
    assert ([j] + rest)[1..] == rest;
  }

  /** Joining a list whose head is non-compliant joins the head first. */
  lemma JoinNonCompliantCons(clauses: seq<ClauseExtraction>, matches: seq<PolicyMatch>)
    requires |matches| > 0 && !matches[0].compliant
    ensures var tail := JoinClauses(clauses, NonCompliant(matches[1..]));
      JoinClauses(clauses, NonCompliant(matches))
      == match FirstClauseNamed(clauses, matches[0].clauseName)
         case None => tail
         case Some(o) => [Joined(matches[0], o)] + tail
  {
    var nc := NonCompliant(matches);
    assert nc[1..] == NonCompliant(matches[1..]);
  }

  /** Reference formulation: the loop's blocks are exactly those of
      filtering the non-compliant judgements first and then joining them to
      their clauses. */
  lemma {:induction false} DetailsIsFilterThenJoin(clauses: seq<ClauseExtraction>, matches: seq<PolicyMatch>, policyText: string)
    ensures Details(clauses, matches, policyText)
         == DetailBlocks(JoinClauses(clauses, NonCompliant(matches)), policyText)
    decreases |matches|
  {
    if |matches| > 0 {
      DetailsIsFilterThenJoin(clauses, matches[1..], policyText);
      if !matches[0].compliant {
        JoinNonCompliantCons(clauses, matches);
        match FirstClauseNamed(clauses, matches[0].clauseName)
        case None =>
        case Some(o) =>
          DetailBlocksCons(Joined(matches[0], o), JoinClauses(clauses, NonCompliant(matches[1..])), policyText);
      }
    }
  }

  /** A single judgement yields a block exactly when it is non-compliant
      and some clause carries its name; the block quotes the first such
      clause. */
  lemma DetailsOfOne(clauses: seq<ClauseExtraction>, m: PolicyMatch, policyText: string)
    ensures m.compliant || FirstClauseNamed(clauses, m.clauseName).None? ==>
      Details(clauses, [m], policyText) == []
    ensures !m.compliant && FirstClauseNamed(clauses, m.clauseName).Some? ==>
      Details(clauses, [m], policyText)
      == [DetailBlock(Joined(m, FirstClauseNamed(clauses, m.clauseName).value), policyText)]
  {
    assert [m][1..] == [];
    assert Details(clauses, [m], policyText) == BlocksFor(clauses, m, policyText) + [];
  }

  /** One step of the detail loop: the first judgement's blocks, then the
      rest. */
  lemma DetailsCons(clauses: seq<ClauseExtraction>, matches: seq<PolicyMatch>, policyText: string)
    requires |matches| > 0
    ensures Details(clauses, matches, policyText)
         == BlocksFor(clauses, matches[0], policyText) + Details(clauses, matches[1..], policyText)
  {
  }

  /** The blocks keep the judgements' order: building them works piecewise
      on a split list. */
  lemma {:induction false} DetailsAppend(clauses: seq<ClauseExtraction>, a: seq<PolicyMatch>, b: seq<PolicyMatch>, policyText: string)
    ensures Details(clauses, a + b, policyText) == Details(clauses, a, policyText) + Details(clauses, b, policyText)
    decreases |a|
  {
    if |a| == 0 {
      assert a + b == b;
    } else {
      var ab := a + b;
      assert ab[0] == a[0];
      assert ab[1..] == a[1..] + b;
      DetailsCons(clauses, ab, policyText);
      DetailsCons(clauses, a, policyText);
      DetailsAppend(clauses, a[1..], b, policyText);
      var head := BlocksFor(clauses, a[0], policyText);
      var mid := Details(clauses, a[1..], policyText);
      var tail := Details(clauses, b, policyText);
      ConcatAssociates(head, mid, tail);
    }
  }

  lemma ConcatAssociates<T>(x: seq<T>, y: seq<T>, z: seq<T>)
    ensures x + (y + z) == (x + y) + z
  {
  }

  /** The suggestion prompt, or None when no non-compliant judgement names
      an extracted clause (the stage then asks nothing and suggests
      nothing). A prompt is the fixed header, the framed detail blocks, and
      the fixed closing request. */
  function SuggestionPrompt(clauses: seq<ClauseExtraction>, matches: seq<PolicyMatch>, policyText: string): (r: Option<string>)
    ensures r.None? <==>
      forall m :: m in matches && !m.compliant ==> FirstClauseNamed(clauses, m.clauseName).None?
    ensures r.Some? ==>
      var d := FormatDetails(Details(clauses, matches, policyText));
      var h := |SuggestionHeader|;
      && |r.value| == h + |d| + |SuggestionFooter|
      && r.value[..h] == SuggestionHeader
      && r.value[h..h + |d|] == d
      && r.value[h + |d|..] == SuggestionFooter
  {
    var details := Details(clauses, matches, policyText);
    if |details| == 0 then None else Some(SuggestionInstruction(FormatDetails(details)))
  }

  /** No non-compliant judgement survives the join exactly when none of
      them names an extracted clause. */
  lemma NoJoinIffAllUnmatched(clauses: seq<ClauseExtraction>, matches: seq<PolicyMatch>)
    ensures |JoinClauses(clauses, NonCompliant(matches))| == 0 <==>
      forall m :: m in matches && !m.compliant ==> FirstClauseNamed(clauses, m.clauseName).None?
  {
    var nc := NonCompliant(matches);
    if |JoinClauses(clauses, nc)| == 0 {
      forall m | m in matches && !m.compliant
        ensures FirstClauseNamed(clauses, m.clauseName).None?
      {
        assert m in nc;
      }
    } else {
      var m :| m in nc && FirstClauseNamed(clauses, m.clauseName).Some?;
      assert m in matches && !m.compliant;
    }
  }

  /** When every clause complies there is nothing to ask. */
  lemma {:induction false} AllCompliantNoPrompt(clauses: seq<ClauseExtraction>, matches: seq<PolicyMatch>, policyText: string)
    requires forall i :: 0 <= i < |matches| ==> matches[i].compliant
    ensures NonCompliant(matches) == []
    ensures SuggestionPrompt(clauses, matches, policyText).None?
    decreases |matches|
  {
    if |matches| > 0 {
      AllCompliantNoPrompt(clauses, matches[1..], policyText);
    }
  }

  /** With no clauses extracted there is nothing to ask either. */
  lemma NoClausesNoPrompt(matches: seq<PolicyMatch>, policyText: string)
    ensures SuggestionPrompt([], matches, policyText).None?
  {
  }
}
