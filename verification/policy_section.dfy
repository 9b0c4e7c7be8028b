/** The policy-section lookup of the contract reviewer: find the leftmost
    markdown heading `##`, optional whitespace, then a literal section
    reference; return the text from there up to the next `##` (or the end),
    stripped of surrounding whitespace, or a fixed sentinel when no heading
    matches. The regular expression `##\s*<escaped reference>` is encoded
    directly: `\s` is `Text.IsWhitespace`, and the escaped reference matches
    itself literally and case-sensitively. */
module PolicySection {
  import opened Results
  import opened Text

  /** Returned when no heading names the reference. */
  const NotFound: string := "Policy section not found"

  /** A `##` marker starts at position `i` of `text`. */
  predicate MarkerAt(text: string, i: int) {
    0 <= i && i + 2 <= |text| && text[i] == '#' && text[i + 1] == '#'
  }

  /** From position `p`, `k` whitespace characters and then `ref` itself. */
  ghost predicate GapThenRef(text: string, ref: string, p: int, k: int) {
    && 0 <= p && 0 <= k && p + k + |ref| <= |text|
    && BlankBetween(text, p, p + k)
    && text[p + k..p + k + |ref|] == ref
  }

  /** `\s*<ref>` matches from position `p`. */
  ghost predicate RefFollows(text: string, ref: string, p: int) {
    exists k :: GapThenRef(text, ref, p, k)
  }

  /** The pattern `##\s*<ref>` matches at position `i`. */
  ghost predicate HeadingAt(text: string, ref: string, i: int) {
    MarkerAt(text, i) && RefFollows(text, ref, i + 2)
  }

  /** `i` is where a leftmost-first search for the pattern stops. */
  ghost predicate LeftmostHeading(text: string, ref: string, i: int) {
    HeadingAt(text, ref, i) && forall j :: 0 <= j < i ==> !HeadingAt(text, ref, j)
  }

  /** `e` is the first `##` at or after `start + 2`, or the end of the text
      when there is none. */
  ghost predicate SectionEnd(text: string, start: int, e: int) {
    && 0 <= start && start + 2 <= e <= |text|
    && (forall j :: start + 2 <= j < e ==> !MarkerAt(text, j))
    && (e == |text| || MarkerAt(text, e))
  }

  /** `text[start..e]` is the section the lookup cuts out for `ref`. */
  ghost predicate SectionBounds(text: string, ref: string, start: int, e: int) {
    LeftmostHeading(text, ref, start) && SectionEnd(text, start, e)
  }

  /** `r` is `span` with its trailing whitespace removed. */
  ghost predicate TrailingTrimOf(r: string, span: string) {
    && |r| <= |span| && r == span[..|r|]
    && BlankBetween(span, |r|, |span|)
    && (|r| == 0 || !IsWhitespace(r[|r| - 1]))
  }

  /** Executable form of `\s*<ref>` anchored at `p`: `ref` starts here, or a
      whitespace character does and the rest matches from `p + 1`. */
  predicate RefAfterWhitespace(text: string, ref: string, p: nat)
    requires p <= |text|
    decreases |text| - p
  {
    || (p + |ref| <= |text| && text[p..p + |ref|] == ref)
    || (p < |text| && IsWhitespace(text[p]) && RefAfterWhitespace(text, ref, p + 1))
  }

  /** The recursive matcher decides exactly the existence of a whitespace
      gap followed by the reference (backtracking over the gap length). */
  lemma {:induction false} RefAfterWhitespaceIff(text: string, ref: string, p: nat)
    requires p <= |text|
    ensures RefAfterWhitespace(text, ref, p) <==> RefFollows(text, ref, p)
    decreases |text| - p
  {
    if RefAfterWhitespace(text, ref, p) {
      if p + |ref| <= |text| && text[p..p + |ref|] == ref {
        assert GapThenRef(text, ref, p, 0);
      } else {
        RefAfterWhitespaceIff(text, ref, p + 1);
        var k :| GapThenRef(text, ref, p + 1, k);
        assert GapThenRef(text, ref, p, k + 1);
      }
    }
    if exists k :: GapThenRef(text, ref, p, k) {
      var k :| GapThenRef(text, ref, p, k);
      if k > 0 {
        assert IsWhitespace(text[p]);
        assert GapThenRef(text, ref, p + 1, k - 1);
        RefAfterWhitespaceIff(text, ref, p + 1);
      }
    }
  }

  /** Leftmost position at or after `from` where `##\s*<ref>` matches. */
  function FirstHeading(text: string, ref: string, from: nat): (r: Option<nat>)
    requires from <= |text|
    ensures r.Some? ==> from <= r.value && HeadingAt(text, ref, r.value)
    ensures r.Some? ==> forall j :: from <= j < r.value ==> !HeadingAt(text, ref, j)
    ensures r.None? ==> forall j :: from <= j ==> !HeadingAt(text, ref, j)
    decreases |text| - from
  {
    if from + 2 > |text| then None
    else
      RefAfterWhitespaceIff(text, ref, from + 2);
      if MarkerAt(text, from) && RefAfterWhitespace(text, ref, from + 2) then Some(from)
      else FirstHeading(text, ref, from + 1)
  }

  /** Leftmost `##` at or after `from`. */
  function NextMarker(text: string, from: nat): (r: Option<nat>)
    requires from <= |text|
    ensures r.Some? ==> from <= r.value && MarkerAt(text, r.value)
    ensures r.Some? ==> forall j :: from <= j < r.value ==> !MarkerAt(text, j)
    ensures r.None? ==> forall j :: from <= j ==> !MarkerAt(text, j)
    decreases |text| - from
  {
    if from + 2 > |text| then None
    else if MarkerAt(text, from) then Some(from)
    else NextMarker(text, from + 1)
  }

  datatype Span = Span(start: nat, end: nat)

  /** Where the section for `ref` starts and ends, if any heading names it. */
  function Locate(text: string, ref: string): (r: Option<Span>)
    ensures r.None? <==> forall j :: !HeadingAt(text, ref, j)
    ensures r.Some? ==> SectionBounds(text, ref, r.value.start, r.value.end)
  {
    match FirstHeading(text, ref, 0)
    case None => None
    case Some(i) =>
      var e := match NextMarker(text, i + 2) case Some(j) => j case None => |text|;
      Some(Span(i, e))
  }

  /** Two cuts that both satisfy the section description are the same. */
  lemma SectionBoundsUnique(text: string, ref: string, i: int, e: int, i': int, e': int)
    requires SectionBounds(text, ref, i, e) && SectionBounds(text, ref, i', e')
    ensures i == i' && e == e'
  {
  }

  /** The found section `text[s.start..s.end]`, stripped. It still opens
      with the heading's `##`, so only trailing whitespace goes. */
  function SectionText(text: string, ref: string, s: Span): (r: string)
    requires SectionBounds(text, ref, s.start, s.end)
    ensures TrailingTrimOf(r, text[s.start..s.end])
    ensures |r| >= 2 && r[0] == '#' && r[1] == '#'
  {
    var span := text[s.start..s.end];
    StripOfUnpaddedStart(span);
    assert !IsWhitespace(span[0]) && !IsWhitespace(span[1]);
    Strip(span)
  }

  /** `find_policy_section(policy_text, section_reference)`. */
  function FindPolicySection(policyText: string, sectionReference: string): (r: string)
    ensures r == NotFound <==> forall j :: !HeadingAt(policyText, sectionReference, j)
    ensures forall i, e :: SectionBounds(policyText, sectionReference, i, e) ==>
      TrailingTrimOf(r, policyText[i..e])
  {
    match Locate(policyText, sectionReference)
    case None => NotFound
    case Some(s) =>
      var r := SectionText(policyText, sectionReference, s);
      assert r != NotFound by {
        assert NotFound[0] == 'P';
      }
      forall i, e | SectionBounds(policyText, sectionReference, i, e)
        ensures TrailingTrimOf(r, policyText[i..e])
      {
        SectionBoundsUnique(policyText, sectionReference, i, e, s.start, s.end);
      }
      r
  }

  /** Trimming the end of a span that opens with `##` keeps that marker. */
  lemma TrimKeepsMarker(r: string, span: string)
    requires TrailingTrimOf(r, span)
    requires MarkerAt(span, 0)
    ensures 2 <= |r| && r[..2] == "##"
  {
    assert !IsWhitespace(span[0]) && !IsWhitespace(span[1]);
  }

  /** A prefix of the cut `text[i..e]` has no `##` at offset 2 or later,
      because the cut ends at the first such marker. */
  lemma NoMarkerInsideSection(text: string, i: int, e: int, r: string)
    requires SectionEnd(text, i, e)
    requires |r| <= e - i && r == text[i..i + |r|]
    ensures forall o :: 2 <= o ==> !MarkerAt(r, o)
  {
    forall o | 2 <= o
      ensures !MarkerAt(r, o)
    {
      if o + 2 <= |r| {
        assert r[o] == text[i + o] && r[o + 1] == text[i + o + 1];
        assert !MarkerAt(text, i + o);
      }
    }
  }

  /** A found section starts at its heading's `##`, is a contiguous piece of
      the policy text no longer than the cut, and has no `##` beginning at
      offset 2 or later: it never runs into the next section. */
  lemma FoundSectionShape(text: string, ref: string, i: int, e: int)
    requires SectionBounds(text, ref, i, e)
    ensures var r := FindPolicySection(text, ref);
      && 2 <= |r| <= e - i
      && r == text[i..i + |r|]
      && r[..2] == "##"
      && forall o :: 2 <= o ==> !MarkerAt(r, o)
  {
    var r := FindPolicySection(text, ref);
    var span := text[i..e];
    assert TrailingTrimOf(r, span);
    assert MarkerAt(span, 0);
    TrimKeepsMarker(r, span);
    assert r == text[i..i + |r|];
    NoMarkerInsideSection(text, i, e, r);
  }

  /** Trimming the end of a span one way or another gives the same text:
      `TrailingTrimOf` pins down `rstrip()`. */
  lemma TrailingTrimIsTrimEnd(r: string, span: string)
    requires TrailingTrimOf(r, span)
    ensures r == TrimEnd(span)
  {
    TrimEndIsUnique(span, |r|);
  }

  /** A reference whose first character never occurs in the policy text
      names no heading, so the lookup gives the sentinel. */
  lemma AbsentReferenceNotFound(text: string, ref: string)
    requires |ref| > 0 && ref[0] !in text
    ensures FindPolicySection(text, ref) == NotFound
  {
    forall j
      ensures !HeadingAt(text, ref, j)
    {
      var p := j + 2;
      forall k
        ensures !GapThenRef(text, ref, p, k)
      {
        var q := p + k;
        if 0 <= q && q + |ref| <= |text| {
          assert text[q..q + |ref|][0] == text[q];
        }
      }
    }
  }

  /** In the small policy the heading for `A` is at 0 and the next `##` at
      11. */
  lemma SmallPolicyBounds()
    ensures SectionBounds("## A\ntext1\n## B\ntext2", "A", 0, 11)
  {
    var text := "## A\ntext1\n## B\ntext2";
    assert IsWhitespace(text[2]) && text[3..4] == "A";
    assert GapThenRef(text, "A", 2, 1);
    assert MarkerAt(text, 11);
    forall j | 2 <= j < 11
      ensures !MarkerAt(text, j)
    {
      assert text[j] in " A\ntext1\n";
    }
  }

  /** The lookup a reader would try first: the section for `A` stops before
      the `## B` heading, with the newline before it stripped. */
  lemma LookupExample()
    ensures FindPolicySection("## A\ntext1\n## B\ntext2", "A") == "## A\ntext1"
  {
    var text := "## A\ntext1\n## B\ntext2";
    SmallPolicyBounds();
    assert TrailingTrimOf(FindPolicySection(text, "A"), text[0..11]);
    TrailingTrimIsTrimEnd(FindPolicySection(text, "A"), text[0..11]);
    SmallPolicyTrim();
  }

  /** `rstrip()` of the small policy's first section. */
  lemma SmallPolicyTrim()
    ensures TrimEnd("## A\ntext1\n## B\ntext2"[0..11]) == "## A\ntext1"
  {
    var span := "## A\ntext1\n## B\ntext2"[0..11];
    assert IsWhitespace(span[10]) && !IsWhitespace(span[9]);
    TrimEndIsUnique(span, 10);
  }

  /** An absent reference gives the sentinel. */
  lemma LookupAbsentExample()
    ensures FindPolicySection("## A\ntext1\n## B\ntext2", "Z") == NotFound
  {
    assert 'Z' !in "## A\ntext1\n## B\ntext2";
    AbsentReferenceNotFound("## A\ntext1\n## B\ntext2", "Z");
  }

  /** In a policy whose first heading is `## 3.21`, that heading is where
      the reference `3.2` matches, and its section ends at 8. */
  lemma LongerHeadingBounds()
    ensures SectionBounds("## 3.21\n## 3.2", "3.2", 0, 8)
  {
    var text := "## 3.21\n## 3.2";
    assert IsWhitespace(text[2]) && text[3..6] == "3.2";
    assert GapThenRef(text, "3.2", 2, 1);
    assert MarkerAt(text, 8);
    forall j | 2 <= j < 8
      ensures !MarkerAt(text, j)
    {
      assert text[j] in " 3.21\n";
    }
  }

  /** The reference is not anchored at the end of the heading: `3.2` also
      names a heading `## 3.21`, and the leftmost one wins. */
  lemma ReferenceMatchesLongerHeading()
    ensures FindPolicySection("## 3.21\n## 3.2", "3.2") == "## 3.21"
  {
    var text := "## 3.21\n## 3.2";
    LongerHeadingBounds();
    assert TrailingTrimOf(FindPolicySection(text, "3.2"), text[0..8]);
    TrailingTrimIsTrimEnd(FindPolicySection(text, "3.2"), text[0..8]);
    LongerHeadingTrim();
  }

  /** `rstrip()` of the `## 3.21` section. */
  lemma LongerHeadingTrim()
    ensures TrimEnd("## 3.21\n## 3.2"[0..8]) == "## 3.21"
  {
    var span := "## 3.21\n## 3.2"[0..8];
    assert IsWhitespace(span[7]) && !IsWhitespace(span[6]);
    TrimEndIsUnique(span, 7);
  }
}
