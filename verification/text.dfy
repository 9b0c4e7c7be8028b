/** The string primitives the review pipeline relies on: Python's notion of
    whitespace, `str.strip()`, and `str.join`. */
module Text {

  /** Python's `str.isspace()` for one character, which is also what the
      regular-expression class `\s` matches in a `str` pattern. */
  predicate IsWhitespace(c: char) {
    c as int in WhitespaceCodes
  }

  /** Code points of the characters `str.isspace()` accepts. */
  const WhitespaceCodes: set<int> := {
    0x09, 0x0A, 0x0B, 0x0C, 0x0D, 0x1C, 0x1D, 0x1E, 0x1F, 0x20,
    0x85, 0xA0, 0x1680,
    0x2000, 0x2001, 0x2002, 0x2003, 0x2004, 0x2005, 0x2006, 0x2007, 0x2008, 0x2009, 0x200A,
    0x2028, 0x2029, 0x202F, 0x205F, 0x3000
  }

  /** Every character of `s` in positions `lo..hi` is whitespace. */
  ghost predicate BlankBetween(s: string, lo: int, hi: int) {
    forall i :: lo <= i < hi && 0 <= i < |s| ==> IsWhitespace(s[i])
  }

  /** Position of the first non-whitespace character at or after `lo`, or
      `|s|` when there is none. */
  function ContentStart(s: string, lo: nat): (k: nat)
    requires lo <= |s|
    ensures lo <= k <= |s|
    ensures BlankBetween(s, lo, k)
    ensures k == |s| || !IsWhitespace(s[k])
    decreases |s| - lo
  {
    if lo < |s| && IsWhitespace(s[lo]) then ContentStart(s, lo + 1) else lo
  }

  /** Position just after the last non-whitespace character before `hi`,
      or 0 when there is none. */
  function ContentEnd(s: string, hi: nat): (k: nat)
    requires hi <= |s|
    ensures k <= hi
    ensures BlankBetween(s, k, hi)
    ensures k == 0 || !IsWhitespace(s[k - 1])
    decreases hi
  {
    if hi > 0 && IsWhitespace(s[hi - 1]) then ContentEnd(s, hi - 1) else hi
  }

  /** `s.rstrip()`. */
  function TrimEnd(s: string): (r: string)
    ensures |r| <= |s| && r == s[..|r|]
    ensures BlankBetween(s, |r|, |s|)
    ensures |r| == 0 || !IsWhitespace(r[|r| - 1])
  {
    s[..ContentEnd(s, |s|)]
  }

  /** `s.strip()`: the part of `s` between its leading and trailing
      whitespace. */
  function Strip(s: string): (r: string)
    ensures var a := ContentStart(s, 0);
      && a + |r| <= |s|
      && r == s[a..a + |r|]
      && BlankBetween(s, 0, a)
      && BlankBetween(s, a + |r|, |s|)
    ensures |r| == 0 || (!IsWhitespace(r[0]) && !IsWhitespace(r[|r| - 1]))
  {
    var a := ContentStart(s, 0);
    var b := ContentEnd(s, |s|);
    if a < b then s[a..b] else ""
  }

  /** A reference characterisation of `strip()`: any cut `s[a..b]` that
      leaves only whitespace outside and starts and ends with a
      non-whitespace character (or is empty inside all-whitespace text) is
      exactly what `Strip` returns. */
  lemma StripIsUnique(s: string, a: nat, b: nat)
    requires a <= b <= |s|
    requires BlankBetween(s, 0, a) && BlankBetween(s, b, |s|)
    requires a == b ==> BlankBetween(s, 0, |s|)
    requires a < b ==> !IsWhitespace(s[a]) && !IsWhitespace(s[b - 1])
    ensures Strip(s) == s[a..b]
  {
    var start := ContentStart(s, 0);
    var end := ContentEnd(s, |s|);
    if a < b {
      assert start <= a;
      assert start >= a by {
        assert start < |s| ==> !IsWhitespace(s[start]);
      }
      assert end >= b;
      assert end <= b by {
        assert end > 0 ==> !IsWhitespace(s[end - 1]);
      }
    }
  }

  /** When the text already starts with a non-whitespace character,
      `strip()` only removes trailing whitespace. */
  lemma StripOfUnpaddedStart(s: string)
    requires |s| > 0 && !IsWhitespace(s[0])
    ensures Strip(s) == TrimEnd(s)
  {
    assert ContentStart(s, 0) == 0;
  }

  /** `rstrip()` removes exactly the whitespace after the last
      non-whitespace character. */
  lemma TrimEndIsUnique(s: string, b: nat)
    requires b <= |s| && BlankBetween(s, b, |s|)
    requires b > 0 ==> !IsWhitespace(s[b - 1])
    ensures TrimEnd(s) == s[..b]
  {
    var end := ContentEnd(s, |s|);
    assert end >= b;
    assert end <= b by {
      assert end > 0 ==> !IsWhitespace(s[end - 1]);
    }
  }

  /** Sum of the lengths of all parts. */
  function TotalLength(parts: seq<string>): nat {
    if |parts| == 0 then 0 else |parts[0]| + TotalLength(parts[1..])
  }

  /** Three pieces laid end to end, each found again at its own offset. */
  function Concat3(a: string, b: string, c: string): (r: string)
    ensures |r| == |a| + |b| + |c|
    ensures r[..|a|] == a
    ensures r[|a|..|a| + |b|] == b
    ensures r[|a| + |b|..] == c
  {
    var r := a + b + c;
    assert r == a + (b + c);
    r
  }

  /** `sep.join(parts)`. */
  function Join(parts: seq<string>, sep: string): (r: string)
    ensures |parts| == 0 ==> r == ""
    ensures |parts| == 1 ==> r == parts[0]
    ensures |parts| > 0 ==> |r| == TotalLength(parts) + (|parts| - 1) * |sep|
  {
    if |parts| == 0 then ""
    else if |parts| == 1 then parts[0]
    else parts[0] + sep + Join(parts[1..], sep)
  }

  /** Joining is the same as appending parts one at a time with the
      separator between neighbours, the way a reader scans the result. */
  lemma {:induction false} JoinAppend(parts: seq<string>, sep: string, p: string)
    requires |parts| > 0
    ensures Join(parts + [p], sep) == Join(parts, sep) + sep + p
    decreases |parts|
  {
    if |parts| == 1 {
      assert (parts + [p])[1..] == [p];
    } else {
      assert (parts + [p])[1..] == parts[1..] + [p];
      JoinAppend(parts[1..], sep, p);
    }
  }
}
