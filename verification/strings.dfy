/** The handful of Foundation string operations the scraper relies on:
    substring search (`contains`, `range(of:)`), `hasPrefix`/`starts(with:)`,
    `replacingOccurrences(of:with:)` and `trimmingCharacters(in: .whitespacesAndNewlines)`.
    Characters are compared as Unicode scalars; Swift's canonical-equivalence
    comparison of grapheme clusters is not modelled. */
module Strings {
  import opened Common

  /** `pat` occurs in `s` starting at index `i`. */
  predicate OccursAt(s: string, pat: string, i: int) {
    0 <= i && i + |pat| <= |s| && s[i..i + |pat|] == pat
  }

  /** Swift's `s.contains(pat)`: some occurrence of `pat` inside `s`. */
  predicate Contains(s: string, pat: string) {
    exists i | 0 <= i <= |s| :: OccursAt(s, pat, i)
  }

  /** Swift's `s.hasPrefix(p)` / `s.starts(with: p)`. */
  predicate StartsWith(s: string, p: string) {
    |p| <= |s| && s[..|p|] == p
  }

  /** The first occurrence of `pat` in `s` at or after index `i`. */
  function FindFrom(s: string, pat: string, i: nat): (r: Option<nat>)
    requires i <= |s|
    decreases |s| - i
    ensures r.Some? ==> i <= r.value <= |s| && OccursAt(s, pat, r.value)
    ensures forall j | i <= j && (r.None? || j < r.value) :: !OccursAt(s, pat, j)
  {
    if OccursAt(s, pat, i) then Some(i)
    else if i == |s| then None
    else FindFrom(s, pat, i + 1)
  }

  /** Swift's `s.range(of: pat)?.lowerBound`: the index of the first occurrence. */
  function FindFirst(s: string, pat: string): (r: Option<nat>)
    ensures r.None? <==> !Contains(s, pat)
    ensures r.Some? ==> OccursAt(s, pat, r.value)
    ensures r.Some? ==> forall j | 0 <= j < r.value :: !OccursAt(s, pat, j)
  {
    FindFrom(s, pat, 0)
  }

  /** A string that lacks one of the pattern's characters cannot contain it. */
  lemma MissingCharNoMatch(s: string, pat: string, k: int)
    requires 0 <= k < |pat| && pat[k] !in s
    ensures !Contains(s, pat)
  {
    forall i | 0 <= i <= |s|
      ensures !OccursAt(s, pat, i)
    {
      if i + |pat| <= |s| {
        assert s[i..i + |pat|][k] == s[i + k];
      }
    }
  }

  /** Swift's `s.replacingOccurrences(of: pat, with: rep)`: every occurrence,
      found left to right without overlap, is replaced. */
  function ReplaceAll(s: string, pat: string, rep: string): (r: string)
    requires |pat| > 0
    decreases |s|
    ensures !Contains(s, pat) ==> r == s
    ensures rep == [] ==> |r| <= |s|
    ensures rep == [] ==> (r == s <==> !Contains(s, pat))
  {
    match FindFirst(s, pat)
    case None => s
    case Some(i) => s[..i] + rep + ReplaceAll(s[i + |pat|..], pat, rep)
  }

  /** One step of the left-to-right scan: when the first occurrence of `pat`
      starts right after `a`, the text before it is kept, the occurrence is
      replaced, and the scan resumes after it. */
  lemma ReplaceAllStep(a: string, pat: string, b: string, rep: string)
    requires |pat| > 0
    requires forall j | 0 <= j < |a| :: !OccursAt(a + pat + b, pat, j)
    ensures ReplaceAll(a + pat + b, pat, rep) == a + rep + ReplaceAll(b, pat, rep)
  {
    var s := a + pat + b;
    assert OccursAt(s, pat, |a|) by { assert s[|a|..|a| + |pat|] == pat; }
    assert FindFirst(s, pat) == Some(|a|);
    assert s[..|a|] == a;
    assert s[|a| + |pat|..] == b;
  }

  /** The scan does not look again at what a replacement leaves behind:
      removing `"ab"` from `"aabb"` leaves `"ab"`. */
  lemma ReplaceAllSinglePass()
    ensures ReplaceAll("aabb", "ab", "") == "ab"
  {
    assert "aabb"[0..2] == "aa";
    assert !OccursAt("aabb", "ab", 0);
    ReplaceAllStep("a", "ab", "b", "");
    assert "a" + "ab" + "b" == "aabb";
    MissingCharNoMatch("b", "ab", 0);
  }

  /** Removing a label that starts the text, when the rest does not repeat it,
      leaves exactly the rest. */
  lemma RemoveLeadingLabel(pat: string, v: string)
    requires |pat| > 0
    requires !Contains(v, pat)
    ensures ReplaceAll(pat + v, pat, "") == v
  {
    var s := pat + v;
    assert OccursAt(s, pat, 0) by { assert s[..|pat|] == pat; }
    assert FindFirst(s, pat) == Some(0);
    assert s[|pat|..] == v;
  }

  /** Membership in Foundation's `CharacterSet.whitespacesAndNewlines`: the
      Unicode separators (categories Zs, Zl, Zp), U+0009 through U+000D and U+0085. */
  predicate IsWhitespace(c: char) {
    || c == ' '
    || '\t' <= c <= '\r'
    || c == '\U{0085}'
    || c == '\U{00A0}'
    || c == '\U{1680}'
    || '\U{2000}' <= c <= '\U{200A}'
    || c == '\U{2028}'
    || c == '\U{2029}'
    || c == '\U{202F}'
    || c == '\U{205F}'
    || c == '\U{3000}'
  }

  predicate AllWhitespace(s: string) {
    forall i | 0 <= i < |s| :: IsWhitespace(s[i])
  }

  /** Neither end of `s` is whitespace (vacuous for the empty string). */
  predicate Trimmed(s: string) {
    s == [] || (!IsWhitespace(s[0]) && !IsWhitespace(s[|s| - 1]))
  }

  function TrimStart(s: string): (r: string)
    ensures |r| <= |s| && r == s[|s| - |r|..]
    ensures AllWhitespace(s[..|s| - |r|])
    ensures r == [] || !IsWhitespace(r[0])
  {
    if |s| > 0 && IsWhitespace(s[0]) then
      var r := TrimStart(s[1..]);
      assert s[..|s| - |r|] == [s[0]] + s[1..][..|s[1..]| - |r|];
      r
    else s
  }

  function TrimEnd(s: string): (r: string)
    ensures |r| <= |s| && r == s[..|r|]
    ensures AllWhitespace(s[|r|..])
    ensures r == [] || !IsWhitespace(r[|r| - 1])
  {
    if |s| > 0 && IsWhitespace(s[|s| - 1]) then
      var r := TrimEnd(s[..|s| - 1]);
      assert s[|r|..] == s[..|s| - 1][|r|..] + [s[|s| - 1]];
      r
    else s
  }

  /** Swift's `s.trimmingCharacters(in: .whitespacesAndNewlines)`. */
  function Trim(s: string): (r: string)
    ensures Trimmed(r)
    ensures r == [] <==> AllWhitespace(s)
  {
    var a := TrimStart(s);
    var r := TrimEnd(a);
    assert r == [] ==> AllWhitespace(s) by {
      if r == [] {
        assert s == s[..|s| - |a|] + a;
        assert a[|r|..] == a;
      }
    }
    r
  }

  lemma {:induction false} TrimStartPadded(a: string, core: string)
    requires AllWhitespace(a)
    requires core == [] || !IsWhitespace(core[0])
    ensures TrimStart(a + core) == core
    decreases |a|
  {
    if a == [] {
      assert a + core == core;
    } else {
      assert (a + core)[1..] == a[1..] + core;
      TrimStartPadded(a[1..], core);
    }
  }

  lemma {:induction false} TrimEndPadded(core: string, b: string)
    requires AllWhitespace(b)
    requires core == [] || !IsWhitespace(core[|core| - 1])
    ensures TrimEnd(core + b) == core
    decreases |b|
  {
    if b == [] {
      assert core + b == core;
    } else {
      var s := core + b;
      assert s[..|s| - 1] == core + b[..|b| - 1];
      TrimEndPadded(core, b[..|b| - 1]);
    }
  }

  /** Trimming removes exactly the whitespace padding around a trimmed core:
      the independent characterisation of `Trim`. */
  lemma TrimPadded(a: string, core: string, b: string)
    requires AllWhitespace(a) && AllWhitespace(b)
    requires Trimmed(core) && core != []
    ensures Trim(a + core + b) == core
  {
    var s := a + core + b;
    assert s == a + (core + b);
    TrimStartPadded(a, core + b);
    TrimEndPadded(core, b);
    assert Trim(s) == TrimEnd(TrimStart(s));
  }

  /** Trimming twice is trimming once. */
  lemma TrimIdempotent(s: string)
    ensures Trim(Trim(s)) == Trim(s)
  {
    var t := Trim(s);
    assert TrimStart(t) == t;
    assert TrimEnd(t) == t;
  }

  /** An occurrence stays an occurrence with text around it. */
  lemma ContainsWithin(a: string, m: string, b: string, pat: string)
    requires Contains(m, pat)
    ensures Contains(a + m + b, pat)
  {
    var i :| 0 <= i <= |m| && OccursAt(m, pat, i);
    assert (a + m + b)[|a| + i..|a| + i + |pat|] == m[i..i + |pat|];
    assert OccursAt(a + m + b, pat, |a| + i);
  }

  /** Whatever one part contains, the joined string contains. */
  lemma {:induction false} JoinContains(parts: seq<string>, sep: string, k: nat, pat: string)
    requires k < |parts| && Contains(parts[k], pat)
    ensures Contains(Join(parts, sep), pat)
    decreases |parts|
  {
    if |parts| > 1 {
      if k == 0 {
        ContainsWithin([], parts[0], sep + Join(parts[1..], sep), pat);
        assert [] + parts[0] + (sep + Join(parts[1..], sep)) == Join(parts, sep);
      } else {
        JoinContains(parts[1..], sep, k - 1, pat);
        ContainsWithin(parts[0] + sep, Join(parts[1..], sep), [], pat);
        assert parts[0] + sep + Join(parts[1..], sep) + [] == Join(parts, sep);
      }
    }
  }

  /** The strings of `parts` separated by `sep`, like Swift's `joined(separator:)`. */
  function Join(parts: seq<string>, sep: string): (r: string)
    ensures parts == [] ==> r == []
    ensures |parts| == 1 ==> r == parts[0]
  {
    if |parts| == 0 then []
    else if |parts| == 1 then parts[0]
    else parts[0] + sep + Join(parts[1..], sep)
  }
}
