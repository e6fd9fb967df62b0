/** Whitespace stripping as Python's `str.strip()` does it: every character for which
    `str.isspace()` holds is removed from both ends, nothing else is touched. */
module Text {

  /** The characters Python treats as whitespace (`str.isspace()`): the ASCII controls
      TAB..CR and FS..US, SPACE, NEL, NO-BREAK SPACE, OGHAM SPACE MARK, the spaces
      U+2000..U+200A, LINE and PARAGRAPH SEPARATOR, NARROW NO-BREAK SPACE,
      MEDIUM MATHEMATICAL SPACE and IDEOGRAPHIC SPACE. */
  predicate IsSpace(c: char) {
    || ('\U{0009}' <= c <= '\U{000D}')
    || ('\U{001C}' <= c <= '\U{0020}')
    || c == '\U{0085}' || c == '\U{00A0}' || c == '\U{1680}'
    || ('\U{2000}' <= c <= '\U{200A}')
    || c == '\U{2028}' || c == '\U{2029}' || c == '\U{202F}' || c == '\U{205F}' || c == '\U{3000}'
  }

  predicate AllSpace(s: string) {
    forall i :: 0 <= i < |s| ==> IsSpace(s[i])
  }

  /** Neither end of `s` is whitespace: what `strip()` guarantees of its result. */
  predicate NoOuterSpace(s: string) {
    s == [] || (!IsSpace(s[0]) && !IsSpace(s[|s| - 1]))
  }

  /** The first position at or after `i` that is not whitespace, or `|s|`. */
  function LeadFrom(s: string, i: nat): (n: nat)
    requires i <= |s|
    ensures i <= n <= |s|
    ensures forall k :: i <= k < n ==> IsSpace(s[k])
    ensures n < |s| ==> !IsSpace(s[n])
    decreases |s| - i
  {
    if i == |s| || !IsSpace(s[i]) then i else LeadFrom(s, i + 1)
  }

  /** The position just after the last character before `j` and from `lo` on that is
      not whitespace, or `lo`. */
  function TrailFrom(s: string, lo: nat, j: nat): (n: nat)
    requires lo <= j <= |s|
    ensures lo <= n <= j
    ensures forall k :: n <= k < j ==> IsSpace(s[k])
    ensures lo < n ==> !IsSpace(s[n - 1])
    decreases j
  {
    if j == lo || !IsSpace(s[j - 1]) then j else TrailFrom(s, lo, j - 1)
  }

  /** The number of whitespace characters at the start of `s`. */
  function LeadCount(s: string): (n: nat)
    ensures n <= |s| && AllSpace(s[..n])
    ensures forall k :: 0 <= k < n ==> IsSpace(s[k])
    ensures n < |s| ==> !IsSpace(s[n])
  {
    var n := LeadFrom(s, 0);
    assert forall k :: 0 <= k < n ==> s[..n][k] == s[k];
    n
  }

  /** `s.strip()`. The result has no outer whitespace, and `s` is the result with
      a run of whitespace put back on either side. */
  function Strip(s: string): (r: string)
    ensures NoOuterSpace(r)
    ensures LeadCount(s) + |r| <= |s|
    ensures s == s[..LeadCount(s)] + r + s[LeadCount(s) + |r|..]
    ensures AllSpace(s[LeadCount(s) + |r|..])
    ensures r == [] <==> AllSpace(s)
  {
    var a := LeadCount(s);
    var e := TrailFrom(s, a, |s|);
    StripSplit(s, a, e);
    s[a..e]
  }

  /** Cutting the leading run and then the trailing run of whitespace leaves a middle
      part with no outer whitespace, empty exactly when all of `s` is whitespace. */
  lemma StripSplit(s: string, a: nat, e: nat)
    requires a == LeadCount(s) && e == TrailFrom(s, a, |s|)
    ensures var r := s[a..e];
      && NoOuterSpace(r)
      && s == s[..a] + r + s[e..]
      && AllSpace(s[e..])
      && (r == [] <==> AllSpace(s))
  {
    SplitAt(s, a, e);
    SpacesFrom(s, e);
    Trimmed(s, a, e);
    if a == e {
      forall k | 0 <= k < |s| ensures IsSpace(s[k]) {
      }
    }
  }

  lemma SplitAt(s: string, a: nat, e: nat)
    requires a <= e <= |s|
    ensures s == s[..a] + s[a..e] + s[e..]
  {
  }

  lemma SpacesFrom(s: string, e: nat)
    requires e <= |s| && forall k :: e <= k < |s| ==> IsSpace(s[k])
    ensures AllSpace(s[e..])
  {
    forall k | 0 <= k < |s| - e ensures IsSpace(s[e..][k]) {
      assert s[e..][k] == s[e + k];
    }
  }

  lemma Trimmed(s: string, a: nat, e: nat)
    requires a <= e <= |s|
    requires a < |s| ==> !IsSpace(s[a])
    requires a < e ==> !IsSpace(s[e - 1])
    ensures NoOuterSpace(s[a..e])
    ensures a < e ==> !AllSpace(s)
  {
    if a < e {
      assert s[a..e][0] == s[a] && s[a..e][e - a - 1] == s[e - 1];
    }
  }

  /** Stripping a string that has no outer whitespace changes nothing. */
  lemma {:induction false} StripOfStripped(s: string)
    requires NoOuterSpace(s)
    ensures Strip(s) == s
  {
    if s != [] {
      assert LeadCount(s) == 0;
      assert TrailFrom(s, 0, |s|) == |s|;
    }
  }

  /** `strip()` is idempotent. */
  lemma StripIdempotent(s: string)
    ensures Strip(Strip(s)) == Strip(s)
  {
    StripOfStripped(Strip(s));
  }
}
