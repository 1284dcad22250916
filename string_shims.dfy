/**
 * The `String.prototype.trim` fallback of ecma5Compact.js, which removes
 * the matches of `/^[\s\u00A0]+|[\s\u00A0]+$/g`: a leading run and a
 * trailing run of white space.
 */
module StringShims {

  /**
   * The regular-expression class `\s` of ECMA-262 (5th edition), section
   * 15.10.2.12: the WhiteSpace characters of section 7.2 and the
   * LineTerminator characters of section 7.3.
   */
  predicate IsWs(c: char) {
    c == '\t' || c == '\U{B}' || c == '\U{C}' || c == ' ' || c == '\U{A0}' || c == '\U{FEFF}'
    || c == '\U{1680}' || c == '\U{180E}' || ('\U{2000}' <= c <= '\U{200A}')
    || c == '\U{202F}' || c == '\U{205F}' || c == '\U{3000}'
    || c == '\n' || c == '\r' || c == '\U{2028}' || c == '\U{2029}'
  }

  /** The class `[\s\u00A0]` of the pattern; U+00A0 is named again because older engines left it out of `\s`. */
  predicate IsTrimmed(c: char) {
    IsWs(c) || c == '\U{A0}'
  }

  /** The length of the match of `^[\s\u00A0]+`: the longest leading run of class characters. */
  function LeadingRun(s: string): (n: nat)
    ensures n <= |s|
    ensures forall k :: 0 <= k < n ==> IsTrimmed(s[k])
    ensures n < |s| ==> !IsTrimmed(s[n])
  {
    if s != [] && IsTrimmed(s[0]) then 1 + LeadingRun(s[1..]) else 0
  }

  /** The length of the match of `[\s\u00A0]+$`: the longest trailing run of class characters. */
  function TrailingRun(s: string): (n: nat)
    ensures n <= |s|
    ensures forall k :: |s| - n <= k < |s| ==> IsTrimmed(s[k])
    ensures n < |s| ==> !IsTrimmed(s[|s| - n - 1])
  {
    if s != [] && IsTrimmed(s[|s| - 1]) then 1 + TrailingRun(s[..|s| - 1]) else 0
  }

  /** Removing the leading run. */
  function TrimStart(s: string): (r: string)
    ensures r == [] || !IsTrimmed(r[0])
  {
    s[LeadingRun(s)..]
  }

  /** Removing the trailing run. */
  function TrimEnd(s: string): (r: string)
    ensures r == [] || !IsTrimmed(r[|r| - 1])
  {
    s[..|s| - TrailingRun(s)]
  }

  /** `String.prototype.trim`: both runs removed, the characters between them untouched. */
  function Trim(s: string): (r: string)
    ensures r == [] || (!IsTrimmed(r[0]) && !IsTrimmed(r[|r| - 1]))
  {
    TrimEnd(TrimStart(s))
  }

  /**
   * The trimmed string is the piece of s that starts where the leading run
   * ends, and everything around it is white space.
   */
  lemma TrimIsInfix(s: string)
    ensures LeadingRun(s) + |Trim(s)| <= |s|
    ensures Trim(s) == s[LeadingRun(s)..LeadingRun(s) + |Trim(s)|]
    ensures forall k :: 0 <= k < LeadingRun(s) ==> IsTrimmed(s[k])
    ensures forall k :: LeadingRun(s) + |Trim(s)| <= k < |s| ==> IsTrimmed(s[k])
  {
    var i := LeadingRun(s);
    var t := s[i..];
    var n := TrailingRun(t);
    var r := Trim(s);
    assert r == t[..|t| - n];
    assert r == s[i..i + |r|];
    forall k | i + |r| <= k < |s|
      ensures IsTrimmed(s[k])
    {
      var j := k - i;
      assert |t| - n <= j < |t|;
      assert IsTrimmed(t[j]);
    }
  }

  /** A leading run of white space before a piece that does not start with it is exactly that run. */
  lemma {:induction false} LeadingRunOf(a: string, m: string)
    requires forall k :: 0 <= k < |a| ==> IsTrimmed(a[k])
    requires m == [] || !IsTrimmed(m[0])
    ensures LeadingRun(a + m) == |a|
    decreases |a|
  {
    if a == [] {
      assert a + m == m;
    } else {
      assert (a + m)[1..] == a[1..] + m;
      LeadingRunOf(a[1..], m);
    }
  }

  /** A trailing run of white space after a piece that does not end with it is exactly that run. */
  lemma {:induction false} TrailingRunOf(m: string, b: string)
    requires forall k :: 0 <= k < |b| ==> IsTrimmed(b[k])
    requires m == [] || !IsTrimmed(m[|m| - 1])
    ensures TrailingRun(m + b) == |b|
    decreases |b|
  {
    if b == [] {
      assert m + b == m;
    } else {
      var last := |b| - 1;
      assert (m + b)[..|m + b| - 1] == m + b[..last];
      TrailingRunOf(m, b[..last]);
    }
  }

  /**
   * Trim is determined by its contract: whenever s is white space, then a
   * piece with no white space at either end, then white space, the piece is
   * what trim returns.
   */
  lemma TrimUnique(a: string, m: string, b: string)
    requires forall k :: 0 <= k < |a| ==> IsTrimmed(a[k])
    requires forall k :: 0 <= k < |b| ==> IsTrimmed(b[k])
    requires m == [] || (!IsTrimmed(m[0]) && !IsTrimmed(m[|m| - 1]))
    ensures Trim(a + m + b) == m
  {
    var s := a + m + b;
    if m == [] {
      assert s == (a + b) + [];
      LeadingRunOf(a + b, []);
      assert TrimStart(s) == [];
    } else {
      assert s == a + (m + b);
      assert (m + b)[0] == m[0];
      LeadingRunOf(a, m + b);
      assert TrimStart(s) == m + b;
      TrailingRunOf(m, b);
      assert (m + b)[..|m|] == m;
    }
  }

  /** Trimming twice is trimming once. */
  lemma TrimIdempotent(s: string)
    ensures Trim(Trim(s)) == Trim(s)
  {
    var r := Trim(s);
    assert [] + r + [] == r;
    TrimUnique([], r, []);
  }
}
