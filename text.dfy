/**
 * Removal of surrounding whitespace, as done by Python's `str.strip()` on the
 * server (routes.py) and by JavaScript's `String.prototype.trim()` in the
 * browser (static/js/script.js). The two runtimes disagree on which characters
 * count as whitespace, so each has its own table.
 */
module Text {

  /** Whose notion of whitespace applies. */
  datatype Runtime = Python | JavaScript

  /** Unicode space separators (category Zs) other than U+0020 and U+00A0; both runtimes strip them. */
  predicate IsWideSpace(c: char) {
    c == '\U{1680}' || ('\U{2000}' <= c <= '\U{200A}') || c == '\U{202F}' || c == '\U{205F}' || c == '\U{3000}'
  }

  /** `c.isspace()` in Python, or membership in WhiteSpace and LineTerminator in ECMAScript. */
  predicate IsSpace(c: char, rt: Runtime) {
    || c == ' ' || c == '\t' || c == '\n' || c == '\r' || c == '\U{B}' || c == '\U{C}'
    || c == '\U{A0}' || c == '\U{2028}' || c == '\U{2029}' || IsWideSpace(c)
    || (rt == Python && (('\U{1C}' <= c <= '\U{1F}') || c == '\U{85}'))
    || (rt == JavaScript && c == '\U{FEFF}')
  }

  predicate AllSpace(s: string, rt: Runtime) {
    forall k :: 0 <= k < |s| ==> IsSpace(s[k], rt)
  }

  /** A string that neither starts nor ends with whitespace. */
  predicate Trimmed(s: string, rt: Runtime) {
    s == [] || (!IsSpace(s[0], rt) && !IsSpace(s[|s| - 1], rt))
  }

  /** Length of the longest all-whitespace prefix of `s`. */
  function LeadingSpace(s: string, rt: Runtime): (n: nat)
    ensures n <= |s|
    ensures forall k :: 0 <= k < n ==> IsSpace(s[k], rt)
    ensures n < |s| ==> !IsSpace(s[n], rt)
  {
    if |s| > 0 && IsSpace(s[0], rt) then 1 + LeadingSpace(s[1..], rt) else 0
  }

  /** Length of the longest all-whitespace suffix of `s`. */
  function TrailingSpace(s: string, rt: Runtime): (n: nat)
    ensures n <= |s|
    ensures forall k :: |s| - n <= k < |s| ==> IsSpace(s[k], rt)
    ensures n < |s| ==> !IsSpace(s[|s| - n - 1], rt)
  {
    if |s| > 0 && IsSpace(s[|s| - 1], rt) then 1 + TrailingSpace(s[..|s| - 1], rt) else 0
  }

  /**
   * Where the stripped text of `s` ends: everything from here on is
   * whitespace, and (when anything is kept) the character before is not.
   */
  function StripEnd(s: string, rt: Runtime): (j: nat)
    ensures LeadingSpace(s, rt) <= j <= |s|
    ensures forall k :: j <= k < |s| ==> IsSpace(s[k], rt)
    ensures LeadingSpace(s, rt) < j ==> !IsSpace(s[j - 1], rt)
  {
    if LeadingSpace(s, rt) == |s| then |s| else |s| - TrailingSpace(s, rt)
  }

  /**
   * `s.strip()` (Python) or `s.trim()` (JavaScript): the middle of `s`
   * between its leading and its trailing whitespace, which neither starts
   * nor ends with whitespace and is empty just when `s` is all whitespace.
   */
  function Strip(s: string, rt: Runtime): (r: string)
    ensures |r| <= |s| && Trimmed(r, rt)
    ensures r == [] <==> AllSpace(s, rt)
  {
    var i, j := LeadingSpace(s, rt), StripEnd(s, rt);
    assert i < j ==> s[i..j][0] == s[i] && s[i..j][j - i - 1] == s[j - 1];
    assert AllSpace(s, rt) ==> i == |s|;
    s[i..j]
  }

  /** The input is a whitespace prefix, the stripped text and a whitespace suffix, in that order. */
  lemma StripDecomposes(s: string, rt: Runtime)
    ensures s == s[..LeadingSpace(s, rt)] + Strip(s, rt) + s[StripEnd(s, rt)..]
  {
    var i, j := LeadingSpace(s, rt), StripEnd(s, rt);
    assert s == s[..i] + s[i..j] + s[j..];
  }

  /**
   * Any split of `s` into whitespace, a trimmed middle and whitespace has
   * Strip(s) as its middle: Strip is the unique such decomposition.
   */
  lemma StripUnique(s: string, rt: Runtime, i: nat, j: nat)
    requires i <= j <= |s|
    requires forall k :: 0 <= k < i ==> IsSpace(s[k], rt)
    requires forall k :: j <= k < |s| ==> IsSpace(s[k], rt)
    requires i < j ==> !IsSpace(s[i], rt) && !IsSpace(s[j - 1], rt)
    ensures Strip(s, rt) == s[i..j]
  {
    if i == j {
      assert AllSpace(s, rt);
    } else {
      assert LeadingSpace(s, rt) == i;
      assert StripEnd(s, rt) == j;
    }
  }

  /** Stripping twice is stripping once. */
  lemma StripIdempotent(s: string, rt: Runtime)
    ensures Strip(Strip(s, rt), rt) == Strip(s, rt)
  {
    StripTrimmed(Strip(s, rt), rt);
  }

  /** Text with no surrounding whitespace is left as it is. */
  lemma StripTrimmed(s: string, rt: Runtime)
    requires Trimmed(s, rt)
    ensures Strip(s, rt) == s
  {
    assert s[0..|s|] == s;
    StripUnique(s, rt, 0, |s|);
  }
}
