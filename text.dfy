/**
 * Character classes and the few string operations of Python's `str` and `re`
 * that both analyzers rely on. Python's Unicode classes are approximated by
 * their ASCII members: whitespace is the ASCII set that `str.isspace`, `\s`
 * and `str.split()` agree on, and a word character (`\w`) is `[A-Za-z0-9_]`.
 */
module Text {

  /** ASCII whitespace as Python sees it: space, \t \n \v \f \r and \x1c-\x1f. */
  predicate IsSpace(c: char) {
    c == ' ' || ('\t' <= c <= '\r') || (28 <= c as int <= 31)
  }

  predicate IsNotSpace(c: char) {
    !IsSpace(c)
  }

  /** `\w` restricted to ASCII. */
  predicate IsWordChar(c: char) {
    ('a' <= c <= 'z') || ('A' <= c <= 'Z') || ('0' <= c <= '9') || c == '_'
  }

  /** First character of `[A-Za-z_][A-Za-z0-9_]*`. */
  predicate IsIdentStart(c: char) {
    ('a' <= c <= 'z') || ('A' <= c <= 'Z') || c == '_'
  }

  predicate IsDigit(c: char) {
    '0' <= c <= '9'
  }

  /** A C identifier: the language of `[A-Za-z_][A-Za-z0-9_]*`. */
  predicate IsIdent(s: string) {
    |s| > 0 && IsIdentStart(s[0]) && forall i :: 1 <= i < |s| ==> IsWordChar(s[i])
  }

  /** The language of `\w+`. */
  predicate IsWordRun(s: string) {
    |s| > 0 && forall i :: 0 <= i < |s| ==> IsWordChar(s[i])
  }

  /** Python's `str.isdigit()` on ASCII text. */
  predicate IsDigits(s: string) {
    |s| > 0 && forall i :: 0 <= i < |s| ==> IsDigit(s[i])
  }

  predicate AllSpace(s: string) {
    forall i :: 0 <= i < |s| ==> IsSpace(s[i])
  }

  /**
   * Python's `str.startswith`. It says the same as `OccursAt(s, 0, prefix)`
   * (see `OccursAtStart`), but it is stated on `s[i]` rather than `s[0 + k]`,
   * which is the form the prefix tests of the classification are proved in.
   */
  predicate StartsWith(s: string, prefix: string) {
    |prefix| <= |s| && forall i :: 0 <= i < |prefix| ==> s[i] == prefix[i]
  }

  /** `t` occurs in `s` starting at position `i`. */
  predicate OccursAt(s: string, i: nat, t: string) {
    i + |t| <= |s| && forall k :: 0 <= k < |t| ==> s[i + k] == t[k]
  }

  /** An occurrence of `a + b` is an occurrence of `a` followed directly by one of `b`. */
  lemma OccursAtConcat(s: string, i: nat, a: string, b: string)
    ensures OccursAt(s, i, a + b) <==> OccursAt(s, i, a) && OccursAt(s, i + |a|, b)
  {
    if OccursAt(s, i, a) && OccursAt(s, i + |a|, b) {
      forall k | 0 <= k < |a + b|
        ensures s[i + k] == (a + b)[k]
      {
        if k >= |a| {
          assert s[i + |a| + (k - |a|)] == b[k - |a|];
        }
      }
    }
    if OccursAt(s, i, a + b) {
      forall k | 0 <= k < |a|
        ensures s[i + k] == a[k]
      {
        assert s[i + k] == (a + b)[k];
      }
      forall k | 0 <= k < |b|
        ensures s[i + |a| + k] == b[k]
      {
        assert s[i + (|a| + k)] == (a + b)[|a| + k];
      }
    }
  }

  /** A string occurs at the start of any text that begins with it. */
  lemma OccursAtStart(t: string, r: string)
    ensures OccursAt(t + r, 0, t)
  {
  }

  /** A string that starts with a prefix agrees with it position by position. */
  lemma StartsWithCharAt(s: string, p: string, k: nat)
    requires StartsWith(s, p) && k < |p|
    ensures k < |s| && s[k] == p[k]
  {
  }

  /** Two prefixes that differ at some position cannot both start the same string. */
  lemma StartsWithExclusive(s: string, p: string, q: string, i: nat)
    requires i < |p| && i < |q| && p[i] != q[i]
    ensures StartsWith(s, p) ==> !StartsWith(s, q)
  {
    if StartsWith(s, p) {
      assert s[i] == p[i];
    }
  }

  /** A string that starts with `p + q` starts with `p`. */
  lemma StartsWithPrefix(s: string, p: string, q: string)
    ensures StartsWith(s, p + q) ==> StartsWith(s, p)
  {
    if StartsWith(s, p + q) {
      assert forall i :: 0 <= i < |p| ==> s[i] == (p + q)[i];
    }
  }

  /** Length of the longest prefix of `s` whose characters are all in the class. */
  function LeadingRun(s: string, inClass: char -> bool): (n: nat)
    ensures n <= |s|
    ensures forall i :: 0 <= i < n ==> inClass(s[i])
    ensures n == |s| || !inClass(s[n])
  {
    if s != [] && inClass(s[0]) then 1 + LeadingRun(s[1..], inClass) else 0
  }

  /** Length of the longest suffix of `s` whose characters are all in the class. */
  function TrailingRun(s: string, inClass: char -> bool): (n: nat)
    ensures n <= |s|
    ensures forall i :: |s| - n <= i < |s| ==> inClass(s[i])
    ensures n == |s| || !inClass(s[|s| - n - 1])
  {
    if s != [] && inClass(s[|s| - 1]) then 1 + TrailingRun(s[..|s| - 1], inClass) else 0
  }

  /** A run is decided by its first character outside the class. */
  lemma {:induction false} LeadingRunOfPrefix(a: string, b: string, inClass: char -> bool)
    requires forall i :: 0 <= i < |a| ==> inClass(a[i])
    requires b == [] || !inClass(b[0])
    ensures LeadingRun(a + b, inClass) == |a|
  {
    if a != [] {
      assert (a + b)[1..] == a[1..] + b;
      LeadingRunOfPrefix(a[1..], b, inClass);
    }
  }

  /** Python's `str.strip()`: drop the leading and the trailing whitespace. */
  function Strip(s: string): (r: string)
    ensures |r| <= |s|
    ensures r == [] || (!IsSpace(r[0]) && !IsSpace(r[|r| - 1]))
    ensures exists i, j :: 0 <= i <= j <= |s| && r == s[i..j] && AllSpace(s[..i]) && AllSpace(s[j..])
  {
    var i := LeadingRun(s, IsSpace);
    var t := s[i..];
    var j := i + |t| - TrailingRun(t, IsSpace);
    assert t[..|t| - TrailingRun(t, IsSpace)] == s[i..j];
    assert AllSpace(s[..i]);
    assert AllSpace(s[j..]) by {
      forall k | 0 <= k < |s| - j ensures IsSpace(s[j..][k]) {
        assert s[j..][k] == t[j - i + k];
      }
    }
    s[i..j]
  }

  /** Stripping is idempotent, and leaves a line with no outer whitespace alone. */
  lemma StripKeepsTrimmed(s: string)
    requires s == [] || (!IsSpace(s[0]) && !IsSpace(s[|s| - 1]))
    ensures Strip(s) == s
  {
  }

  lemma StripIdempotent(s: string)
    ensures Strip(Strip(s)) == Strip(s)
  {
    StripKeepsTrimmed(Strip(s));
  }

  /** Stripping yields the empty line exactly for blank lines. */
  lemma StripEmptyIffBlank(s: string)
    ensures Strip(s) == [] <==> AllSpace(s)
  {
    if AllSpace(s) {
      assert LeadingRun(s, IsSpace) == |s|;
    }
  }

  /** Concatenation is associative; stated once for the solver's benefit. */
  lemma AppendAssoc<T>(a: seq<T>, b: seq<T>, c: seq<T>)
    ensures (a + b) + c == a + (b + c)
  {
  }

  /** The two halves of a concatenation, and its tail when the first half is non-empty. */
  lemma ConcatSlices<T>(a: seq<T>, b: seq<T>)
    ensures (a + b)[..|a|] == a && (a + b)[|a|..] == b
    ensures a != [] ==> (a + b)[1..] == a[1..] + b
  {
  }
}
