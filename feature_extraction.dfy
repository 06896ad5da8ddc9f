/**
 * The feature extractor of the variability analyzer (`_extract_features`):
 * `re.findall` of
 *
 *   \bdefined\s*\(\s*([A-Za-z_][A-Za-z0-9_]*)\s*\)|([A-Za-z_][A-Za-z0-9_]*)
 *
 * over a condition, written as a left-to-right scanner, followed by the set
 * comprehension that keeps the non-numeric captures.
 *
 * `findall` tries the pattern at each position in turn: the first alternative,
 * then the second, and when both fail it moves on by one character; after a
 * match it continues where the match ended. The scanner below works on the
 * remaining suffix; its flag `afterWord` says whether the character just
 * before the suffix is a word character, which is all that the leading `\b`
 * of the first alternative looks at (the first alternative starts with the
 * word character `d`). Backtracking never changes a match of this pattern:
 * each `\s*` and the identifier are followed by a character they cannot
 * contain, so the greedy choice is the only one that can succeed.
 */
module FeatureExtraction {
  import opened Wrappers
  import opened Text

  /** A match of the first alternative: the identifier between the parentheses and the length of the whole match. */
  datatype DefinedCall = DefinedCall(ident: string, length: nat)

  /** `\s*` from position `i` of `s`: where the run of whitespace ends. */
  function SkipSpace(s: string, i: nat): (j: nat)
    requires i <= |s|
    ensures i <= j <= |s|
    ensures forall k :: i <= k < j ==> IsSpace(s[k])
    ensures j == |s| || !IsSpace(s[j])
  {
    i + LeadingRun(s[i..], IsSpace)
  }

  /** `[A-Za-z_][A-Za-z0-9_]*` from position `j` of `s`: where the identifier ends. */
  function IdentEnd(s: string, j: nat): (k: nat)
    requires j < |s| && IsIdentStart(s[j])
    ensures j < k <= |s| && IsIdent(s[j..k])
  {
    var k := j + 1 + LeadingRun(s[j + 1..], IsWordChar);
    assert forall t :: 1 <= t < k - j ==> s[j..k][t] == s[j + 1..][t - 1];
    k
  }

  /** `\(\s*([A-Za-z_][A-Za-z0-9_]*)\s*\)` from position `i` of `s`. */
  function MatchParenIdent(s: string, i: nat): (r: Option<DefinedCall>)
    requires i <= |s|
    ensures r.Some? ==> i + 3 <= r.value.length <= |s|
    ensures r.Some? ==> s[r.value.length - 1] == ')' && IsIdent(r.value.ident)
  {
    if i < |s| && s[i] == '(' then
      var j := SkipSpace(s, i + 1);
      if j < |s| && IsIdentStart(s[j]) then
        var k := IdentEnd(s, j);
        var m := SkipSpace(s, k);
        if m < |s| && s[m] == ')' then Some(DefinedCall(s[j..k], m + 1)) else None
      else None
    else None
  }

  /** `defined\s*\(\s*([A-Za-z_][A-Za-z0-9_]*)\s*\)` at the very start of `s`. */
  function MatchDefinedCall(s: string): (r: Option<DefinedCall>)
    ensures r.Some? ==> StartsWith(s, "defined") && 10 <= r.value.length <= |s|
    ensures r.Some? ==> s[r.value.length - 1] == ')' && IsIdent(r.value.ident)
  {
    if StartsWith(s, "defined") then MatchParenIdent(s, SkipSpace(s, 7)) else None
  }

  /** The captures `m[0] or m[1]` of `re.findall`, in order. */
  function Scan(s: string, afterWord: bool): (r: seq<string>)
    ensures forall t :: t in r ==> IsIdent(t)
    decreases |s|
  {
    if s == [] then []
    else
      var call := if afterWord then None else MatchDefinedCall(s);
      if call.Some? then
        [call.value.ident] + Scan(s[call.value.length..], false)
      else if IsIdentStart(s[0]) then
        var n := 1 + LeadingRun(s[1..], IsWordChar);
        assert forall t :: 1 <= t < n ==> s[..n][t] == s[1..][t - 1];
        [s[..n]] + Scan(s[n..], true)
      else
        Scan(s[1..], IsWordChar(s[0]))
  }

  /** `_extract_features(condition)`: the captures that are non-empty and not all digits. */
  function ExtractFeatures(condition: string): set<string> {
    KeptCaptures(Scan(condition, false))
  }

  /** The captures the filter keeps, collected one match at a time. */
  function KeptCaptures(captures: seq<string>): set<string>
    decreases |captures|
  {
    if captures == [] then {}
    else
      var m := captures[0];
      (if m != "" && !IsDigits(m) then {m} else {}) + KeptCaptures(captures[1..])
  }

  /** Collecting match by match builds the set comprehension over all captures. */
  lemma {:induction false} KeptCapturesAreFiltered(captures: seq<string>)
    ensures KeptCaptures(captures) == set t | t in captures && t != "" && !IsDigits(t)
    decreases |captures|
  {
    if captures != [] {
      KeptCapturesAreFiltered(captures[1..]);
      assert forall t :: t in captures <==> t == captures[0] || t in captures[1..];
    }
  }

  /** The features are the non-empty, not-all-digit captures of the scanner, duplicates merged. */
  lemma ExtractFeaturesIsComprehension(condition: string)
    ensures ExtractFeatures(condition) == set t | t in Scan(condition, false) && t != "" && !IsDigits(t)
  {
    KeptCapturesAreFiltered(Scan(condition, false));
  }

  /** Every feature is an identifier, and none is made only of digits. */
  lemma FeaturesAreIdentifiers(condition: string)
    ensures forall f :: f in ExtractFeatures(condition) ==> IsIdent(f) && !IsDigits(f)
  {
    ExtractFeaturesIsComprehension(condition);
  }

  /** A condition has no features exactly when no character in it can start an identifier. */
  lemma NoFeaturesIff(condition: string)
    ensures ExtractFeatures(condition) == {} <==> forall i :: 0 <= i < |condition| ==> !IsIdentStart(condition[i])
  {
    ExtractFeaturesIsComprehension(condition);
    ScanEmptyIff(condition, false);
    var captures := Scan(condition, false);
    if captures != [] {
      assert captures[0] in captures && IsIdentStart(captures[0][0]);
      assert captures[0] in ExtractFeatures(condition);
    }
  }

  /** The scanner finds nothing exactly when no character can start an identifier. */
  lemma {:induction false} ScanEmptyIff(s: string, afterWord: bool)
    ensures Scan(s, afterWord) == [] <==> forall i :: 0 <= i < |s| ==> !IsIdentStart(s[i])
    decreases |s|
  {
    if s != [] {
      var call := if afterWord then None else MatchDefinedCall(s);
      if call.None? && !IsIdentStart(s[0]) {
        ScanEmptyIff(s[1..], IsWordChar(s[0]));
        assert forall i :: 1 <= i < |s| ==> s[1..][i - 1] == s[i];
      } else if call.Some? {
        assert s[0] == "defined"[0];
      }
    }
  }

  /** The `isdigit` filter never removes a capture: every capture is an identifier. */
  lemma FilterKeepsEveryCapture(condition: string)
    ensures ExtractFeatures(condition) == set t | t in Scan(condition, false)
  {
    ExtractFeaturesIsComprehension(condition);
    forall t | t in Scan(condition, false) ensures t != "" && !IsDigits(t) {
      assert IsIdentStart(t[0]);
    }
  }

  /** An empty condition (a directive with no argument) has no features. */
  lemma EmptyConditionHasNoFeatures()
    ensures ExtractFeatures("") == {}
  {
  }

  /** Before a non-word character, the `\b` flag makes no difference. */
  lemma FlagIrrelevantBeforeNonWord(r: string)
    requires r == [] || !IsWordChar(r[0])
    ensures Scan(r, true) == Scan(r, false)
  {
    if r != [] {
      assert !StartsWith(r, "defined");
    }
  }

  /** Separators (no word characters) produce nothing and reset the `\b` flag. */
  lemma {:induction false} SkipSeparators(a: string, r: string, afterWord: bool)
    requires a != [] && forall i :: 0 <= i < |a| ==> !IsWordChar(a[i])
    ensures Scan(a + r, afterWord) == Scan(r, false)
    decreases |a|
  {
    var s := a + r;
    assert s[0] == a[0];
    assert !StartsWith(s, "defined");
    assert s[1..] == a[1..] + r;
    if |a| > 1 {
      SkipSeparators(a[1..], r, false);
    }
  }

  /** `\s*` matches nothing before a character that is not whitespace. */
  lemma SkipNoSpace(s: string, i: nat)
    requires i < |s| && !IsSpace(s[i])
    ensures SkipSpace(s, i) == i
  {
  }

  /** `\s*` over the whitespace `w` at position `i` stops at the first character after it. */
  lemma SkipSpaceOver(s: string, i: nat, w: string)
    requires AllSpace(w) && OccursAt(s, i, w) && i + |w| < |s| && !IsSpace(s[i + |w|])
    ensures SkipSpace(s, i) == i + |w|
  {
    assert s[i..] == w + s[i + |w|..] by {
      forall t | 0 <= t < |w|
        ensures s[i..][t] == w[t]
      {
        assert s[i + t] == w[t];
      }
    }
    LeadingRunOfPrefix(w, s[i + |w|..], IsSpace);
  }


  /** The identifier `x` at position `j`, followed by a non-word character or the end, ends where `x` does. */
  lemma IdentEndOf(s: string, j: nat, x: string)
    requires IsIdent(x) && OccursAt(s, j, x)
    requires j + |x| == |s| || !IsWordChar(s[j + |x|])
    ensures j < |s| && IsIdentStart(s[j]) && IdentEnd(s, j) == j + |x|
  {
    var k := j + |x|;
    assert s[j + 0] == x[0];
    assert s[j + 1..] == x[1..] + s[k..] by {
      forall t | 0 <= t < |x| - 1
        ensures s[j + 1..][t] == x[1..][t]
      {
        assert s[j + (t + 1)] == x[t + 1];
      }
    }
    LeadingRunOfPrefix(x[1..], s[k..], IsWordChar);
  }

  /** The text `(` w2 x w3 `)` at position `i`, piece by piece. */
  predicate ParenPartsAt(s: string, i: nat, w2: string, x: string, w3: string) {
    var j := i + 1 + |w2|;
    var k := j + |x|;
    var m := k + |w3|;
    && m < |s| && s[i] == '(' && OccursAt(s, i + 1, w2) && OccursAt(s, j, x) && OccursAt(s, k, w3) && s[m] == ')'
  }

  /** An occurrence of `(` w2 x w3 `)` is its pieces in a row, and back. */
  lemma ParenPartsIff(s: string, i: nat, w2: string, x: string, w3: string)
    ensures OccursAt(s, i, "(" + w2 + x + w3 + ")") <==> ParenPartsAt(s, i, w2, x, w3)
  {
    var m := i + 1 + |w2| + |x| + |w3|;
    OccursAtConcat(s, i, "(" + w2 + x + w3, ")");
    OccursAtConcat(s, i, "(" + w2 + x, w3);
    OccursAtConcat(s, i, "(" + w2, x);
    OccursAtConcat(s, i, "(", w2);
    assert OccursAt(s, i, "(") <==> i < |s| && s[i] == '(' by {
      if i < |s| {
        assert s[i + 0] == s[i] && "("[0] == '(';
      }
    }
    assert OccursAt(s, m, ")") <==> m < |s| && s[m] == ')' by {
      if m < |s| {
        assert s[m + 0] == s[m] && ")"[0] == ')';
      }
    }
  }

  /** An occurrence of `x` at `j` is the slice of that length there. */
  lemma OccursAtSlice(s: string, j: nat, x: string)
    requires OccursAt(s, j, x)
    ensures s[j..j + |x|] == x
  {
  }

  /** A slice occurs where it was taken. */
  lemma SliceOccurs(s: string, j: nat, k: nat)
    requires j <= k <= |s|
    ensures OccursAt(s, j, s[j..k])
  {
  }

  /** A `(` at `i` and a `)` at `m` enclose the three slices cut at `j` and `k`. */
  lemma ParenPartsOfSlices(s: string, i: nat, j: nat, k: nat, m: nat)
    requires i < j <= k <= m < |s| && s[i] == '(' && s[m] == ')'
    ensures ParenPartsAt(s, i, s[i + 1..j], s[j..k], s[k..m])
  {
    SliceOccurs(s, i + 1, j);
    SliceOccurs(s, j, k);
    SliceOccurs(s, k, m);
  }

  /** `(`, whitespace, an identifier, whitespace and `)` at position `i`, as the positions the matcher reaches. */
  lemma ParenSteps(s: string, i: nat, w2: string, x: string, w3: string)
    requires IsIdent(x) && AllSpace(w2) && AllSpace(w3)
    requires OccursAt(s, i, "(" + w2 + x + w3 + ")")
    ensures var j := i + 1 + |w2|; var k := j + |x|; var m := k + |w3|;
      && i < |s| && s[i] == '(' && SkipSpace(s, i + 1) == j
      && j < |s| && IsIdentStart(s[j]) && IdentEnd(s, j) == k && s[j..k] == x
      && SkipSpace(s, k) == m && m < |s| && s[m] == ')'
  {
    var j := i + 1 + |w2|;
    var k := j + |x|;
    ParenPartsIff(s, i, w2, x, w3);
    assert s[j + 0] == x[0];
    SkipSpaceOver(s, i + 1, w2);
    if w3 != [] {
      assert s[k + 0] == w3[0];
    }
    IdentEndOf(s, j, x);
    SkipSpaceOver(s, k, w3);
    OccursAtSlice(s, j, x);
  }

  /** `(`, whitespace, an identifier, whitespace and `)` at position `i`: the identifier is captured and the match ends after the `)`. */
  lemma MatchParenIdentOn(s: string, i: nat, w2: string, x: string, w3: string)
    requires IsIdent(x) && AllSpace(w2) && AllSpace(w3)
    requires OccursAt(s, i, "(" + w2 + x + w3 + ")")
    ensures MatchParenIdent(s, i) == Some(DefinedCall(x, i + 2 + |w2| + |x| + |w3|))
  {
    var j := i + 1 + |w2|;
    var k := j + |x|;
    ParenSteps(s, i, w2, x, w3);
    MatchParenIdentAt(s, i, j, k, k + |w3|);
  }

  /** The steps of `\(\s*IDENT\s*\)` at `i`, position by position, give its match. */
  lemma MatchParenIdentAt(s: string, i: nat, j: nat, k: nat, m: nat)
    requires i < |s| && s[i] == '(' && SkipSpace(s, i + 1) == j
    requires j < |s| && IsIdentStart(s[j]) && IdentEnd(s, j) == k
    requires SkipSpace(s, k) == m && m < |s| && s[m] == ')'
    ensures MatchParenIdent(s, i) == Some(DefinedCall(s[j..k], m + 1))
  {
  }

  /** Conversely, every match of `\(\s*IDENT\s*\)` is `(`, whitespace, the captured identifier, whitespace and `)`. */
  lemma MatchParenIdentShape(s: string, i: nat) returns (w2: string, w3: string)
    requires i <= |s| && MatchParenIdent(s, i).Some?
    ensures var r := MatchParenIdent(s, i).value;
      && AllSpace(w2) && AllSpace(w3) && OccursAt(s, i, "(" + w2 + r.ident + w3 + ")")
      && r.length == i + 2 + |w2| + |r.ident| + |w3|
  {
    var r := MatchParenIdent(s, i).value;
    assert i < |s| && s[i] == '(';
    var j := SkipSpace(s, i + 1);
    assert j < |s| && IsIdentStart(s[j]);
    var k := IdentEnd(s, j);
    var m := SkipSpace(s, k);
    assert m < |s| && s[m] == ')' && r == DefinedCall(s[j..k], m + 1);
    w2, w3 := s[i + 1..j], s[k..m];
    assert AllSpace(w2) by {
      forall t | 0 <= t < |w2|
        ensures IsSpace(w2[t])
      {
        assert w2[t] == s[i + 1..][t];
      }
    }
    assert AllSpace(w3) by {
      forall t | 0 <= t < |w3|
        ensures IsSpace(w3[t])
      {
        assert w3[t] == s[k..][t];
      }
    }
    ParenPartsOfSlices(s, i, j, k, m);
    ParenPartsIff(s, i, w2, r.ident, w3);
  }

  /** `defined` w1 followed by `(` w2 x w3 `)`, as one occurrence or as two in a row. */
  lemma DefinedPartsIff(s: string, w1: string, w2: string, x: string, w3: string)
    ensures OccursAt(s, 0, "defined" + w1 + "(" + w2 + x + w3 + ")")
        <==> OccursAt(s, 0, "defined" + w1) && OccursAt(s, 7 + |w1|, "(" + w2 + x + w3 + ")")
  {
    var pre := "defined" + w1;
    OccursAtConcat(s, 0, pre + "(" + w2 + x + w3, ")");
    OccursAtConcat(s, 0, pre + "(" + w2 + x, w3);
    OccursAtConcat(s, 0, pre + "(" + w2, x);
    OccursAtConcat(s, 0, pre + "(", w2);
    OccursAtConcat(s, 0, pre, "(");
    ParenPartsIff(s, 7 + |w1|, w2, x, w3);
    OccursAtConcat(s, 7 + |w1|, "(", w2);
    OccursAtConcat(s, 7 + |w1|, "(" + w2, x);
    OccursAtConcat(s, 7 + |w1|, "(" + w2 + x, w3);
    OccursAtConcat(s, 7 + |w1|, "(" + w2 + x + w3, ")");
  }

  /** `defined` and the whitespace `w1`: the first alternative goes on with its parenthesis after `w1`. */
  lemma DefinedSteps(s: string, w1: string, w2: string, x: string, w3: string)
    requires IsIdent(x) && AllSpace(w1) && AllSpace(w2) && AllSpace(w3)
    requires OccursAt(s, 0, "defined" + w1 + "(" + w2 + x + w3 + ")")
    ensures StartsWith(s, "defined") && SkipSpace(s, 7) == 7 + |w1|
    ensures OccursAt(s, 7 + |w1|, "(" + w2 + x + w3 + ")")
  {
    var i := 7 + |w1|;
    DefinedPartsIff(s, w1, w2, x, w3);
    OccursAtConcat(s, 0, "defined", w1);
    ParenPartsIff(s, i, w2, x, w3);
    assert StartsWith(s, "defined");
    SkipSpaceOver(s, 7, w1);
  }

  /** After `defined` and its whitespace, the first alternative is the parenthesised identifier. */
  lemma MatchDefinedCallAt(s: string, i: nat)
    requires StartsWith(s, "defined") && SkipSpace(s, 7) == i
    ensures MatchDefinedCall(s) == MatchParenIdent(s, i)
  {
  }

  /** `defined`, whitespace, `(`, whitespace, an identifier, whitespace and `)` match the first alternative in full. */
  lemma MatchDefinedCallOn(s: string, w1: string, w2: string, x: string, w3: string)
    requires IsIdent(x) && AllSpace(w1) && AllSpace(w2) && AllSpace(w3)
    requires OccursAt(s, 0, "defined" + w1 + "(" + w2 + x + w3 + ")")
    ensures MatchDefinedCall(s) == Some(DefinedCall(x, 9 + |w1| + |w2| + |x| + |w3|))
  {
    DefinedSteps(s, w1, w2, x, w3);
    MatchDefinedCallAt(s, 7 + |w1|);
    MatchParenIdentOn(s, 7 + |w1|, w2, x, w3);
  }

  /** Conversely, every match of the first alternative is `defined`, whitespace and a parenthesised identifier. */
  lemma MatchDefinedCallShape(s: string) returns (w1: string, w2: string, w3: string)
    requires MatchDefinedCall(s).Some?
    ensures var r := MatchDefinedCall(s).value;
      && AllSpace(w1) && AllSpace(w2) && AllSpace(w3)
      && OccursAt(s, 0, "defined" + w1 + "(" + w2 + r.ident + w3 + ")")
      && r.length == 9 + |w1| + |w2| + |r.ident| + |w3|
  {
    var r := MatchDefinedCall(s).value;
    var i := SkipSpace(s, 7);
    assert MatchParenIdent(s, i) == Some(r);
    w1 := s[7..i];
    assert AllSpace(w1) by {
      forall t | 0 <= t < |w1|
        ensures IsSpace(w1[t])
      {
        assert w1[t] == s[7..][t];
      }
    }
    w2, w3 := MatchParenIdentShape(s, i);
    SliceOccurs(s, 7, i);
    assert OccursAt(s, 0, "defined");
    OccursAtConcat(s, 0, "defined", w1);
    DefinedPartsIff(s, w1, w2, r.ident, w3);
  }

  /** `defined ( IDENT )`, with any whitespace around the parentheses, yields IDENT and scanning resumes right after the `)`. */
  lemma DefinedCallYieldsIdent(w1: string, w2: string, x: string, w3: string, r: string)
    requires IsIdent(x) && AllSpace(w1) && AllSpace(w2) && AllSpace(w3)
    ensures Scan("defined" + w1 + "(" + w2 + x + w3 + ")" + r, false) == [x] + Scan(r, false)
  {
    var call := "defined" + w1 + "(" + w2 + x + w3 + ")";
    OccursAtStart(call, r);
    MatchDefinedCallOn(call + r, w1, w2, x, w3);
    ConcatSlices(call, r);
  }

  /** A whole identifier other than `defined` does not start a match of the first alternative. */
  lemma BareIdentIsNoDefinedCall(x: string, r: string)
    requires IsIdent(x) && x != "defined"
    requires r == [] || !IsWordChar(r[0])
    ensures MatchDefinedCall(x + r) == None
  {
    var s := x + r;
    if StartsWith(s, "defined") {
      if |x| < 7 {
        StartsWithCharAt(s, "defined", |x|);
        assert false;
      } else if |x| == 7 {
        assert false;
      } else {
        assert s[7] == x[7];
        SkipNoSpace(s, 7);
      }
    }
  }

  /** Where the first alternative does not apply, an identifier is taken greedily. */
  lemma ScanIdentStep(s: string, afterWord: bool)
    requires s != [] && IsIdentStart(s[0])
    requires afterWord || MatchDefinedCall(s) == None
    ensures var n := 1 + LeadingRun(s[1..], IsWordChar);
      n <= |s| && Scan(s, afterWord) == [s[..n]] + Scan(s[n..], true)
  {
  }

  /** A whole identifier other than `defined` is taken greedily as one feature. */
  lemma BareIdentYieldsIdent(x: string, r: string)
    requires IsIdent(x) && x != "defined"
    requires r == [] || !IsWordChar(r[0])
    ensures Scan(x + r, false) == [x] + Scan(r, false)
  {
    var s := x + r;
    BareIdentIsNoDefinedCall(x, r);
    assert s[0] == x[0];
    ScanIdentStep(s, false);
    ConcatSlices(x, r);
    LeadingRunOfPrefix(x[1..], r, IsWordChar);
    FlagIrrelevantBeforeNonWord(r);
  }

  /** A condition that is a single identifier yields exactly that identifier (`defined` included). */
  lemma SingleIdent(x: string)
    requires IsIdent(x)
    ensures Scan(x, false) == [x]
  {
    assert MatchDefinedCall(x) == None by {
      if StartsWith(x, "defined") && |x| > 7 {
        assert LeadingRun(x[7..], IsSpace) == 0;
      }
    }
    assert x[1..] == x[1..] + [];
    LeadingRunOfPrefix(x[1..], [], IsWordChar);
    assert x[..|x|] == x;
  }

  /** The features of a condition that is one identifier are that identifier. */
  lemma SingleIdentFeatures(x: string)
    requires IsIdent(x)
    ensures ExtractFeatures(x) == {x}
  {
    SingleIdent(x);
    assert x != "" && !IsDigits(x) by {
      assert !IsDigit(x[0]);
    }
    assert KeptCaptures([x]) == {x} + KeptCaptures([]) by {
      assert [x][1..] == [];
    }
  }

  /**
   * The `defined()` wrapper is transparent: `defined ( FOO )`, with any
   * whitespace, followed by any rest gives the same features as bare `FOO`
   * followed by that rest.
   */
  lemma DefinedWrapperTransparent(w1: string, w2: string, x: string, w3: string, r: string)
    requires IsIdent(x) && x != "defined" && AllSpace(w1) && AllSpace(w2) && AllSpace(w3)
    requires r == [] || !IsWordChar(r[0])
    ensures ExtractFeatures("defined" + w1 + "(" + w2 + x + w3 + ")" + r) == ExtractFeatures(x + r) == {x} + ExtractFeatures(r)
  {
    DefinedCallYieldsIdent(w1, w2, x, w3, r);
    BareIdentYieldsIdent(x, r);
    FilterKeepsEveryCapture("defined" + w1 + "(" + w2 + x + w3 + ")" + r);
    FilterKeepsEveryCapture(x + r);
    FilterKeepsEveryCapture(r);
  }

  /** `defined` followed by whitespace and an identifier is no match of the first alternative. */
  lemma DefinedSpaceIdentIsNoCall(w: string, x: string)
    requires AllSpace(w) && w != [] && IsIdent(x)
    ensures MatchDefinedCall("defined" + w + x) == None
  {
    var s := "defined" + w + x;
    assert s[..7] == "defined";
    assert s[7..] == w + x;
    LeadingRunOfPrefix(w, x, IsSpace);
    assert s[7 + |w|] == x[0];
  }

  /** Quirk: without parentheses, `defined X` yields the feature `defined` as well as X. */
  lemma DefinedWithoutParens(w: string, x: string)
    requires AllSpace(w) && w != [] && IsIdent(x)
    ensures Scan("defined" + w + x, false) == ["defined", x]
  {
    var s := "defined" + w + x;
    DefinedSpaceIdentIsNoCall(w, x);
    assert s[1..] == "efined" + (w + x);
    assert !IsWordChar((w + x)[0]);
    LeadingRunOfPrefix("efined", w + x, IsWordChar);
    assert s[..7] == "defined" && s[7..] == w + x;
    assert forall i :: 0 <= i < |w| ==> !IsWordChar(w[i]);
    SkipSeparators(w, x, true);
    SingleIdent(x);
  }

  /** Quirk: a leading digit is skipped and the rest of the word is a feature (`0x10` yields `x10`). */
  lemma DigitThenIdent(d: char, x: string)
    requires IsDigit(d) && IsIdent(x)
    ensures Scan([d] + x, false) == [x]
  {
    var s := [d] + x;
    assert !StartsWith(s, "defined");
    assert s[1..] == x;
    assert Scan(x, true) == [x] by {
      assert x[1..] == x[1..] + [];
      LeadingRunOfPrefix(x[1..], [], IsWordChar);
      assert x[..|x|] == x;
    }
  }

  /** Separators followed by an identifier give exactly that identifier. */
  lemma SeparatorsThenIdent(a: string, y: string)
    requires a != [] && forall i :: 0 <= i < |a| ==> !IsWordChar(a[i])
    requires IsIdent(y)
    ensures ExtractFeatures(a + y) == {y}
  {
    SingleIdent(y);
    SkipSeparators(a, y, false);
    FilterKeepsEveryCapture(a + y);
  }

  /** Worked example: `defined(X) && Y`, `defined ( X ) && Y` and `X && Y` all give {X, Y}. */
  lemma ExampleConjunction(x: string, y: string, w: string)
    requires IsIdent(x) && IsIdent(y) && x != "defined" && AllSpace(w)
    ensures ExtractFeatures("defined" + w + "(" + w + x + w + ")" + (" && " + y)) == {x, y}
    ensures ExtractFeatures(x + (" && " + y)) == {x, y}
  {
    SeparatorsThenIdent(" && ", y);
    DefinedWrapperTransparent(w, w, x, w, " && " + y);
  }

  /** Worked example: `0x10` gives {x10}. */
  lemma ExampleHexLiteral()
    ensures ExtractFeatures("0x10") == {"x10"}
  {
    var x := "x10";
    assert IsIdent(x);
    DigitThenIdent('0', x);
    assert "0x10" == ['0'] + x;
    FilterKeepsEveryCapture("0x10");
  }

  /** Worked example: a repeated feature collapses, `X || X` gives {X}. */
  lemma ExampleDuplicates(x: string)
    requires IsIdent(x) && x != "defined"
    ensures ExtractFeatures(x + " || " + x) == {x}
  {
    var or := " || ";
    SingleIdent(x);
    SkipSeparators(or, x, false);
    BareIdentYieldsIdent(x, or + x);
    assert x + " || " + x == x + (or + x);
    FilterKeepsEveryCapture(x + " || " + x);
  }
}
