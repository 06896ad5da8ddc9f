/**
 * The G-code tokeniser of `CodeAnalyzer._analyze_gcode_line`:
 * `re.findall(r'\bG([0-9]{1,2})\b', line)`, a left-to-right scan for a
 * whole-word `G` followed by one or two digits, returning the digits.
 */
module GcodeScanning {
  import opened Text

  /**
   * The pattern matches at the start of `s` with `k` digits: `G`, `k` digits
   * (one or two) and the closing `\b` (end of text or a non-word character).
   */
  predicate MatchesWithDigits(s: string, k: nat) {
    && 1 <= k <= 2
    && 1 + k <= |s|
    && s[0] == 'G'
    && (forall i :: 1 <= i <= k ==> IsDigit(s[i]))
    && (1 + k == |s| || !IsWordChar(s[1 + k]))
  }

  /**
   * Number of digits matched at the start of `s`, or 0 when the pattern does
   * not match there. The digit run after `G` must be exactly one or two long:
   * a third digit defeats the closing `\b` for both choices of `{1,2}`.
   */
  function GcodeDigitsAt(s: string): (n: nat)
    ensures n <= 2
  {
    if s == [] || s[0] != 'G' then 0
    else
      var run := LeadingRun(s[1..], IsDigit);
      if 1 <= run <= 2 && (1 + run == |s| || !IsWordChar(s[1 + run])) then run else 0
  }

  /** `GcodeDigitsAt` is the regex's answer: the only `k` for which the pattern matches, if any. */
  lemma GcodeDigitsAtIff(s: string, k: nat)
    ensures MatchesWithDigits(s, k) <==> (k > 0 && GcodeDigitsAt(s) == k)
  {
    if s != [] && s[0] == 'G' {
      var run := LeadingRun(s[1..], IsDigit);
      assert forall i :: 1 <= i <= run ==> IsDigit(s[i]) by {
        forall i | 1 <= i <= run ensures IsDigit(s[i]) {
          assert s[i] == s[1..][i - 1];
        }
      }
      assert 1 + run < |s| ==> !IsDigit(s[1 + run]) by {
        if 1 + run < |s| {
          assert s[1 + run] == s[1..][run];
        }
      }
    }
  }

  /**
   * `re.findall` on the pattern: scan left to right; after a match continue
   * behind it, otherwise one character further. `afterWord` records whether
   * the character before `s` is a word character, which defeats the leading `\b`.
   */
  function FindGcodes(s: string, afterWord: bool): seq<string>
    decreases |s|
  {
    if s == [] then []
    else
      var n := if afterWord then 0 else GcodeDigitsAt(s);
      if n > 0 then [s[1..1 + n]] + FindGcodes(s[1 + n..], true)
      else FindGcodes(s[1..], IsWordChar(s[0]))
  }

  /** Every capture is a run of one or two digits. */
  lemma {:induction false} FindGcodesAreDigits(s: string, afterWord: bool)
    ensures forall m :: m in FindGcodes(s, afterWord) ==> IsDigits(m) && |m| <= 2
    decreases |s|
  {
    if s != [] {
      var n := if afterWord then 0 else GcodeDigitsAt(s);
      if n > 0 {
        FindGcodesAreDigits(s[1 + n..], true);
        assert forall i :: 0 <= i < n ==> s[1..1 + n][i] == s[1..][i];
      } else {
        FindGcodesAreDigits(s[1..], IsWordChar(s[0]));
      }
    }
  }

  /**
   * The digits the pattern captures at the very start of `t`, if it matches
   * there; `afterWord` says whether the character before `t` is a word character.
   */
  function CaptureHere(t: string, afterWord: bool): seq<string>
  {
    var n := if afterWord then 0 else GcodeDigitsAt(t);
    if n > 0 then [t[1..1 + n]] else []
  }

  /**
   * Reference definition: the captures at every position of `t`, in order,
   * trying each position in turn with no skipping after a match.
   */
  function AllCaptures(t: string, afterWord: bool): seq<string>
    decreases |t|
  {
    if t == [] then [] else CaptureHere(t, afterWord) + AllCaptures(t[1..], IsWordChar(t[0]))
  }

  /** A match lies inside `t`, and its `G` and digits are all word characters. */
  lemma {:induction false} MatchIsWordChars(t: string, n: nat)
    requires n > 0 && GcodeDigitsAt(t) == n
    ensures 1 + n <= |t|
    ensures forall k :: 0 <= k <= n ==> IsWordChar(t[k])
  {
    forall k | 1 <= k <= n
      ensures IsWordChar(t[k])
    {
      assert t[k] == t[1..][k - 1];
    }
  }

  /** Positions preceded by a word character capture nothing: a run of word characters is skipped. */
  lemma {:induction false} SkipAfterWord(u: string, k: nat)
    requires k <= |u|
    requires forall j :: 0 <= j < k ==> IsWordChar(u[j])
    ensures AllCaptures(u, true) == AllCaptures(u[k..], true)
    decreases k
  {
    if k > 0 {
      assert forall j :: 0 <= j < k - 1 ==> u[1..][j] == u[j + 1];
      SkipAfterWord(u[1..], k - 1);
      assert u[1..][k - 1..] == u[k..];
    }
  }

  /** At a match the reference captures the digits, and nothing from the positions they cover. */
  lemma {:induction false} AllCapturesAtMatch(t: string, n: nat)
    requires n > 0 && GcodeDigitsAt(t) == n
    ensures 1 + n <= |t|
    ensures AllCaptures(t, false) == [t[1..1 + n]] + AllCaptures(t[1 + n..], true)
  {
    MatchIsWordChars(t, n);
    assert forall j :: 0 <= j < n ==> t[1..][j] == t[j + 1];
    SkipAfterWord(t[1..], n);
    assert t[1..][n..] == t[1 + n..];
  }

  /**
   * The scanner finds the capture of every position where the pattern
   * matches, left to right: the positions it skips after a match are preceded
   * by a word character and can never match.
   */
  lemma {:induction false} FindGcodesIsEveryCapture(t: string, afterWord: bool)
    ensures FindGcodes(t, afterWord) == AllCaptures(t, afterWord)
    decreases |t|
  {
    if t != [] {
      var n := if afterWord then 0 else GcodeDigitsAt(t);
      if n > 0 {
        AllCapturesAtMatch(t, n);
        FindGcodesIsEveryCapture(t[1 + n..], true);
      } else {
        FindGcodesIsEveryCapture(t[1..], IsWordChar(t[0]));
      }
    }
  }

  /** A line without the letter `G` holds no instruction. */
  lemma {:induction false} NoLetterGNoCaptures(s: string, afterWord: bool)
    requires 'G' !in s
    ensures FindGcodes(s, afterWord) == []
    decreases |s|
  {
    if s != [] {
      assert forall c :: c in s[1..] ==> c in s;
      NoLetterGNoCaptures(s[1..], IsWordChar(s[0]));
    }
  }

  /** Text without `G` is skipped, and what follows is scanned after its last character. */
  lemma {:induction false} SkipWithoutG(pre: string, rest: string, afterWord: bool)
    requires pre != [] && 'G' !in pre
    ensures FindGcodes(pre + rest, afterWord) == FindGcodes(rest, IsWordChar(pre[|pre| - 1]))
    decreases |pre|
  {
    assert (pre + rest)[0] == pre[0] && (pre + rest)[1..] == pre[1..] + rest;
    if |pre| > 1 {
      assert forall c :: c in pre[1..] ==> c in pre;
      SkipWithoutG(pre[1..], rest, IsWordChar(pre[0]));
    }
  }

  /** `G`, one or two digits and a word boundary: the pattern matches with exactly those digits. */
  lemma DigitsOfWholeGcode(digits: string, rest: string)
    requires 1 <= |digits| <= 2 && IsDigits(digits)
    requires rest == [] || !IsWordChar(rest[0])
    ensures GcodeDigitsAt("G" + digits + rest) == |digits|
  {
    var s := "G" + digits + rest;
    assert s[1..] == digits + rest;
    LeadingRunOfPrefix(digits, rest, IsDigit);
    assert 1 + |digits| < |s| ==> s[1 + |digits|] == rest[0];
  }

  /** A whole-word `G` with one or two digits yields exactly those digits, leading zeros kept. */
  lemma WholeGcodeFound(digits: string, rest: string)
    requires 1 <= |digits| <= 2 && IsDigits(digits)
    requires rest == [] || !IsWordChar(rest[0])
    ensures FindGcodes("G" + digits + rest, false) == [digits] + FindGcodes(rest, true)
  {
    var s := "G" + digits + rest;
    DigitsOfWholeGcode(digits, rest);
    assert s[1..1 + |digits|] == digits && s[1 + |digits|..] == rest;
  }

  /** Leading zeros are kept: `G01` and `G1` are different instructions. */
  lemma LeadingZeroKept()
    ensures FindGcodes("G01", false) == ["01"]
    ensures FindGcodes("G1", false) == ["1"]
  {
    WholeGcodeFound("01", "");
    WholeGcodeFound("1", "");
    assert "G01" == "G" + "01" + "" && "G1" == "G" + "1" + "";
  }

  /** Three digits defeat the closing `\b`: `G123` is no instruction. */
  lemma ThreeDigitsIgnored()
    ensures FindGcodes("G123", false) == []
  {
    var s := "G123";
    assert s[1..] == "123";
    assert LeadingRun("123", IsDigit) == 3;
    assert GcodeDigitsAt(s) == 0;
    NoLetterGNoCaptures("123", true);
  }

  /** A word character before `G` defeats the leading `\b`: `XG1`, `_G1` and `GG1` are no instructions. */
  lemma WordBeforeIgnored(c: char)
    requires IsWordChar(c)
    ensures FindGcodes([c] + "G1", false) == []
  {
    var s := [c] + "G1";
    assert s[1..] == "G1";
    if c == 'G' {
      assert !IsDigit(s[1..][0]);
      assert GcodeDigitsAt(s) == 0;
    }
    assert "G1"[1..] == "1";
    NoLetterGNoCaptures("1", true);
  }

  /** A word character after the digits defeats the closing `\b`: `G1a` is no instruction. */
  lemma WordAfterIgnored()
    ensures FindGcodes("G1a", false) == []
  {
    var s := "G1a";
    assert s[1..] == "1a";
    assert LeadingRun("1a", IsDigit) == 1;
    assert GcodeDigitsAt(s) == 0;
    NoLetterGNoCaptures("1a", true);
  }

  /** The pattern is case sensitive: `g1` is no instruction. */
  lemma LowerCaseIgnored()
    ensures FindGcodes("g1", false) == []
  {
    NoLetterGNoCaptures("g1", false);
  }

  /** Several instructions on a line, a comment included, are found in order. */
  lemma SeveralOnOneLine()
    ensures FindGcodes("G" + "28" + " X0; " + "G" + "1", false) == ["28", "1"]
  {
    var gap, last := " X0; ", "G" + "1";
    assert IsDigits("28") && IsDigits("1");
    assert gap[|gap| - 1] == ' ' && 'G' !in gap;
    SkipWithoutG(gap, last, true);
    WholeGcodeFound("1", "");
    assert last == "G" + "1" + "";
    WholeGcodeFound("28", gap + last);
    assert "G" + "28" + " X0; " + "G" + "1" == "G" + "28" + (gap + last);
  }

  /** Two whole instructions, each after text without `G` that ends in a separator, are found in order. */
  lemma {:induction false} TwoAfterGaps(lead: string, d1: string, gap: string, d2: string, trail: string)
    requires lead != [] && 'G' !in lead && !IsWordChar(lead[|lead| - 1])
    requires gap != [] && 'G' !in gap && !IsWordChar(gap[0]) && !IsWordChar(gap[|gap| - 1])
    requires 1 <= |d1| <= 2 && IsDigits(d1) && 1 <= |d2| <= 2 && IsDigits(d2)
    requires 'G' !in trail && (trail == [] || !IsWordChar(trail[0]))
    ensures FindGcodes(lead + ("G" + d1 + (gap + ("G" + d2 + trail))), false) == [d1, d2]
  {
    var tail := "G" + d2 + trail;
    NoLetterGNoCaptures(trail, true);
    WholeGcodeFound(d2, trail);
    SkipWithoutG(gap, tail, true);
    assert (gap + tail)[0] == gap[0];
    WholeGcodeFound(d1, gap + tail);
    SkipWithoutG(lead, "G" + d1 + (gap + tail), false);
  }

  /** A line that is entirely a comment is scanned like any other line. */
  lemma CommentLineScanned()
    ensures FindGcodes("// G" + "1 move to G" + "28 home", false) == ["1", "28"]
  {
    var lead, gap, trail := "// ", " move to ", " home";
    assert "// G" + "1 move to G" + "28 home" == lead + ("G" + "1" + (gap + ("G" + "28" + trail)));
    assert IsDigits("28") && IsDigits("1");
    TwoAfterGaps(lead, "1", gap, "28", trail);
  }
}
