/**
 * The directive recogniser of `CodeAnalyzer._analyze_directive`: an anchored
 * match of `#`, optional whitespace, one of eight keywords as a whole word,
 * optional whitespace and an optional word run, the macro.
 */
module DirectiveSyntax {
  import opened Wrappers
  import opened Text

  /** The eight keywords of the directive group. */
  datatype Directive = IfDef | IfNDef | If | Elif | Else | EndIf | Define | Undef

  function Spelling(d: Directive): string {
    match d
    case IfDef => "ifdef"
    case IfNDef => "ifndef"
    case If => "if"
    case Elif => "elif"
    case Else => "else"
    case EndIf => "endif"
    case Define => "define"
    case Undef => "undef"
  }

  /** The alternatives of the group, in the order the pattern lists them. */
  const Alternatives: seq<Directive> := [IfDef, IfNDef, If, Elif, Else, EndIf, Define, Undef]

  /** `s` begins with the word `w` followed by a word boundary. */
  predicate WholeWordAt(s: string, w: string) {
    StartsWith(s, w) && (|s| == |w| || !IsWordChar(s[|w|]))
  }

  /** `s` begins with the keyword of `d` and the `\b` after the group holds. */
  predicate KeywordAt(s: string, d: Directive) {
    WholeWordAt(s, Spelling(d))
  }

  /** The first alternative, in the order given, that matches at the start of `s`. */
  function FirstKeyword(s: string, alts: seq<Directive>): (r: Option<Directive>)
    ensures r.Some? ==> r.value in alts && KeywordAt(s, r.value)
    ensures r.None? ==> forall d :: d in alts ==> !KeywordAt(s, d)
  {
    if alts == [] then None
    else if KeywordAt(s, alts[0]) then Some(alts[0])
    else FirstKeyword(s, alts[1..])
  }

  /** `group(1)` and `group(2)` of a successful match. */
  datatype DirectiveMatch = DirectiveMatch(directive: Directive, macro: Option<string>)

  /** What follows `#` and the whitespace after it. */
  function KeywordStart(line: string): string
    requires line != []
  {
    var afterHash := line[1..];
    afterHash[LeadingRun(afterHash, IsSpace)..]
  }

  /** `\s*(\w+)?` after the keyword: the word run after the whitespace, if any. */
  function MacroAfter(tail: string): (r: Option<string>)
    ensures r.Some? ==> IsWordRun(r.value)
  {
    var word := tail[LeadingRun(tail, IsSpace)..];
    var n := LeadingRun(word, IsWordChar);
    if n == 0 then None else Some(word[..n])
  }

  /** `re.match(r'#\s*(ifdef|ifndef|if|elif|else|endif|define|undef)\b\s*(\w+)?', line)`. */
  function MatchDirective(line: string): (r: Option<DirectiveMatch>)
    ensures r.Some? ==> line != [] && line[0] == '#'
    ensures r.Some? && r.value.macro.Some? ==> IsWordRun(r.value.macro.value)
  {
    if line == [] || line[0] != '#' then None
    else
      var start := KeywordStart(line);
      match FirstKeyword(start, Alternatives)
      case None => None
      case Some(d) => Some(DirectiveMatch(d, MacroAfter(start[|Spelling(d)|..])))
  }

  /** Two different words cannot both start the same text as whole words. */
  lemma WholeWordsExclusive(s: string, p: string, q: string)
    requires IsWordRun(p) && IsWordRun(q) && p != q
    requires WholeWordAt(s, p)
    ensures !WholeWordAt(s, q)
  {
    if |q| < |p| && |q| < |s| {
      assert s[|q|] == p[|q|];
    }
  }

  lemma SpellingIsWord(d: Directive)
    ensures IsWordRun(Spelling(d))
  {
  }

  /** At most one keyword matches, so the order of the alternatives never matters. */
  lemma KeywordUnique(s: string, d1: Directive, d2: Directive)
    requires KeywordAt(s, d1) && KeywordAt(s, d2)
    ensures d1 == d2
  {
    if d1 != d2 {
      SpellingIsWord(d1);
      SpellingIsWord(d2);
      assert Spelling(d1) != Spelling(d2);
      WholeWordsExclusive(s, Spelling(d1), Spelling(d2));
      assert false;
    }
  }

  /** Whichever alternative matches is the one found. */
  lemma {:induction false} FirstKeywordFinds(s: string, alts: seq<Directive>, d: Directive)
    requires d in alts && KeywordAt(s, d)
    ensures FirstKeyword(s, alts) == Some(d)
  {
    if KeywordAt(s, alts[0]) {
      KeywordUnique(s, alts[0], d);
    } else {
      FirstKeywordFinds(s, alts[1..], d);
    }
  }

  /**
   * A line is a directive of kind `d` exactly when it starts with `#`, and
   * after the whitespace following it, the keyword of `d` stands as a whole word.
   */
  lemma MatchDirectiveIff(line: string, d: Directive)
    ensures (MatchDirective(line).Some? && MatchDirective(line).value.directive == d)
        <==> (line != [] && line[0] == '#' && KeywordAt(KeywordStart(line), d))
  {
    if line != [] && line[0] == '#' && KeywordAt(KeywordStart(line), d) {
      assert d in Alternatives;
      FirstKeywordFinds(KeywordStart(line), Alternatives, d);
    }
  }

  /** What follows `#` and whitespace is the keyword start. */
  lemma KeywordStartAfter(gap: string, start: string)
    requires AllSpace(gap) && start != [] && !IsSpace(start[0])
    ensures KeywordStart("#" + gap + start) == start
  {
    assert ("#" + gap + start)[1..] == gap + start;
    LeadingRunOfPrefix(gap, start, IsSpace);
    assert (gap + start)[|gap|..] == start;
  }

  /** A line whose keyword start holds keyword `d` as a whole word matches as `d`, with the macro after it. */
  lemma MatchAtKeyword(gap: string, start: string, d: Directive)
    requires AllSpace(gap) && KeywordAt(start, d)
    ensures MatchDirective("#" + gap + start) == Some(DirectiveMatch(d, MacroAfter(start[|Spelling(d)|..])))
  {
    SpellingIsWord(d);
    assert start[0] == Spelling(d)[0];
    KeywordStartAfter(gap, start);
    assert d in Alternatives;
    FirstKeywordFinds(start, Alternatives, d);
  }

  /** The macro is the whole word run after whitespace. */
  lemma MacroAfterWord(sep: string, macro: string, rest: string)
    requires AllSpace(sep) && IsWordRun(macro)
    requires rest == [] || !IsWordChar(rest[0])
    ensures MacroAfter(sep + macro + rest) == Some(macro)
  {
    var tail := sep + macro + rest;
    assert tail == sep + (macro + rest);
    LeadingRunOfPrefix(sep, macro + rest, IsSpace);
    assert tail[|sep|..] == macro + rest;
    LeadingRunOfPrefix(macro, rest, IsWordChar);
    assert (macro + rest)[..|macro|] == macro;
  }

  /** No macro when whitespace is followed by anything but a word character. */
  lemma MacroAfterNoWord(sep: string, rest: string)
    requires AllSpace(sep)
    requires rest == [] || (!IsWordChar(rest[0]) && !IsSpace(rest[0]))
    ensures MacroAfter(sep + rest) == None
  {
    LeadingRunOfPrefix(sep, rest, IsSpace);
    assert (sep + rest)[|sep|..] == rest;
  }

  /** `#`, whitespace, the keyword, at least one whitespace and a word run: the word run is the macro. */
  lemma MatchDirectiveOf(gap: string, d: Directive, sep: string, macro: string, rest: string)
    requires AllSpace(gap) && AllSpace(sep) && sep != []
    requires IsWordRun(macro)
    requires rest == [] || !IsWordChar(rest[0])
    ensures MatchDirective("#" + gap + Spelling(d) + sep + macro + rest) == Some(DirectiveMatch(d, Some(macro)))
  {
    var w, tail := Spelling(d), sep + macro + rest;
    var start := w + tail;
    assert "#" + gap + w + sep + macro + rest == "#" + gap + start;
    assert start[..|w|] == w && start[|w|] == sep[0];
    MatchAtKeyword(gap, start, d);
    assert start[|w|..] == tail;
    MacroAfterWord(sep, macro, rest);
  }

  /** With nothing word-like after the keyword there is no macro (`#else`, `#if (X)`, `#endif // X`). */
  lemma MatchDirectiveWithoutMacro(gap: string, d: Directive, sep: string, rest: string)
    requires AllSpace(gap) && AllSpace(sep)
    requires rest == [] || (!IsWordChar(rest[0]) && !IsSpace(rest[0]))
    ensures MatchDirective("#" + gap + Spelling(d) + sep + rest) == Some(DirectiveMatch(d, None))
  {
    var w, tail := Spelling(d), sep + rest;
    var start := w + tail;
    assert "#" + gap + w + sep + rest == "#" + gap + start;
    assert start[..|w|] == w;
    assert |start| == |w| || start[|w|] == tail[0];
    MatchAtKeyword(gap, start, d);
    assert start[|w|..] == tail;
    MacroAfterNoWord(sep, rest);
  }

  /** `#if defined(X)`: the macro group captures the word `defined`. */
  lemma IfDefinedCapturesDefined(x: string)
    ensures MatchDirective("#if defined(" + x + ")") == Some(DirectiveMatch(If, Some("defined")))
  {
    assert "#if defined(" + x + ")" == "#" + "" + Spelling(If) + " " + "defined" + ("(" + x + ")");
    MatchDirectiveOf("", If, " ", "defined", "(" + x + ")");
  }

  /** No keyword begins with the letters `in`. */
  lemma NoKeywordBeforeIn(s: string)
    requires |s| >= 2 && s[0] == 'i' && s[1] == 'n'
    ensures forall d :: !KeywordAt(s, d)
  {
  }

  /** `#include` shares its first letter with `#if` but is no directive here. */
  lemma IncludeIsNoDirective(rest: string)
    ensures MatchDirective("#include" + rest) == None
  {
    var line := "#include" + rest;
    assert line[0] == '#' && line[1] == 'i' && line[2] == 'n';
    assert KeywordStart(line) == line[1..];
    NoKeywordBeforeIn(line[1..]);
  }
}
