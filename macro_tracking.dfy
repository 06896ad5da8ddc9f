/**
 * The run-wide preprocessor state of `CodeAnalyzer` (gcode_parser_marlin.py):
 * a count per directive keyword, the set of macros defined so far, a count of
 * `#ifdef`/`#ifndef` tests of macros not defined at that moment, and the stack
 * of open conditions. `ApplyDirective` is what `_analyze_directive` does to
 * that state for one stripped line; `RunLines` is the directive part of
 * `analyze_file` over the lines of one file. None of this state is reset
 * between files.
 */
module MacroTracking {
  import opened Wrappers
  import opened Text
  import opened Tally
  import opened DirectiveSyntax

  /** An entry of `condition_stack`: `(directive, macro, file_path, line_num)`. */
  datatype Frame = Frame(directive: Directive, macro: Option<string>, file: string, line: nat)

  /** `directive_counts`, `defined_macros`, `undefined_macros` and `condition_stack`. */
  datatype MacroState = MacroState(
    counts: map<Directive, nat>,
    defined: set<string>,
    undefinedUses: map<string, nat>,
    stack: seq<Frame>)

  /** The state of a fresh analyzer. */
  const Initial := MacroState(map[], {}, map[], [])

  /** `#ifdef`, `#ifndef` and `#if` push a frame. */
  predicate Pushes(d: Directive) {
    d == IfDef || d == IfNDef || d == If
  }

  /** `#ifdef` and `#ifndef` test a macro by name. */
  predicate TestsMacro(d: Directive) {
    d == IfDef || d == IfNDef
  }

  /** `defined_macros` after a matched directive. */
  function DefinedAfter(defined: set<string>, m: DirectiveMatch): set<string> {
    if m.directive == Define && m.macro.Some? then defined + {m.macro.value}
    else if m.directive == Undef && m.macro.Some? then defined - {m.macro.value}
    else defined
  }

  /** `undefined_macros` after a matched directive, judged against the macros defined before it. */
  function UndefinedUsesAfter(uses: map<string, nat>, defined: set<string>, m: DirectiveMatch): map<string, nat> {
    if TestsMacro(m.directive) && m.macro.Some? && m.macro.value !in defined then Bump(uses, m.macro.value)
    else uses
  }

  /** `condition_stack` after a matched directive. */
  function StackAfter(stack: seq<Frame>, m: DirectiveMatch, file: string, lineNum: nat): seq<Frame> {
    if Pushes(m.directive) then stack + [Frame(m.directive, m.macro, file, lineNum)]
    else if m.directive == EndIf && stack != [] then stack[..|stack| - 1]
    else stack
  }

  /** The effect of one recognised directive. */
  function ApplyMatch(st: MacroState, m: DirectiveMatch, file: string, lineNum: nat): MacroState {
    MacroState(
      Bump(st.counts, m.directive),
      DefinedAfter(st.defined, m),
      UndefinedUsesAfter(st.undefinedUses, st.defined, m),
      StackAfter(st.stack, m, file, lineNum))
  }

  /** `_analyze_directive(line, file_path, line_num)` on the state. */
  function ApplyDirective(st: MacroState, line: string, file: string, lineNum: nat): MacroState {
    match MatchDirective(line)
    case None => st
    case Some(m) => ApplyMatch(st, m, file, lineNum)
  }

  /** The directive part of `analyze_file`: every line stripped, numbered from 1. */
  function RunLines(st: MacroState, file: string, lines: seq<string>): MacroState
    decreases |lines|
  {
    if lines == [] then st
    else ApplyDirective(RunLines(st, file, lines[..|lines| - 1]), Strip(lines[|lines| - 1]), file, |lines|)
  }

  /** A line that is no directive changes nothing. */
  lemma {:induction false} NonDirectiveInert(st: MacroState, line: string, file: string, lineNum: nat)
    requires MatchDirective(line) == None
    ensures ApplyDirective(st, line, file, lineNum) == st
  {
  }

  /** A line that does not start with `#` is no directive. */
  lemma NoHashNoDirective(line: string)
    requires line == [] || line[0] != '#'
    ensures MatchDirective(line) == None
  {
  }

  /** Every recognised directive, `#endif`, `#define` and `#undef` included, adds one to its own count only. */
  lemma {:induction false} CountsOneMore(st: MacroState, m: DirectiveMatch, file: string, lineNum: nat)
    ensures var r := ApplyMatch(st, m, file, lineNum);
            forall d :: Get(r.counts, d) == Get(st.counts, d) + (if m.directive == d then 1 else 0)
  {
  }

  /** `#define M` puts M in the set and leaves the rest of the macro state as it was. */
  lemma {:induction false} DefineAdds(st: MacroState, macro: string, file: string, lineNum: nat)
    ensures var r := ApplyMatch(st, DirectiveMatch(Define, Some(macro)), file, lineNum);
            r.defined == st.defined + {macro} && r.undefinedUses == st.undefinedUses && r.stack == st.stack
  {
  }

  /** Defining a macro twice is defining it once. */
  lemma {:induction false} DefineIdempotent(st: MacroState, macro: string, file: string, n1: nat, n2: nat)
    ensures var m := DirectiveMatch(Define, Some(macro));
            ApplyMatch(ApplyMatch(st, m, file, n1), m, file, n2).defined == ApplyMatch(st, m, file, n1).defined
  {
    assert st.defined + {macro} + {macro} == st.defined + {macro};
  }

  /** `#undef M` takes M out of the set; when M is absent the set is unchanged. */
  lemma {:induction false} UndefRemoves(st: MacroState, macro: string, file: string, lineNum: nat)
    ensures var r := ApplyMatch(st, DirectiveMatch(Undef, Some(macro)), file, lineNum);
            && r.defined == st.defined - {macro}
            && (macro !in st.defined ==> r.defined == st.defined)
  {
    assert macro !in st.defined ==> st.defined - {macro} == st.defined;
  }

  /** Without a macro, no directive touches the defined set or the undefined uses. */
  lemma {:induction false} NoMacroKeepsMacros(st: MacroState, d: Directive, file: string, lineNum: nat)
    ensures var r := ApplyMatch(st, DirectiveMatch(d, None), file, lineNum);
            r.defined == st.defined && r.undefinedUses == st.undefinedUses
  {
  }

  /**
   * `#ifdef M` and `#ifndef M` count one use of M exactly when M is not
   * defined at that moment; no other macro's count moves.
   */
  lemma {:induction false} UndefinedUseIff(st: MacroState, d: Directive, macro: string, file: string, lineNum: nat)
    requires TestsMacro(d)
    ensures var r := ApplyMatch(st, DirectiveMatch(d, Some(macro)), file, lineNum);
            && (Get(r.undefinedUses, macro) == Get(st.undefinedUses, macro) + 1 <==> macro !in st.defined)
            && (Get(r.undefinedUses, macro) == Get(st.undefinedUses, macro) <==> macro in st.defined)
            && (forall other :: other != macro ==> Get(r.undefinedUses, other) == Get(st.undefinedUses, other))
            && r.defined == st.defined
  {
  }

  /** `#if`, `#elif`, `#else`, `#endif`, `#define` and `#undef` never count an undefined use. */
  lemma {:induction false} OnlyTestsCountUses(st: MacroState, m: DirectiveMatch, file: string, lineNum: nat)
    requires !TestsMacro(m.directive)
    ensures ApplyMatch(st, m, file, lineNum).undefinedUses == st.undefinedUses
  {
  }

  /** `#ifdef`, `#ifndef` and `#if` push one frame recording the line. */
  lemma {:induction false} OpeningPushes(st: MacroState, m: DirectiveMatch, file: string, lineNum: nat)
    requires Pushes(m.directive)
    ensures ApplyMatch(st, m, file, lineNum).stack == st.stack + [Frame(m.directive, m.macro, file, lineNum)]
  {
  }

  /** `#endif` pops one frame, and on an empty stack does nothing; the other directives leave the stack alone. */
  lemma {:induction false} EndIfPops(st: MacroState, m: DirectiveMatch, file: string, lineNum: nat)
    requires !Pushes(m.directive)
    ensures var r := ApplyMatch(st, m, file, lineNum);
            && (m.directive == EndIf && st.stack != [] ==> r.stack == st.stack[..|st.stack| - 1])
            && (m.directive != EndIf || st.stack == [] ==> r.stack == st.stack)
  {
  }

  /** The line text of `#define M` and `#ifdef M`. */
  function DefineLine(macro: string): string {
    "#define " + macro
  }

  function IfDefLine(macro: string): string {
    "#ifdef " + macro
  }

  lemma {:induction false} DefineLineMatches(macro: string)
    requires IsWordRun(macro)
    ensures MatchDirective(DefineLine(macro)) == Some(DirectiveMatch(Define, Some(macro)))
  {
    assert DefineLine(macro) == "#" + "" + Spelling(Define) + " " + macro + "";
    MatchDirectiveOf("", Define, " ", macro, "");
  }

  lemma {:induction false} IfDefLineMatches(macro: string)
    requires IsWordRun(macro)
    ensures MatchDirective(IfDefLine(macro)) == Some(DirectiveMatch(IfDef, Some(macro)))
  {
    assert IfDefLine(macro) == "#" + "" + Spelling(IfDef) + " " + macro + "";
    MatchDirectiveOf("", IfDef, " ", macro, "");
  }

  /**
   * Order matters: `#define M` then `#ifdef M` counts no undefined use,
   * `#ifdef M` then `#define M` counts one (when M was not defined before).
   */
  lemma {:induction false} DefineBeforeTest(st: MacroState, file: string, n1: nat, n2: nat, macro: string)
    requires IsWordRun(macro) && macro !in st.defined
    ensures var r := ApplyDirective(ApplyDirective(st, DefineLine(macro), file, n1), IfDefLine(macro), file, n2);
            Get(r.undefinedUses, macro) == Get(st.undefinedUses, macro)
    ensures var r := ApplyDirective(ApplyDirective(st, IfDefLine(macro), file, n1), DefineLine(macro), file, n2);
            Get(r.undefinedUses, macro) == Get(st.undefinedUses, macro) + 1
  {
    DefineLineMatches(macro);
    IfDefLineMatches(macro);
  }

  /** A file of one line that needs no stripping is that line, numbered 1. */
  lemma {:induction false} RunOneLine(st: MacroState, file: string, line: string)
    requires line != [] && !IsSpace(line[0]) && !IsSpace(line[|line| - 1])
    ensures RunLines(st, file, [line]) == ApplyDirective(st, line, file, 1)
  {
    StripKeepsTrimmed(line);
    assert [line][..0] == [];
  }

  /**
   * State carries from one file to the next: a macro defined in an earlier
   * file is still defined when a later file tests it.
   */
  lemma {:induction false} DefinedInEarlierFile(st: MacroState, file1: string, file2: string, macro: string)
    requires IsWordRun(macro)
    ensures var afterFirst := RunLines(st, file1, [DefineLine(macro)]);
            && macro in afterFirst.defined
            && RunLines(afterFirst, file2, [IfDefLine(macro)]).undefinedUses == afterFirst.undefinedUses
  {
    var define, test := DefineLine(macro), IfDefLine(macro);
    assert define[|define| - 1] == macro[|macro| - 1] && test[|test| - 1] == macro[|macro| - 1];
    RunOneLine(st, file1, define);
    DefineLineMatches(macro);
    var afterFirst := ApplyDirective(st, define, file1, 1);
    RunOneLine(afterFirst, file2, test);
    IfDefLineMatches(macro);
  }

  /** The sum of the counts of the opening directives. */
  function OpenCount(counts: map<Directive, nat>): nat {
    Get(counts, IfDef) + Get(counts, IfNDef) + Get(counts, If)
  }

  /**
   * Every frame on the stack was pushed by an opening directive not yet
   * popped, and every pop was done by an `#endif`.
   */
  predicate Balanced(st: MacroState) {
    |st.stack| <= OpenCount(st.counts) <= |st.stack| + Get(st.counts, EndIf)
  }

  /** Frames come from opening directives, and every macro name recorded is a word run. */
  predicate WellFormed(st: MacroState) {
    && (forall f :: f in st.stack ==> Pushes(f.directive) && (f.macro.Some? ==> IsWordRun(f.macro.value)))
    && (forall m :: m in st.defined ==> IsWordRun(m))
    && (forall m :: m in st.undefinedUses ==> IsWordRun(m))
  }

  lemma {:induction false} MatchKeepsBalanced(st: MacroState, m: DirectiveMatch, file: string, lineNum: nat)
    requires Balanced(st)
    ensures Balanced(ApplyMatch(st, m, file, lineNum))
  {
  }

  lemma {:induction false} MatchKeepsWellFormed(st: MacroState, m: DirectiveMatch, file: string, lineNum: nat)
    requires WellFormed(st)
    requires m.macro.Some? ==> IsWordRun(m.macro.value)
    ensures WellFormed(ApplyMatch(st, m, file, lineNum))
  {
  }

  /** Processing a line keeps the state balanced and well formed. */
  lemma {:induction false} ApplyKeeps(st: MacroState, line: string, file: string, lineNum: nat)
    requires Balanced(st) && WellFormed(st)
    ensures Balanced(ApplyDirective(st, line, file, lineNum)) && WellFormed(ApplyDirective(st, line, file, lineNum))
  {
    match MatchDirective(line)
    case None =>
    case Some(m) =>
      MatchKeepsBalanced(st, m, file, lineNum);
      MatchKeepsWellFormed(st, m, file, lineNum);
  }

  /** The stack never outgrows the opening directives, nor falls behind them by more than the `#endif`s. */
  lemma {:induction false} RunLinesKeeps(st: MacroState, file: string, lines: seq<string>)
    requires Balanced(st) && WellFormed(st)
    ensures Balanced(RunLines(st, file, lines)) && WellFormed(RunLines(st, file, lines))
    decreases |lines|
  {
    if lines != [] {
      var before := RunLines(st, file, lines[..|lines| - 1]);
      RunLinesKeeps(st, file, lines[..|lines| - 1]);
      ApplyKeeps(before, Strip(lines[|lines| - 1]), file, |lines|);
    }
  }

  /** The initial state is balanced and well formed. */
  lemma {:induction false} InitialKeeps()
    ensures Balanced(Initial) && WellFormed(Initial)
  {
  }

  /** Lines processed in two batches give the state of processing them in one. */
  lemma {:induction false} RunLinesSplit(st: MacroState, file: string, lines: seq<string>, i: nat)
    requires i < |lines|
    ensures RunLines(st, file, lines[..i + 1])
         == ApplyDirective(RunLines(st, file, lines[..i]), Strip(lines[i]), file, i + 1)
  {
    assert lines[..i + 1][..i] == lines[..i];
  }
}
