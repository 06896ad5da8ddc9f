/**
 * `CodeAnalyzer` of gcode_parser_marlin.py: every stripped line of every file
 * goes through the directive recogniser, which updates the run-wide macro
 * state, and through the G-code scanner, which counts each instruction in
 * `gcode_stats` and records it in `gcode_instructions`.
 */
module CodeAnalysis {
  import opened Wrappers
  import opened Text
  import opened Tally
  import opened DirectiveSyntax
  import opened GcodeScanning
  import opened MacroTracking

  /** An entry of `gcode_instructions`: `instruction`, `file`, `line` and `full_line`. */
  datatype Mention = Mention(instruction: string, file: string, line: nat, fullLine: string)

  /** The records appended for the matched digit strings of one line, in match order. */
  function Mentions(matches: seq<string>, file: string, lineNum: nat, fullLine: string): seq<Mention>
    decreases |matches|
  {
    if matches == [] then []
    else Mentions(matches[..|matches| - 1], file, lineNum, fullLine)
         + [Mention("G" + matches[|matches| - 1], file, lineNum, fullLine)]
  }

  /** What `_analyze_gcode_line(line, file_path, line_num)` appends. */
  function LineMentions(line: string, file: string, lineNum: nat): seq<Mention> {
    Mentions(FindGcodes(line, false), file, lineNum, line)
  }

  /** What the G-code part of `analyze_file` appends for a whole file: every line stripped, numbered from 1. */
  function FileMentions(file: string, lines: seq<string>): seq<Mention>
    decreases |lines|
  {
    if lines == [] then []
    else FileMentions(file, lines[..|lines| - 1]) + LineMentions(Strip(lines[|lines| - 1]), file, |lines|)
  }

  /** How many records name instruction `g`. */
  function CountInstruction(ms: seq<Mention>, g: string): nat
    decreases |ms|
  {
    if ms == [] then 0
    else CountInstruction(ms[..|ms| - 1], g) + (if ms[|ms| - 1].instruction == g then 1 else 0)
  }

  /** The instructions named by the records. */
  function Instructions(ms: seq<Mention>): set<string> {
    set m | m in ms :: m.instruction
  }

  /** `gcode_stats` counts the records of `gcode_instructions` per instruction and has no other key. */
  ghost predicate GcodeAgree(stats: map<string, nat>, ms: seq<Mention>) {
    && stats.Keys == Instructions(ms)
    && (forall g :: Get(stats, g) == CountInstruction(ms, g))
    && SumValues(stats) == |ms|
  }

  /** The records of a line are one per match, in order, each naming `G` and the digits and carrying the line. */
  lemma {:induction false} MentionsDescribeMatches(matches: seq<string>, file: string, lineNum: nat, fullLine: string)
    ensures |Mentions(matches, file, lineNum, fullLine)| == |matches|
    ensures forall k :: 0 <= k < |matches| ==>
              Mentions(matches, file, lineNum, fullLine)[k] == Mention("G" + matches[k], file, lineNum, fullLine)
    decreases |matches|
  {
    if matches != [] {
      var front := matches[..|matches| - 1];
      MentionsDescribeMatches(front, file, lineNum, fullLine);
      forall k | 0 <= k < |front|
        ensures matches[k] == front[k]
      {
      }
    }
  }

  /** Every record of a line names `G` followed by one or two digits, and carries the file, the line number and the line. */
  lemma LineMentionsShape(line: string, file: string, lineNum: nat)
    ensures forall m :: m in LineMentions(line, file, lineNum) ==>
              && |m.instruction| >= 2 && |m.instruction| <= 3 && m.instruction[0] == 'G'
              && IsDigits(m.instruction[1..])
              && m.file == file && m.line == lineNum && m.fullLine == line
  {
    var matches := FindGcodes(line, false);
    FindGcodesAreDigits(line, false);
    MentionsDescribeMatches(matches, file, lineNum, line);
    forall m | m in LineMentions(line, file, lineNum)
      ensures |m.instruction| >= 2 && |m.instruction| <= 3 && m.instruction[0] == 'G'
      ensures IsDigits(m.instruction[1..])
      ensures m.file == file && m.line == lineNum && m.fullLine == line
    {
      var k :| 0 <= k < |matches| && m == LineMentions(line, file, lineNum)[k];
      assert matches[k] in matches;
      assert m.instruction[1..] == matches[k];
    }
  }

  /** Appending one record adds one to its instruction's count and that instruction to the set. */
  lemma {:induction false} CountAfterMention(ms: seq<Mention>, m: Mention)
    ensures forall g :: CountInstruction(ms + [m], g) == CountInstruction(ms, g) + (if m.instruction == g then 1 else 0)
    ensures Instructions(ms + [m]) == Instructions(ms) + {m.instruction}
  {
    assert (ms + [m])[..|ms|] == ms;
  }

  /** Counting a new record in `gcode_stats` keeps the statistics in agreement with the records. */
  lemma GcodeAgreeAfterMention(stats: map<string, nat>, ms: seq<Mention>, m: Mention)
    requires GcodeAgree(stats, ms)
    ensures GcodeAgree(Bump(stats, m.instruction), ms + [m])
  {
    CountAfterMention(ms, m);
    SumAfterBump(stats, m.instruction);
  }

  lemma {:induction false} MentionsStep(matches: seq<string>, file: string, lineNum: nat, fullLine: string, i: nat)
    requires i < |matches|
    ensures Mentions(matches[..i + 1], file, lineNum, fullLine)
         == Mentions(matches[..i], file, lineNum, fullLine) + [Mention("G" + matches[i], file, lineNum, fullLine)]
  {
    assert matches[..i + 1][..i] == matches[..i];
  }

  lemma {:induction false} FileMentionsStep(file: string, lines: seq<string>, i: nat)
    requires i < |lines|
    ensures FileMentions(file, lines[..i + 1])
         == FileMentions(file, lines[..i]) + LineMentions(Strip(lines[i]), file, i + 1)
  {
    assert lines[..i + 1][..i] == lines[..i];
  }


  /** `condition_stack` holds one frame per opening directive not yet closed by an `#endif`. */
  ghost predicate StackAccounted(st: MacroState, pops: nat) {
    OpenCount(st.counts) == |st.stack| + pops && pops <= Get(st.counts, EndIf)
  }

  /** Counting a directive and moving the stack as `TrackCondition` does keeps every frame accounted for. */
  lemma StackAccountedAfter(st: MacroState, pops: nat, m: DirectiveMatch, file: string, lineNum: nat, pops': nat)
    requires StackAccounted(st, pops)
    requires |StackAfter(st.stack, m, file, lineNum)| + pops' == |st.stack| + pops + (if Pushes(m.directive) then 1 else 0)
    requires pops' <= pops + (if m.directive == EndIf then 1 else 0)
    ensures StackAccounted(ApplyMatch(st, m, file, lineNum), pops')
  {
  }

  /** The analyzer: the fields of gcode_parser_marlin.py:7-17. */
  class CodeAnalyzer {
    const rootDir: string
    var directiveCounts: map<Directive, nat>
    var definedMacros: set<string>
    var undefinedMacros: map<string, nat>
    var conditionStack: seq<Frame>
    var filesAnalyzed: nat
    var gcodeStats: map<string, nat>
    var gcodeInstructions: seq<Mention>
    /** The number of frames popped so far. */
    ghost var pops: nat

    /** The four fields `_analyze_directive` updates. */
    function MacroView(): MacroState
      reads this`directiveCounts, this`definedMacros, this`undefinedMacros, this`conditionStack
    {
      MacroState(directiveCounts, definedMacros, undefinedMacros, conditionStack)
    }

    /** Every frame is accounted for, and every frame and macro name is well formed. */
    ghost predicate MacrosValid()
      reads this`directiveCounts, this`definedMacros, this`undefinedMacros, this`conditionStack, this`pops
    {
      StackAccounted(MacroView(), pops) && WellFormed(MacroView())
    }

    /** `gcode_stats` agrees with `gcode_instructions`. */
    ghost predicate GcodeValid()
      reads this`gcodeStats, this`gcodeInstructions
    {
      GcodeAgree(gcodeStats, gcodeInstructions)
    }

    ghost predicate Valid()
      reads this
    {
      MacrosValid() && GcodeValid()
    }

    constructor (rootDir: string)
      ensures Valid()
      ensures this.rootDir == rootDir && filesAnalyzed == 0
      ensures MacroView() == Initial
      ensures gcodeStats == map[] && gcodeInstructions == []
    {
      this.rootDir := rootDir;
      directiveCounts := map[];
      definedMacros := {};
      undefinedMacros := map[];
      conditionStack := [];
      filesAnalyzed := 0;
      gcodeStats := map[];
      gcodeInstructions := [];
      pops := 0;
    }

    /**
     * `_analyze_directive`: count a recognised directive, track `#define` and
     * `#undef`, count tests of macros not defined yet, and push or pop a frame.
     */
    method AnalyzeDirective(line: string, filePath: string, lineNum: nat)
      requires Valid()
      modifies this`directiveCounts, this`definedMacros, this`undefinedMacros, this`conditionStack, this`pops
      ensures Valid()
      ensures MacroView() == ApplyDirective(old(MacroView()), line, filePath, lineNum)
    {
      var directiveMatch := MatchDirective(line);
      if directiveMatch.Some? {
        RecordDirective(directiveMatch.value, filePath, lineNum);
      }
    }

    /** The body of `_analyze_directive` once the line has matched. */
    method RecordDirective(m: DirectiveMatch, filePath: string, lineNum: nat)
      requires MacrosValid() && (m.macro.Some? ==> IsWordRun(m.macro.value))
      modifies this`directiveCounts, this`definedMacros, this`undefinedMacros, this`conditionStack, this`pops
      ensures MacrosValid()
      ensures MacroView() == ApplyMatch(old(MacroView()), m, filePath, lineNum)
    {
      ghost var st := MacroView();
      directiveCounts := Bump(directiveCounts, m.directive);
      TrackMacro(m);
      TrackCondition(m, filePath, lineNum);
      MatchKeepsWellFormed(st, m, filePath, lineNum);
      StackAccountedAfter(st, old(pops), m, filePath, lineNum, pops);
    }

    /** The `#define`/`#undef`/`#ifdef`/`#ifndef` branch of `_analyze_directive`. */
    method TrackMacro(m: DirectiveMatch)
      modifies this`definedMacros, this`undefinedMacros
      ensures definedMacros == DefinedAfter(old(definedMacros), m)
      ensures undefinedMacros == UndefinedUsesAfter(old(undefinedMacros), old(definedMacros), m)
    {
      var directive, macro := m.directive, m.macro;
      if directive == Define && macro.Some? {
        definedMacros := definedMacros + {macro.value};
      } else if directive == Undef && macro.Some? {
        definedMacros := definedMacros - {macro.value};
      } else if (directive == IfDef || directive == IfNDef) && macro.Some? {
        if macro.value !in definedMacros {
          undefinedMacros := Bump(undefinedMacros, macro.value);
        }
      }
    }

    /** The condition-stack branch of `_analyze_directive`: push on an opening directive, pop on `#endif`. */
    method TrackCondition(m: DirectiveMatch, filePath: string, lineNum: nat)
      modifies this`conditionStack, this`pops
      ensures conditionStack == StackAfter(old(conditionStack), m, filePath, lineNum)
      ensures |conditionStack| + pops == |old(conditionStack)| + old(pops) + (if Pushes(m.directive) then 1 else 0)
      ensures pops <= old(pops) + (if m.directive == EndIf then 1 else 0)
    {
      var directive := m.directive;
      if directive == IfDef || directive == IfNDef || directive == If {
        conditionStack := conditionStack + [Frame(directive, m.macro, filePath, lineNum)];
      } else if directive == EndIf {
        if conditionStack != [] {
          conditionStack := conditionStack[..|conditionStack| - 1];
          pops := pops + 1;
        }
      }
    }

    /**
     * `_analyze_gcode_line`: for each match, in order, count `G` + digits and
     * append its record with the file, the line number and the whole line.
     */
    method AnalyzeGcodeLine(line: string, filePath: string, lineNum: nat)
      requires Valid()
      modifies this`gcodeStats, this`gcodeInstructions
      ensures Valid()
      ensures gcodeInstructions == old(gcodeInstructions) + LineMentions(line, filePath, lineNum)
    {
      var matches := FindGcodes(line, false);
      for i := 0 to |matches|
        invariant GcodeAgree(gcodeStats, gcodeInstructions)
        invariant gcodeInstructions == old(gcodeInstructions) + Mentions(matches[..i], filePath, lineNum, line)
      {
        var gcode := "G" + matches[i];
        var mention := Mention(gcode, filePath, lineNum, line);
        GcodeAgreeAfterMention(gcodeStats, gcodeInstructions, mention);
        gcodeStats := Bump(gcodeStats, gcode);
        gcodeInstructions := gcodeInstructions + [mention];
        MentionsStep(matches, filePath, lineNum, line, i);
        AppendAssoc(old(gcodeInstructions), Mentions(matches[..i], filePath, lineNum, line), [mention]);
      }
      assert matches[..|matches|] == matches;
    }

    /**
     * `analyze_file` over the lines of one file: each line is stripped and
     * given, with its number counted from 1, to both analyses. The macro state
     * continues from whatever earlier files left behind.
     */
    method AnalyzeFile(filePath: string, lines: seq<string>)
      requires Valid()
      modifies this`directiveCounts, this`definedMacros, this`undefinedMacros, this`conditionStack, this`pops
      modifies this`gcodeStats, this`gcodeInstructions
      ensures Valid()
      ensures MacroView() == RunLines(old(MacroView()), filePath, lines)
      ensures gcodeInstructions == old(gcodeInstructions) + FileMentions(filePath, lines)
    {
      for i := 0 to |lines|
        invariant Valid()
        invariant MacroView() == RunLines(old(MacroView()), filePath, lines[..i])
        invariant gcodeInstructions == old(gcodeInstructions) + FileMentions(filePath, lines[..i])
      {
        var line := Strip(lines[i]);
        AnalyzeDirective(line, filePath, i + 1);
        AnalyzeGcodeLine(line, filePath, i + 1);
        RunLinesSplit(old(MacroView()), filePath, lines, i);
        FileMentionsStep(filePath, lines, i);
        AppendAssoc(old(gcodeInstructions), FileMentions(filePath, lines[..i]), LineMentions(line, filePath, i + 1));
      }
      assert lines[..|lines|] == lines;
    }
  }
}
