/**
 * The variability analyzer of parser_marlin.py (`CPPVariabilityAnalyzer`).
 *
 * A file is the sequence of its lines (with or without their line
 * terminators) plus its path. Each line is stripped; a line that starts with
 * one of `#ifdef`, `#ifndef`, `#if`, `#else`, `#elif` (tested in that order)
 * becomes a variation point recording its condition, the features of that
 * condition and the nesting depth before the line; `#endif` closes a block.
 * The nesting counter and stack are local to one file; every other aggregate
 * lives as long as the analyzer.
 */
module VariabilityAnalysis {
  import opened Text
  import opened Tally
  import opened FeatureExtraction

  /** The directive types that are recorded as variation points. */
  datatype DirectiveType = IfDef | IfNDef | If | Else | Elif

  /** `#ifdef`, `#ifndef` and `#if` open a block. */
  predicate Opens(t: DirectiveType) {
    t == IfDef || t == IfNDef || t == If
  }

  /**
   * What one line of a type adds to `directive_stats`: `#else` and `#elif`
   * are counted once when the point is recorded and once more by the line loop.
   */
  function StatWeight(t: DirectiveType): nat {
    if t == Else || t == Elif then 2 else 1
  }

  /** How the line loop treats a stripped line. */
  datatype LineRole = Conditional(kind: DirectiveType) | EndIf | Skipped

  /** Which of the prefixes tested by the line loop exclude each other. */
  lemma DirectivePrefixes(line: string)
    ensures StartsWith(line, "#ifndef") ==> !StartsWith(line, "#ifdef")
    ensures StartsWith(line, "#ifdef") || StartsWith(line, "#ifndef") ==> StartsWith(line, "#if")
    ensures StartsWith(line, "#else") || StartsWith(line, "#elif") ==> !StartsWith(line, "#if")
    ensures StartsWith(line, "#elif") ==> !StartsWith(line, "#else")
    ensures StartsWith(line, "#endif") ==> !StartsWith(line, "#if") && !StartsWith(line, "#else") && !StartsWith(line, "#elif")
    ensures StartsWith(line, "#define") || StartsWith(line, "#undef") || StartsWith(line, "#include") ==>
              !StartsWith(line, "#if") && !StartsWith(line, "#else") && !StartsWith(line, "#elif") && !StartsWith(line, "#endif")
  {
    StartsWithExclusive(line, "#ifndef", "#ifdef", 3);
    StartsWithPrefix(line, "#if", "def");
    StartsWithPrefix(line, "#if", "ndef");
    assert "#if" + "def" == "#ifdef" && "#if" + "ndef" == "#ifndef";
    StartsWithExclusive(line, "#else", "#if", 1);
    StartsWithExclusive(line, "#elif", "#if", 1);
    StartsWithExclusive(line, "#elif", "#else", 3);
    StartsWithExclusive(line, "#endif", "#if", 1);
    StartsWithExclusive(line, "#endif", "#else", 2);
    StartsWithExclusive(line, "#endif", "#elif", 2);
    StartsWithExclusive(line, "#define", "#if", 1);
    StartsWithExclusive(line, "#define", "#else", 1);
    StartsWithExclusive(line, "#define", "#elif", 1);
    StartsWithExclusive(line, "#define", "#endif", 1);
    StartsWithExclusive(line, "#undef", "#if", 1);
    StartsWithExclusive(line, "#undef", "#else", 1);
    StartsWithExclusive(line, "#undef", "#elif", 1);
    StartsWithExclusive(line, "#undef", "#endif", 1);
    StartsWithExclusive(line, "#include", "#if", 2);
    StartsWithExclusive(line, "#include", "#else", 1);
    StartsWithExclusive(line, "#include", "#elif", 1);
    StartsWithExclusive(line, "#include", "#endif", 1);
  }

  /** The ordered `startswith` tests of the line loop. */
  function Classify(line: string): (r: LineRole)
    ensures r != Skipped ==> line != [] && line[0] == '#'
    ensures StartsWith(line, "#ifdef") ==> r == Conditional(IfDef)
    ensures StartsWith(line, "#ifndef") ==> r == Conditional(IfNDef)
    ensures r == Conditional(If) ==> StartsWith(line, "#if") && !StartsWith(line, "#ifdef") && !StartsWith(line, "#ifndef")
    ensures r == EndIf <==> StartsWith(line, "#endif")
    ensures StartsWith(line, "#define") || StartsWith(line, "#undef") || StartsWith(line, "#include") ==> r == Skipped
  {
    DirectivePrefixes(line);
    if line == [] || !StartsWith(line, "#") then Skipped
    else if StartsWith(line, "#ifdef") then Conditional(IfDef)
    else if StartsWith(line, "#ifndef") then Conditional(IfNDef)
    else if StartsWith(line, "#if") then Conditional(If)
    else if StartsWith(line, "#else") then Conditional(Else)
    else if StartsWith(line, "#elif") then Conditional(Elif)
    else if StartsWith(line, "#endif") then EndIf
    else Skipped
  }

  /**
   * Each role, exactly: the line starts with the tested prefix and with none
   * of the prefixes tested before it (`#if` only after `#ifdef` and `#ifndef`;
   * `#else`, `#elif` and `#endif` exclude each other and every `#if` form).
   */
  lemma ClassifyByPrefix(line: string)
    ensures Classify(line) == Conditional(IfDef) <==> StartsWith(line, "#ifdef")
    ensures Classify(line) == Conditional(IfNDef) <==> StartsWith(line, "#ifndef")
    ensures Classify(line) == Conditional(If) <==> StartsWith(line, "#if") && !StartsWith(line, "#ifdef") && !StartsWith(line, "#ifndef")
    ensures Classify(line) == Conditional(Else) <==> StartsWith(line, "#else")
    ensures Classify(line) == Conditional(Elif) <==> StartsWith(line, "#elif")
    ensures Classify(line) == EndIf <==> StartsWith(line, "#endif")
  {
    DirectivePrefixes(line);
  }

  /**
   * `line.split(maxsplit=1)[1] if len(line.split()) > 1 else ""`: what follows
   * the first whitespace-separated token and the whitespace after it.
   */
  function Condition(line: string): (c: string)
    ensures |c| <= |line|
    ensures c == [] || !IsSpace(c[0])
  {
    var a := LeadingRun(line, IsSpace);
    var b := a + LeadingRun(line[a..], IsNotSpace);
    var d := b + LeadingRun(line[b..], IsSpace);
    line[d..]
  }

  /** The condition is everything after the first token and the whitespace that follows it. */
  lemma ConditionAfterFirstToken(token: string, gap: string, rest: string)
    requires token != [] && forall i :: 0 <= i < |token| ==> !IsSpace(token[i])
    requires gap != [] && AllSpace(gap)
    requires rest == [] || !IsSpace(rest[0])
    ensures Condition(token + gap + rest) == rest
  {
    var line := token + gap + rest;
    assert line == token + (gap + rest);
    LeadingRunOfPrefix(token, gap + rest, IsNotSpace);
    assert line[|token|..] == gap + rest;
    LeadingRunOfPrefix(gap, rest, IsSpace);
    assert line[|token| + |gap|..] == rest;
  }

  /** A line without whitespace (such as `#else`) has the empty condition, hence no features. */
  lemma ConditionOfLoneToken(token: string)
    requires forall i :: 0 <= i < |token| ==> !IsSpace(token[i])
    ensures Condition(token) == ""
    ensures ExtractFeatures(Condition(token)) == {}
  {
    assert token == token + [];
    LeadingRunOfPrefix(token, [], IsNotSpace);
  }

  /** One record of `variation_points`. */
  datatype VariationPoint = VariationPoint(
    kind: DirectiveType,
    line: nat,
    file: string,
    condition: string,
    features: set<string>,
    nesting: nat)

  /** The record `_process_directive` builds for a directive line. */
  function PointFor(line: string, lineNum: nat, file: string, kind: DirectiveType, depth: nat): VariationPoint {
    var condition := Condition(line);
    VariationPoint(kind, lineNum, file, condition, ExtractFeatures(condition), depth)
  }

  /** The nesting depth after a line, given the depth before it. */
  function NextDepth(depth: nat, role: LineRole): nat {
    match role
    case Conditional(k) => if Opens(k) then depth + 1 else depth
    case EndIf => if depth > 0 then depth - 1 else 0
    case Skipped => depth
  }

  /** The nesting depth after the given lines of one file. */
  function DepthAfter(lines: seq<string>): nat {
    if lines == [] then 0
    else NextDepth(DepthAfter(lines[..|lines| - 1]), Classify(Strip(lines[|lines| - 1])))
  }

  /** The points a stripped line contributes: one for a conditional directive, none otherwise. */
  function LinePoints(line: string, lineNum: nat, file: string, depth: nat): seq<VariationPoint> {
    match Classify(line)
    case Conditional(k) => [PointFor(line, lineNum, file, k, depth)]
    case _ => []
  }

  /** The variation points one file contributes, in line order (line numbers start at 1). */
  function FilePoints(file: string, lines: seq<string>): seq<VariationPoint> {
    if lines == [] then []
    else
      var before := lines[..|lines| - 1];
      FilePoints(file, before) + LinePoints(Strip(lines[|lines| - 1]), |lines|, file, DepthAfter(before))
  }

  /** Number of lines of a file with a given role. */
  function CountRole(lines: seq<string>, role: LineRole): nat {
    if lines == [] then 0
    else CountRole(lines[..|lines| - 1], role) + (if Classify(Strip(lines[|lines| - 1])) == role then 1 else 0)
  }

  /** Number of lines of a file that open a block. */
  function CountOpening(lines: seq<string>): nat {
    if lines == [] then 0
    else
      var role := Classify(Strip(lines[|lines| - 1]));
      CountOpening(lines[..|lines| - 1]) + (if role.Conditional? && Opens(role.kind) then 1 else 0)
  }

  // Counts over a list of variation points, which the aggregates must agree with.

  function CountOfType(ps: seq<VariationPoint>, k: DirectiveType): nat {
    if ps == [] then 0 else CountOfType(ps[..|ps| - 1], k) + (if ps[|ps| - 1].kind == k then 1 else 0)
  }

  function CountInFile(ps: seq<VariationPoint>, file: string): nat {
    if ps == [] then 0 else CountInFile(ps[..|ps| - 1], file) + (if ps[|ps| - 1].file == file then 1 else 0)
  }

  function CountMentioning(ps: seq<VariationPoint>, feature: string): nat {
    if ps == [] then 0 else CountMentioning(ps[..|ps| - 1], feature) + (if feature in ps[|ps| - 1].features then 1 else 0)
  }

  function FilesOf(ps: seq<VariationPoint>): set<string> {
    if ps == [] then {} else FilesOf(ps[..|ps| - 1]) + {ps[|ps| - 1].file}
  }

  function FeatureUnion(ps: seq<VariationPoint>): set<string> {
    if ps == [] then {} else FeatureUnion(ps[..|ps| - 1]) + ps[|ps| - 1].features
  }

  /** Appending one point moves each count by exactly what that point contributes. */
  lemma AppendPoint(ps: seq<VariationPoint>, p: VariationPoint)
    ensures forall k :: CountOfType(ps + [p], k) == CountOfType(ps, k) + (if p.kind == k then 1 else 0)
    ensures forall f :: CountInFile(ps + [p], f) == CountInFile(ps, f) + (if p.file == f then 1 else 0)
    ensures forall f :: CountMentioning(ps + [p], f) == CountMentioning(ps, f) + (if f in p.features then 1 else 0)
    ensures FilesOf(ps + [p]) == FilesOf(ps) + {p.file}
    ensures FeatureUnion(ps + [p]) == FeatureUnion(ps) + p.features
  {
    assert (ps + [p])[..|ps|] == ps;
  }

  /**
   * The depth after a file is bounded by the blocks opened in it, and every
   * opened block is either still open or was closed by an `#endif`.
   */
  lemma {:induction false} DepthAccounting(lines: seq<string>)
    ensures DepthAfter(lines) <= CountOpening(lines) <= DepthAfter(lines) + CountRole(lines, EndIf)
  {
    if lines != [] {
      DepthAccounting(lines[..|lines| - 1]);
    }
  }

  /** A skipped line (blank, not a directive, `#define`, `#include`, ...) changes neither the points nor the depth. */
  lemma SkippedLineChangesNothing(file: string, lines: seq<string>, line: string)
    requires Classify(Strip(line)) == Skipped
    ensures FilePoints(file, lines + [line]) == FilePoints(file, lines)
    ensures DepthAfter(lines + [line]) == DepthAfter(lines)
  {
    assert (lines + [line])[..|lines|] == lines;
  }

  /** `#ifdef` and an identifier: an `#ifdef` line as it stands, whose condition is the identifier. */
  lemma IfDefLineOf(x: string)
    requires IsIdent(x)
    ensures Strip("#ifdef " + x) == "#ifdef " + x
    ensures Classify("#ifdef " + x) == Conditional(IfDef)
    ensures Condition("#ifdef " + x) == x
  {
    var line := "#ifdef " + x;
    assert line == "#ifdef" + " " + x;
    assert !IsSpace(x[0]);
    ConditionAfterFirstToken("#ifdef", " ", x);
    assert line[|line| - 1] == x[|x| - 1] && IsWordChar(x[|x| - 1]);
    StripKeepsTrimmed(line);
    StartsWithPrefix(line, "#ifdef", " " + x);
  }

  /** `#endif` closes a block. */
  lemma EndIfLine()
    ensures Strip("#endif") == "#endif"
    ensures Classify("#endif") == EndIf
  {
    StripKeepsTrimmed("#endif");
    assert StartsWith("#endif", "#endif");
  }

  /** An `#endif` line adds no point and closes the innermost block, if any. */
  lemma EndIfLineClosesBlock(file: string, lines: seq<string>, line: string)
    requires Classify(Strip(line)) == EndIf
    ensures FilePoints(file, lines + [line]) == FilePoints(file, lines)
    ensures DepthAfter(lines + [line]) == if DepthAfter(lines) > 0 then DepthAfter(lines) - 1 else 0
  {
    assert (lines + [line])[..|lines|] == lines;
  }

  /** A file of one block-opening line and one `#endif`: the opening line's point alone, and the block is closed. */
  lemma OneBlockFile(file: string, lines: seq<string>, k: DirectiveType)
    requires |lines| == 2 && Opens(k)
    requires Classify(Strip(lines[0])) == Conditional(k) && Classify(Strip(lines[1])) == EndIf
    ensures FilePoints(file, lines) == [PointFor(Strip(lines[0]), 1, file, k, 0)]
    ensures DepthAfter(lines) == 0
  {
    var opening := lines[..1];
    FilePointsSplit(file, lines);
    FilePointsSplit(file, opening);
    assert opening[..0] == [] && opening[0] == lines[0];
  }

  /**
   * A file holding only `#ifdef FEATURE_X` and `#endif`, for any identifier in
   * place of `FEATURE_X`: one `#ifdef` point at line 1 whose features are that
   * identifier, outside any block, and the block is closed.
   */
  lemma ExampleIfDefEndIf(file: string, x: string)
    requires IsIdent(x)
    ensures FilePoints(file, ["#ifdef " + x, "#endif"]) == [VariationPoint(IfDef, 1, file, x, {x}, 0)]
    ensures DepthAfter(["#ifdef " + x, "#endif"]) == 0
  {
    IfDefLineOf(x);
    SingleIdentFeatures(x);
    EndIfLine();
    OneBlockFile(file, ["#ifdef " + x, "#endif"], IfDef);
  }

  /** Counting the points of a type distributes over concatenation. */
  lemma {:induction false} CountOfTypeConcat(ps: seq<VariationPoint>, qs: seq<VariationPoint>, k: DirectiveType)
    ensures CountOfType(ps + qs, k) == CountOfType(ps, k) + CountOfType(qs, k)
    decreases |qs|
  {
    if qs == [] {
      assert ps + qs == ps;
    } else {
      var init := qs[..|qs| - 1];
      assert (ps + qs)[..|ps + qs| - 1] == ps + init;
      CountOfTypeConcat(ps, init, k);
    }
  }

  /** A line contributes one point of type `k` exactly when it is a directive of type `k`. */
  lemma LinePointsOfType(line: string, lineNum: nat, file: string, depth: nat, k: DirectiveType)
    ensures CountOfType(LinePoints(line, lineNum, file, depth), k) == if Classify(line) == Conditional(k) then 1 else 0
  {
    var ps := LinePoints(line, lineNum, file, depth);
    if Classify(line).Conditional? {
      assert ps[..0] == [];
    }
  }

  /** One point per conditional line: the points of a type are exactly the lines of that type. */
  lemma {:induction false} PointsPerType(file: string, lines: seq<string>, k: DirectiveType)
    ensures CountOfType(FilePoints(file, lines), k) == CountRole(lines, Conditional(k))
  {
    if lines != [] {
      var before := lines[..|lines| - 1];
      PointsPerType(file, before, k);
      FilePointsSplit(file, lines);
      var added := LinePoints(Strip(lines[|lines| - 1]), |lines|, file, DepthAfter(before));
      CountOfTypeConcat(FilePoints(file, before), added, k);
      LinePointsOfType(Strip(lines[|lines| - 1]), |lines|, file, DepthAfter(before), k);
    }
  }

  /**
   * A point describes line `p.line` of a file: that line has the point's
   * directive type, and the point is the record built from that line with the
   * depth before it as nesting.
   */
  ghost predicate Describes(p: VariationPoint, file: string, lines: seq<string>) {
    && 1 <= p.line <= |lines|
    && Classify(Strip(lines[p.line - 1])) == Conditional(p.kind)
    && p == PointFor(Strip(lines[p.line - 1]), p.line, file, p.kind, DepthAfter(lines[..p.line - 1]))
  }

  /** A point that describes a line of a file still does once more lines follow. */
  lemma DescribesExtends(p: VariationPoint, file: string, before: seq<string>, lines: seq<string>)
    requires |before| <= |lines| && before == lines[..|before|]
    requires Describes(p, file, before)
    ensures Describes(p, file, lines)
  {
    assert lines[p.line - 1] == before[p.line - 1];
    assert lines[..p.line - 1] == before[..p.line - 1];
  }

  /** The points of a file are those of its earlier lines followed by those of its last line. */
  lemma FilePointsSplit(file: string, lines: seq<string>)
    requires lines != []
    ensures FilePoints(file, lines)
         == FilePoints(file, lines[..|lines| - 1])
          + LinePoints(Strip(lines[|lines| - 1]), |lines|, file, DepthAfter(lines[..|lines| - 1]))
  {
  }

  /** A point of the last line of a file describes that line. */
  lemma LastLinePointDescribes(file: string, lines: seq<string>, i: nat)
    requires lines != []
    requires |FilePoints(file, lines[..|lines| - 1])| <= i < |FilePoints(file, lines)|
    ensures Describes(FilePoints(file, lines)[i], file, lines)
  {
    var before := lines[..|lines| - 1];
    var line := Strip(lines[|lines| - 1]);
    FilePointsSplit(file, lines);
    var k := Classify(line).kind;
    assert FilePoints(file, lines)[i] == PointFor(line, |lines|, file, k, DepthAfter(before));
  }

  /** A point of the last line of a file carries that line's number. */
  lemma LastLinePointLine(file: string, lines: seq<string>, i: nat)
    requires lines != []
    requires |FilePoints(file, lines[..|lines| - 1])| <= i < |FilePoints(file, lines)|
    ensures FilePoints(file, lines)[i].line == |lines|
  {
    var before := lines[..|lines| - 1];
    var points := LinePoints(Strip(lines[|lines| - 1]), |lines|, file, DepthAfter(before));
    FilePointsSplit(file, lines);
    assert FilePoints(file, lines)[i] == points[i - |FilePoints(file, before)|];
  }

  /** A point of an earlier line keeps describing it once the last line is added. */
  lemma EarlierPointDescribes(file: string, lines: seq<string>, i: nat)
    requires lines != []
    requires i < |FilePoints(file, lines[..|lines| - 1])|
    requires Describes(FilePoints(file, lines[..|lines| - 1])[i], file, lines[..|lines| - 1])
    ensures Describes(FilePoints(file, lines)[i], file, lines)
  {
    var before := lines[..|lines| - 1];
    FilePointsSplit(file, lines);
    assert FilePoints(file, lines)[i] == FilePoints(file, before)[i];
    DescribesExtends(FilePoints(file, before)[i], file, before, lines);
  }

  /** Every point of a file describes its own line. */
  lemma {:induction false} PointsDescribeTheirLines(file: string, lines: seq<string>, i: nat)
    requires i < |FilePoints(file, lines)|
    ensures Describes(FilePoints(file, lines)[i], file, lines)
  {
    var before := lines[..|lines| - 1];
    if i < |FilePoints(file, before)| {
      PointsDescribeTheirLines(file, before, i);
      EarlierPointDescribes(file, lines, i);
    } else {
      LastLinePointDescribes(file, lines, i);
    }
  }

  /** Points come in strictly increasing line order. */
  lemma {:induction false} PointsInLineOrder(file: string, lines: seq<string>, i: nat, j: nat)
    requires i < j < |FilePoints(file, lines)|
    ensures FilePoints(file, lines)[i].line < FilePoints(file, lines)[j].line
  {
    var before := lines[..|lines| - 1];
    var ps := FilePoints(file, before);
    FilePointsSplit(file, lines);
    assert FilePoints(file, lines)[i] == ps[i];
    if j < |ps| {
      PointsInLineOrder(file, before, i, j);
      assert FilePoints(file, lines)[j] == ps[j];
    } else {
      PointsDescribeTheirLines(file, before, i);
      LastLinePointLine(file, lines, j);
    }
  }

  /**
   * The aggregates other than `directive_stats` agree with a list of points:
   * `file_complexity` counts points per file (and so sums to the number of
   * points), `features` is the union of their features and
   * `feature_scattering` counts, per feature, the points mentioning it.
   */
  ghost predicate AggregatesAgree(ps: seq<VariationPoint>, fileComplexity: map<string, nat>,
                                  features: set<string>, featureScattering: map<string, nat>)
  {
    && fileComplexity.Keys == FilesOf(ps)
    && (forall f :: Get(fileComplexity, f) == CountInFile(ps, f))
    && SumValues(fileComplexity) == |ps|
    && features == FeatureUnion(ps)
    && featureScattering.Keys == features
    && (forall f :: Get(featureScattering, f) == CountMentioning(ps, f))
  }

  /** Recording one more point, as `_process_directive` does, keeps the aggregates in agreement. */
  lemma AggregatesAfterPoint(ps: seq<VariationPoint>, fileComplexity: map<string, nat>,
                             features: set<string>, featureScattering: map<string, nat>,
                             p: VariationPoint, scattering': map<string, nat>)
    requires AggregatesAgree(ps, fileComplexity, features, featureScattering)
    requires scattering'.Keys == featureScattering.Keys + p.features
    requires forall f :: Get(scattering', f) == Get(featureScattering, f) + (if f in p.features then 1 else 0)
    ensures AggregatesAgree(ps + [p], Bump(fileComplexity, p.file), features + p.features, scattering')
  {
    AppendPoint(ps, p);
    SumAfterBump(fileComplexity, p.file);
  }

  /** `directive_stats` counts each point once and each `#else`/`#elif` point twice. */
  ghost predicate StatsAgree(stats: map<DirectiveType, nat>, ps: seq<VariationPoint>) {
    forall k :: k in stats ==> stats[k] == StatWeight(k) * CountOfType(ps, k)
  }

  /** Recording a point and adding its weight to its type's count keeps `directive_stats` in agreement. */
  lemma StatsAfterPoint(stats: map<DirectiveType, nat>, ps: seq<VariationPoint>, p: VariationPoint)
    requires StatsAgree(stats, ps) && p.kind in stats
    ensures StatsAgree(stats[p.kind := stats[p.kind] + StatWeight(p.kind)], ps + [p])
  {
    AppendPoint(ps, p);
  }


  /** A conditional directive line contributes exactly its own point. */
  lemma PointsOfDirective(line: string, lineNum: nat, file: string, depth: nat, k: DirectiveType)
    requires Classify(line) == Conditional(k)
    ensures LinePoints(line, lineNum, file, depth) == [PointFor(line, lineNum, file, k, depth)]
  {
  }

  /**
   * `#else` and `#elif` points: one count from `_process_directive`, one more
   * from the line loop, and `directive_stats` agrees again.
   */
  lemma StatsAfterPointCountedTwice(stats: map<DirectiveType, nat>, ps: seq<VariationPoint>, p: VariationPoint,
                                    once: map<DirectiveType, nat>, twice: map<DirectiveType, nat>)
    requires StatsAgree(stats, ps) && p.kind in stats && StatWeight(p.kind) == 2
    requires once == stats[p.kind := stats[p.kind] + 1]
    requires twice == once[p.kind := once[p.kind] + 1]
    ensures twice == stats[p.kind := stats[p.kind] + StatWeight(p.kind)]
    ensures StatsAgree(twice, ps + [p]) && twice.Keys == stats.Keys
  {
    assert twice == stats[p.kind := stats[p.kind] + StatWeight(p.kind)];
    StatsAfterPoint(stats, ps, p);
  }

  /** One more line of a file: its points and the depth after it. */
  lemma StepLine(file: string, lines: seq<string>, i: nat)
    requires i < |lines|
    ensures FilePoints(file, lines[..i + 1])
         == FilePoints(file, lines[..i]) + LinePoints(Strip(lines[i]), i + 1, file, DepthAfter(lines[..i]))
    ensures DepthAfter(lines[..i + 1]) == NextDepth(DepthAfter(lines[..i]), Classify(Strip(lines[i])))
  {
    assert lines[..i + 1][..i] == lines[..i];
    FilePointsSplit(file, lines[..i + 1]);
  }

  /** The nesting stack of `analyze_file` holds 1, 2, ..., its length. */
  predicate IsDepthStack(stack: seq<nat>) {
    forall k :: 0 <= k < |stack| ==> stack[k] == k + 1
  }

  /** The analyzer: the aggregates of parser_marlin.py:10-20. */
  class CPPVariabilityAnalyzer {
    var features: set<string>
    var variationPoints: seq<VariationPoint>
    var directiveStats: map<DirectiveType, nat>
    var fileComplexity: map<string, nat>
    var featureScattering: map<string, nat>

    /** Every aggregate other than `directive_stats` agrees with the list of variation points. */
    ghost predicate AggregatesValid()
      reads this`variationPoints, this`fileComplexity, this`features, this`featureScattering
    {
      AggregatesAgree(variationPoints, fileComplexity, features, featureScattering)
    }

    /** `directive_stats` has a count for each of the five directive types. */
    ghost predicate StatsKeysValid()
      reads this`directiveStats
    {
      directiveStats.Keys == {IfDef, IfNDef, If, Else, Elif}
    }

    /** The aggregates agree with the points, and `directive_stats` has its five keys. */
    ghost predicate Consistent()
      reads this`variationPoints, this`fileComplexity, this`features, this`featureScattering, this`directiveStats
    {
      StatsKeysValid() && AggregatesValid()
    }

    /** ... and `directive_stats` counts each point once, `#else`/`#elif` points twice. */
    ghost predicate Valid()
      reads this`variationPoints, this`fileComplexity, this`features, this`featureScattering, this`directiveStats
    {
      && Consistent()
      && StatsAgree(directiveStats, variationPoints)
    }

    constructor ()
      ensures Valid()
      ensures variationPoints == [] && features == {}
      ensures fileComplexity == map[] && featureScattering == map[]
      ensures forall k :: k in directiveStats ==> directiveStats[k] == 0
    {
      features := {};
      variationPoints := [];
      directiveStats := map[IfDef := 0, IfNDef := 0, If := 0, Else := 0, Elif := 0];
      fileComplexity := map[];
      featureScattering := map[];
    }

    /**
     * `_process_directive`: record one variation point for a directive line,
     * count it in `directive_stats` and `file_complexity`, and count each of its
     * features in `features` and `feature_scattering`.
     */
    method ProcessDirective(line: string, lineNum: nat, filePath: string, directiveType: DirectiveType, nestingDepth: nat)
      requires Consistent()
      modifies this
      ensures Consistent()
      ensures variationPoints == old(variationPoints) + [PointFor(line, lineNum, filePath, directiveType, nestingDepth)]
      ensures directiveStats == old(directiveStats)[directiveType := old(directiveStats)[directiveType] + 1]
      ensures fileComplexity == Bump(old(fileComplexity), filePath)
      ensures features == old(features) + ExtractFeatures(Condition(line))
      ensures forall f :: (Get(featureScattering, f) ==
                             Get(old(featureScattering), f) + (if f in ExtractFeatures(Condition(line)) then 1 else 0))
    {
      var condition := Condition(line);
      var lineFeatures := ExtractFeatures(condition);
      RecordPoint(VariationPoint(directiveType, lineNum, filePath, condition, lineFeatures, nestingDepth));
    }

    /**
     * The updates of `_process_directive` once its record is built: count the
     * directive type and the file, append the record, then track its features.
     */
    method RecordPoint(vp: VariationPoint)
      requires Consistent() && vp.kind in directiveStats
      modifies this
      ensures Consistent()
      ensures variationPoints == old(variationPoints) + [vp]
      ensures directiveStats == old(directiveStats)[vp.kind := old(directiveStats)[vp.kind] + 1]
      ensures fileComplexity == Bump(old(fileComplexity), vp.file)
      ensures features == old(features) + vp.features
      ensures forall f :: (Get(featureScattering, f) ==
                             Get(old(featureScattering), f) + (if f in vp.features then 1 else 0))
    {
      ghost var points0, complexity0, features0, scattering0 :=
        variationPoints, fileComplexity, features, featureScattering;
      directiveStats := directiveStats[vp.kind := directiveStats[vp.kind] + 1];
      fileComplexity := Bump(fileComplexity, vp.file);
      variationPoints := variationPoints + [vp];
      TrackFeatures(vp.features);
      AggregatesAfterPoint(points0, complexity0, features0, scattering0, vp, featureScattering);
    }

    /** The feature loop of `_process_directive`: add each feature and count it once more. */
    method TrackFeatures(lineFeatures: set<string>)
      modifies this`features, this`featureScattering
      ensures features == old(features) + lineFeatures
      ensures featureScattering.Keys == old(featureScattering).Keys + lineFeatures
      ensures forall f :: (Get(featureScattering, f) ==
                             Get(old(featureScattering), f) + (if f in lineFeatures then 1 else 0))
    {
      var pending := lineFeatures;
      while pending != {}
        invariant pending <= lineFeatures
        invariant features == old(features) + (lineFeatures - pending)
        invariant featureScattering.Keys == old(featureScattering).Keys + (lineFeatures - pending)
        invariant forall f :: (Get(featureScattering, f) ==
                                 Get(old(featureScattering), f) + (if f in lineFeatures - pending then 1 else 0))
        decreases pending
      {
        var feature :| feature in pending;
        features := features + {feature};
        featureScattering := Bump(featureScattering, feature);
        pending := pending - {feature};
      }
    }

    /**
     * `analyze_file` over the lines of one file: the per-file nesting counter
     * and stack start at 0 and empty; the counter always equals the stack's
     * length and the stack is exactly [1, 2, ..., counter].
     */
    method AnalyzeFile(filePath: string, lines: seq<string>)
      requires Valid()
      modifies this
      ensures Valid()
      ensures variationPoints == old(variationPoints) + FilePoints(filePath, lines)
    {
      var currentNesting: nat := 0;
      var nestingStack: seq<nat> := [];

      for i := 0 to |lines|
        invariant Valid()
        invariant variationPoints == old(variationPoints) + FilePoints(filePath, lines[..i])
        invariant currentNesting == |nestingStack| == DepthAfter(lines[..i])
        invariant IsDepthStack(nestingStack)
      {
        currentNesting, nestingStack := AnalyzeLine(Strip(lines[i]), i + 1, filePath, currentNesting, nestingStack);
        StepLine(filePath, lines, i);
        AppendAssoc(old(variationPoints), FilePoints(filePath, lines[..i]),
                    LinePoints(Strip(lines[i]), i + 1, filePath, DepthAfter(lines[..i])));
      }
      assert lines[..|lines|] == lines;
    }

    /**
     * The body of the line loop of `analyze_file` for one stripped line: a
     * conditional directive is recorded (`#else` and `#elif` counted once
     * more), an opening directive pushes the new depth, and `#endif` pops it.
     */
    method AnalyzeLine(line: string, lineNum: nat, filePath: string, currentNesting: nat, nestingStack: seq<nat>)
      returns (nesting: nat, stack: seq<nat>)
      requires Valid()
      requires currentNesting == |nestingStack| && IsDepthStack(nestingStack)
      modifies this
      ensures Valid()
      ensures variationPoints == old(variationPoints) + LinePoints(line, lineNum, filePath, currentNesting)
      ensures nesting == |stack| == NextDepth(currentNesting, Classify(line)) && IsDepthStack(stack)
      ensures !Classify(line).Conditional? ==> unchanged(this)
    {
      nesting, stack := currentNesting, nestingStack;
      if line == [] || !StartsWith(line, "#") {
        return;
      }

      DirectivePrefixes(line);
      var kind: DirectiveType;
      if StartsWith(line, "#ifdef") {
        kind := IfDef;
        nesting, stack := OpenBlock(line, lineNum, filePath, kind, nesting, stack);
      } else if StartsWith(line, "#ifndef") {
        kind := IfNDef;
        nesting, stack := OpenBlock(line, lineNum, filePath, kind, nesting, stack);
      } else if StartsWith(line, "#if") {
        kind := If;
        nesting, stack := OpenBlock(line, lineNum, filePath, kind, nesting, stack);
      } else if StartsWith(line, "#else") {
        kind := Else;
        RecordAlternative(line, lineNum, filePath, kind, nesting);
      } else if StartsWith(line, "#elif") {
        kind := Elif;
        RecordAlternative(line, lineNum, filePath, kind, nesting);
      } else if StartsWith(line, "#endif") {
        nesting, stack := CloseBlock(nesting, stack);
        return;
      } else {
        return;
      }
      assert Classify(line) == Conditional(kind);
      PointsOfDirective(line, lineNum, filePath, currentNesting, kind);
    }

    /** `#ifdef`, `#ifndef`, `#if`: record the point, then increment the counter and push it. */
    method OpenBlock(line: string, lineNum: nat, filePath: string, kind: DirectiveType, currentNesting: nat, nestingStack: seq<nat>)
      returns (nesting: nat, stack: seq<nat>)
      requires Valid() && Opens(kind)
      requires currentNesting == |nestingStack| && IsDepthStack(nestingStack)
      modifies this
      ensures Valid()
      ensures variationPoints == old(variationPoints) + [PointFor(line, lineNum, filePath, kind, currentNesting)]
      ensures directiveStats == old(directiveStats)[kind := old(directiveStats)[kind] + StatWeight(kind)]
      ensures fileComplexity == Bump(old(fileComplexity), filePath)
      ensures nesting == |stack| == currentNesting + 1 && IsDepthStack(stack)
    {
      ProcessDirective(line, lineNum, filePath, kind, currentNesting);
      StatsAfterPoint(old(directiveStats), old(variationPoints), PointFor(line, lineNum, filePath, kind, currentNesting));
      nesting := currentNesting + 1;
      stack := nestingStack + [nesting];
    }

    /** `#else`, `#elif`: record the point, then count its type once more. */
    method RecordAlternative(line: string, lineNum: nat, filePath: string, kind: DirectiveType, currentNesting: nat)
      requires Valid() && (kind == Else || kind == Elif)
      modifies this
      ensures Valid()
      ensures variationPoints == old(variationPoints) + [PointFor(line, lineNum, filePath, kind, currentNesting)]
      ensures directiveStats == old(directiveStats)[kind := old(directiveStats)[kind] + StatWeight(kind)]
      ensures fileComplexity == Bump(old(fileComplexity), filePath)
    {
      ProcessDirective(line, lineNum, filePath, kind, currentNesting);
      CountAgain(kind, old(directiveStats), old(variationPoints), PointFor(line, lineNum, filePath, kind, currentNesting));
    }

    /** The extra `directive_stats[...] += 1` of the line loop for `#else` and `#elif`. */
    method CountAgain(kind: DirectiveType, ghost stats0: map<DirectiveType, nat>,
                      ghost points0: seq<VariationPoint>, ghost p: VariationPoint)
      requires (kind == Else || kind == Elif) && p.kind == kind && kind in stats0
      requires StatsAgree(stats0, points0) && variationPoints == points0 + [p]
      requires directiveStats == stats0[kind := stats0[kind] + 1]
      modifies this`directiveStats
      ensures directiveStats == old(directiveStats)[kind := old(directiveStats)[kind] + 1]
      ensures directiveStats == stats0[kind := stats0[kind] + StatWeight(kind)]
      ensures StatsAgree(directiveStats, variationPoints) && directiveStats.Keys == stats0.Keys
    {
      ghost var once := directiveStats;
      directiveStats := directiveStats[kind := directiveStats[kind] + 1];
      StatsAfterPointCountedTwice(stats0, points0, p, once, directiveStats);
    }

    /** `#endif`: pop when the stack is non-empty; the counter becomes the new top, or 0. */
    static method CloseBlock(currentNesting: nat, nestingStack: seq<nat>) returns (nesting: nat, stack: seq<nat>)
      requires currentNesting == |nestingStack| && IsDepthStack(nestingStack)
      ensures nesting == |stack| == (if currentNesting > 0 then currentNesting - 1 else 0) && IsDepthStack(stack)
    {
      nesting, stack := currentNesting, nestingStack;
      if stack != [] {
        stack := stack[..|stack| - 1];
        nesting := if stack != [] then stack[|stack| - 1] else 0;
      }
    }
  }
}
