# Preprocessor variability and G-code analyzers, modelled in Dafny

The repository holds two line-by-line analyzers of C preprocessor text. This
project models them in Dafny and proves properties of the model.

- `CPPVariabilityAnalyzer` (parser_marlin.py) reads the stripped lines of a file.
  - Every `#ifdef`, `#ifndef`, `#if`, `#else` and `#elif` line becomes a variation point.
  - A variation point records the condition text, the features named in the condition, and the nesting depth before the line.
  - The analyzer keeps per-type directive statistics, a per-file complexity count, the set of all features, and a per-feature scattering count.
  - A per-file nesting counter and stack follow the `#if…`/`#endif` structure.
- `CodeAnalyzer` (gcode_parser_marlin.py) gives every stripped line to two analyses.
  - The directive analysis uses an anchored regular expression to recognise eight directive keywords. It then updates run-wide state: per-keyword counts, the set of defined macros, a count of `#ifdef`/`#ifndef` tests of macros not yet defined, and a stack of open conditions.
  - The G-code analysis counts every whole-word `G` followed by one or two digits, and records each match.

Modules, one per file:

- `Text` (text.dfy): the character classes, `str.strip`, and prefix tests.
- `Tally` (tally.dfy): `defaultdict(int)` as a counter map, with the sum of its values.
- `FeatureExtraction` (feature_extraction.dfy): `_extract_features`. It is a left-to-right scanner with `re.findall` semantics for the pattern at parser_marlin.py:84. The filter of parser_marlin.py:86 collects the captures one match at a time, and a lemma proves the result equal to the source's set comprehension.
- `VariabilityAnalysis` (variability_analysis.dfy): the line classification, the functions that define the points and the depth of a file, and the class `CPPVariabilityAnalyzer`.
- `DirectiveSyntax` (directive_syntax.dfy): the directive regular expression at gcode_parser_marlin.py:52.
- `GcodeScanning` (gcode_scanning.dfy): `re.findall` of the G-code pattern at gcode_parser_marlin.py:74. It comes with a reference definition that has no skipping.
- `MacroTracking` (macro_tracking.dfy): `_analyze_directive` as a function on the macro state, and the directive part of `analyze_file` over a file's lines.
- `CodeAnalysis` (code_analysis.dfy): the instruction records, and the class `CodeAnalyzer`.

Each class is proved against the pure functions that define its results. Its methods state their new state with those functions. The invariants tie every counter to the records it summarises:

- `CPPVariabilityAnalyzer.Valid`:
  - `file_complexity` counts the points per file, and its values sum to the number of points;
  - `feature_scattering` counts the points mentioning each feature;
  - `features` is the union of the points' feature sets;
  - `directive_stats` counts each point once, and `#else`/`#elif` points twice.
- `CodeAnalyzer.Valid`:
  - the opening directives number the frames on the stack plus the frames popped, and no more frames were popped than `#endif`s seen;
  - frames and macro names are well formed;
  - `gcode_stats` counts the records per instruction, and its values sum to the number of records.

Some of the source's inline code appears as separate methods, each with its own contract. The code is the same; it is split only to keep each proof small:

- `RecordPoint` and `TrackFeatures`: the updates of `_process_directive` once its record is built, and its feature loop.
- `AnalyzeLine`, `OpenBlock`, `RecordAlternative`, `CountAgain` and `CloseBlock`: the line loop body of `analyze_file`.
- `RecordDirective`, `TrackMacro` and `TrackCondition`: the body of `_analyze_directive`.

Modelling choices:

- A file is its path plus the sequence of its lines. Line numbers count from 1, as `enumerate(file, 1)` does.
- Python's `\s`, `\w`, `str.strip` and `str.split` are taken over ASCII.
  - Whitespace is space, 9 to 13, and 28 to 31.
  - Word characters are `[A-Za-z0-9_]`.
- `defaultdict(int)` becomes a map plus `Get`, which reads a missing key as 0.
- A Python string key such as `"ifdef"` becomes a constructor of a datatype.
- A record dictionary becomes a datatype.
- The ghost field `CodeAnalyzer.pops` counts successful pops, so that the stack accounting can be stated.

Behaviours of the code that the model keeps and proves:

- `#define`/`#undef` lines are not variation points. parser_marlin.py:33-54 has no branch for them, and `CodeAnalyzer` records no variation points at all.
- The macro group of the directive pattern at gcode_parser_marlin.py:52 captures the first word after any keyword, so `#if defined(X)` captures `defined`.
- `#else`/`#elif` lines are counted twice in `directive_stats`, once at parser_marlin.py:63 and once at :47/:50.
- `defined X` without parentheses yields the feature `defined`.
- `0x10` yields `x10`.
- The `isdigit` filter at parser_marlin.py:86 never removes anything.
- `G01` and `G1` are different instructions.
- Macro state carries from one file into the next.

## Model

| member | source | states |
|---|---|---|
| Text.Strip | parser_marlin.py:28 | the result is a slice of the line with only whitespace cut on either side, and neither end of the result is whitespace |
| Text.StripIdempotent | parser_marlin.py:28 | stripping twice is stripping once |
| Text.StripEmptyIffBlank | parser_marlin.py:28-29 | a line is empty after stripping exactly when it is all whitespace |
| Tally.Bump | parser_marlin.py:64 | `d[k] += 1` on a `defaultdict(int)`: key k is added, its count rises by one, and every other count is unchanged |
| Tally.Get | gcode_parser_marlin.py:9-16 | reading a `defaultdict(int)`: the stored count, or 0 for an absent key. No contract of its own; the contract of `Bump` is stated through it |
| Tally.SumAfterBump | parser_marlin.py:64 | one `+= 1` raises the sum of all counts by exactly one |
| FeatureExtraction.SkipSpace | parser_marlin.py:84 | `\s*` is greedy: the run it matches lies within the text, is all whitespace, and stops at the end of the text or before a non-whitespace character |
| FeatureExtraction.IdentEnd | parser_marlin.py:84 | the identifier pattern, from a letter or `_`, spans a non-empty identifier |
| FeatureExtraction.MatchParenIdent | parser_marlin.py:84 | `\(\s*IDENT\s*\)` ends at a `)` at least three characters on, and it captures an identifier (its exact language is stated by MatchParenIdentOn and MatchParenIdentShape) |
| FeatureExtraction.MatchDefinedCall | parser_marlin.py:84 | a match of the `defined(...)` alternative starts with `defined` and ends at `)`, and it captures an identifier (its exact language is stated by MatchDefinedCallOn and MatchDefinedCallShape) |
| FeatureExtraction.Scan | parser_marlin.py:84-85 | every capture of `re.findall` is an identifier `[A-Za-z_][A-Za-z0-9_]*` |
| FeatureExtraction.ExtractFeatures | parser_marlin.py:82-86 | `_extract_features`: the `findall` captures kept by the filter. No contract of its own; its meaning is given by `ExtractFeaturesIsComprehension` (the set comprehension over every capture), `FeaturesAreIdentifiers` and `NoFeaturesIff` |
| FeatureExtraction.FeaturesAreIdentifiers | parser_marlin.py:84-86 | every feature is an identifier and is not purely numeric |
| FeatureExtraction.NoFeaturesIff | parser_marlin.py:84-86 | a condition has no features exactly when none of its characters can start an identifier |
| FeatureExtraction.ScanEmptyIff | parser_marlin.py:84-85 | `findall` finds nothing exactly when no character can start an identifier |
| FeatureExtraction.FilterKeepsEveryCapture | parser_marlin.py:86 | the `isdigit` filter removes nothing: the features are exactly the captures |
| FeatureExtraction.KeptCapturesAreFiltered | parser_marlin.py:86 | collecting the captures one match at a time builds the set comprehension over all the captures: non-empty, not all digits, with duplicates merged |
| FeatureExtraction.ExtractFeaturesIsComprehension | parser_marlin.py:84-86 | the features of a condition are exactly the comprehension over its `findall` captures |
| FeatureExtraction.EmptyConditionHasNoFeatures | parser_marlin.py:59-60 | the empty condition has no features |
| FeatureExtraction.FlagIrrelevantBeforeNonWord | parser_marlin.py:84 | before a non-word character the `\b` of the first alternative makes no difference |
| FeatureExtraction.SkipSeparators | parser_marlin.py:84-85 | a run of non-word characters yields nothing, and scanning resumes after it |
| FeatureExtraction.SkipNoSpace | parser_marlin.py:84 | `\s*` matches nothing before a non-whitespace character |
| FeatureExtraction.IdentEndOf | parser_marlin.py:84 | an identifier followed by a non-word character, or by the end, is matched exactly to its end |
| FeatureExtraction.SkipSpaceOver | parser_marlin.py:84 | `\s*` run over a whitespace string w, in front of a non-whitespace character, ends right after w |
| FeatureExtraction.ParenPartsIff | parser_marlin.py:84 | an occurrence of `(` w2 X w3 `)` is an occurrence of each of its five parts, one after the other |
| FeatureExtraction.ParenSteps | parser_marlin.py:84 | on `(` w2 X w3 `)` with w2, w3 whitespace and X an identifier, each step of `\(\s*IDENT\s*\)` stops where that part ends, and the identifier step spans X |
| FeatureExtraction.MatchParenIdentAt | parser_marlin.py:84 | `(`, the `\s*` run, an identifier, the `\s*` run and `)` at the positions the steps reach give the match, capturing the identifier |
| FeatureExtraction.MatchParenIdentOn | parser_marlin.py:84 | `(` w2 X w3 `)`, for any whitespace w2 and w3 and identifier X, matches `\(\s*IDENT\s*\)`, capturing X and ending right after the `)` |
| FeatureExtraction.MatchParenIdentShape | parser_marlin.py:84 | conversely, every match of `\(\s*IDENT\s*\)` is `(`, whitespace, the captured identifier, whitespace and `)`, with the length to match |
| FeatureExtraction.DefinedPartsIff | parser_marlin.py:84 | an occurrence of `defined` w1 `(` w2 X w3 `)` is an occurrence of `defined` w1 followed by one of the parenthesised part |
| FeatureExtraction.DefinedSteps | parser_marlin.py:84 | on `defined` w1 `(`..., the text starts with `defined`, the `\s*` run ends after w1, and the parenthesised part follows there |
| FeatureExtraction.MatchDefinedCallAt | parser_marlin.py:84 | after `defined` and its `\s*` run, the first alternative is the parenthesised part |
| FeatureExtraction.MatchDefinedCallOn | parser_marlin.py:84 | `defined` w1 `(` w2 X w3 `)`, for any whitespace w1, w2, w3 and identifier X, matches the first alternative, capturing X, with the match length covering it all |
| FeatureExtraction.MatchDefinedCallShape | parser_marlin.py:84 | conversely, every match of the first alternative is `defined`, whitespace, `(`, whitespace, the captured identifier, whitespace and `)`, with the length to match |
| FeatureExtraction.DefinedCallYieldsIdent | parser_marlin.py:84-85 | `defined` w1 `(` w2 X w3 `)`, with any whitespace, followed by anything yields X, then the captures of the rest |
| FeatureExtraction.BareIdentIsNoDefinedCall | parser_marlin.py:84 | a whole identifier other than `defined` never starts a match of the `defined(...)` alternative |
| FeatureExtraction.ScanIdentStep | parser_marlin.py:84-85 | where the first alternative does not match, the second takes the longest identifier, and scanning resumes after it |
| FeatureExtraction.BareIdentYieldsIdent | parser_marlin.py:84-85 | a bare identifier other than `defined`, ending at a word boundary, is captured whole |
| FeatureExtraction.SingleIdent | parser_marlin.py:84-85 | a condition that is one identifier yields exactly that identifier |
| FeatureExtraction.SingleIdentFeatures | parser_marlin.py:84-86 | a condition that is one identifier has exactly that identifier as its one feature |
| FeatureExtraction.DefinedWrapperTransparent | parser_marlin.py:84-86 | `defined` w1 `(` w2 X w3 `)`, with any whitespace, and bare `X` give the same feature set, namely X plus the features of the rest |
| FeatureExtraction.DefinedSpaceIdentIsNoCall | parser_marlin.py:84 | `defined`, any non-empty whitespace and an identifier X, without parentheses, is no match of the first alternative |
| FeatureExtraction.DefinedWithoutParens | parser_marlin.py:84-85 | `defined`, any non-empty whitespace and an identifier X, without parentheses, yields `defined` and then X |
| FeatureExtraction.DigitThenIdent | parser_marlin.py:84-85 | a digit before an identifier is skipped, so the identifier is captured alone |
| FeatureExtraction.SeparatorsThenIdent | parser_marlin.py:84-86 | non-word separators followed by one identifier give exactly that identifier |
| FeatureExtraction.ExampleConjunction | parser_marlin.py:84-86 | `defined(X) && Y`, with the same whitespace w around each part of the call, and `X && Y` both yield {X, Y} |
| FeatureExtraction.ExampleHexLiteral | parser_marlin.py:84-86 | `0x10` yields the feature `x10` |
| FeatureExtraction.ExampleDuplicates | parser_marlin.py:84-86 | repeated identifiers collapse to one feature |
| VariabilityAnalysis.DirectivePrefixes | parser_marlin.py:33-54 | which of the tested prefixes exclude or imply each other: `#ifdef`/`#ifndef` imply `#if`; `#else` and `#elif` exclude `#if` and each other; `#endif`, `#define`, `#undef` and `#include` exclude the conditional prefixes |
| VariabilityAnalysis.Classify | parser_marlin.py:29-51 | the ordered `startswith` tests: `#ifdef`/`#ifndef` are never classified as `#if`, `#endif` is recognised exactly by its prefix, and `#define`/`#undef`/`#include` lines and non-`#` lines are skipped |
| VariabilityAnalysis.ClassifyByPrefix | parser_marlin.py:33-51 | each role exactly, in the order of the tests: `#ifdef` iff the line starts with `#ifdef`, `#ifndef` iff with `#ifndef`, `#if` iff with `#if` but neither of those, `#else` iff with `#else`, `#elif` iff with `#elif`, `#endif` iff with `#endif` |
| VariabilityAnalysis.Condition | parser_marlin.py:59 | the condition is no longer than the line and does not start with whitespace |
| VariabilityAnalysis.ConditionAfterFirstToken | parser_marlin.py:59 | the condition is everything after the first token and the whitespace after it |
| VariabilityAnalysis.ConditionOfLoneToken | parser_marlin.py:59-60 | a line that is a single token has the empty condition, and so has no features |
| VariabilityAnalysis.PointFor | parser_marlin.py:59-75 | the record `_process_directive` appends: type, line, file, condition, its features and the depth. No contract of its own; `PointsOfDirective`, `PointsDescribeTheirLines` and `CPPVariabilityAnalyzer.ProcessDirective` are stated through it |
| VariabilityAnalysis.NextDepth | parser_marlin.py:33-54 | the depth after one line: +1 for an opener, −1 floored at 0 for `#endif`, unchanged otherwise. No contract of its own; it is the step of `DepthAfter`, and its effect is stated through `DepthAfter` by `SkippedLineChangesNothing`, `EndIfLineClosesBlock` and `DepthAccounting` |
| VariabilityAnalysis.DepthAfter | parser_marlin.py:33-54 | the depth after a file's lines, starting at 0. No contract of its own; its meaning is given by `DepthAccounting` (depth ≤ openers ≤ depth + `#endif` lines) and `CPPVariabilityAnalyzer.AnalyzeFile` |
| VariabilityAnalysis.LinePoints | parser_marlin.py:29-54 | the points one stripped line adds: its record for a conditional directive, none otherwise. No contract of its own; its meaning is given by `LinePointsOfType` and `PointsOfDirective` |
| VariabilityAnalysis.FilePoints | parser_marlin.py:27-54 | the points of a file in line order, lines numbered from 1. No contract of its own; its meaning is given by `PointsDescribeTheirLines`, `PointsPerType`, `PointsInLineOrder` and `FilePointsSplit` |
| VariabilityAnalysis.AppendPoint | parser_marlin.py:63-80 | appending a point changes each per-type, per-file and per-feature count by exactly what that point contributes, and adds its file and features to the sets |
| VariabilityAnalysis.DepthAccounting | parser_marlin.py:33-54 | after any lines, depth ≤ number of opening lines ≤ depth + number of `#endif` lines |
| VariabilityAnalysis.SkippedLineChangesNothing | parser_marlin.py:29-30 | a line that is skipped adds no point and does not move the depth |
| VariabilityAnalysis.IfDefLineOf | parser_marlin.py:28-33 | `#ifdef X`, X an identifier, is unchanged by stripping, is an `#ifdef` line, and has condition X |
| VariabilityAnalysis.EndIfLine | parser_marlin.py:28-51 | `#endif` is unchanged by stripping and closes a block |
| VariabilityAnalysis.EndIfLineClosesBlock | parser_marlin.py:51-54 | an `#endif` line adds no point and lowers the depth by one, or leaves it at 0 |
| VariabilityAnalysis.OneBlockFile | parser_marlin.py:27-54 | a file of one block-opening line and an `#endif` has the opening line's record alone, at line 1 and depth 0, and ends at depth 0 |
| VariabilityAnalysis.ExampleIfDefEndIf | parser_marlin.py:27-86 | the file `#ifdef X` / `#endif`, for any identifier X (`FEATURE_X`, say), yields the single `#ifdef` point at line 1 with condition X, features {X} and nesting 0, and ends at depth 0 |
| VariabilityAnalysis.CountOfTypeConcat | parser_marlin.py:75 | counting the points of a type distributes over concatenation |
| VariabilityAnalysis.LinePointsOfType | parser_marlin.py:33-50 | a line contributes a point of type k exactly when it is a directive of type k |
| VariabilityAnalysis.PointsPerType | parser_marlin.py:33-50 | the points of a type in a file are exactly the lines of that type |
| VariabilityAnalysis.DescribesExtends | parser_marlin.py:27-28 | a point that describes a line of a file still describes it once more lines follow |
| VariabilityAnalysis.FilePointsSplit | parser_marlin.py:27-54 | a file's points are the points of its earlier lines, followed by the points of its last line |
| VariabilityAnalysis.LastLinePointDescribes | parser_marlin.py:33-50 | a point of a file's last line is the record of that line, with the depth before it |
| VariabilityAnalysis.LastLinePointLine | parser_marlin.py:27-28 | a point of a file's last line carries that line's number, counted from 1 |
| VariabilityAnalysis.EarlierPointDescribes | parser_marlin.py:27-54 | a point of an earlier line still describes that line once the last line is added |
| VariabilityAnalysis.PointsDescribeTheirLines | parser_marlin.py:56-75 | every point of a file is the record of its own line: the line's type, its condition and features, and the depth before it |
| VariabilityAnalysis.PointsInLineOrder | parser_marlin.py:27-75 | points are appended in strictly increasing line order |
| VariabilityAnalysis.AggregatesAfterPoint | parser_marlin.py:63-80 | recording a point keeps every aggregate in agreement with the points: complexity per file, the sum of complexities equal to the number of points, the feature union, and the scattering per feature |
| VariabilityAnalysis.StatsAfterPoint | parser_marlin.py:63 | adding a point's weight to its type's count keeps `directive_stats` in agreement with the points |
| VariabilityAnalysis.PointsOfDirective | parser_marlin.py:33-50 | a conditional line contributes exactly its own record |
| VariabilityAnalysis.StatsAfterPointCountedTwice | parser_marlin.py:45-50 | for `#else`/`#elif`, the count at :63 and the extra count at :47/:50 together keep `directive_stats` in agreement |
| VariabilityAnalysis.StepLine | parser_marlin.py:27-54 | one more line: the points and the depth after it follow from the earlier lines |
| VariabilityAnalysis.CPPVariabilityAnalyzer.constructor | parser_marlin.py:9-20 | no points, features or counts; all five directive types are present with count 0; the invariant holds |
| VariabilityAnalysis.CPPVariabilityAnalyzer.ProcessDirective | parser_marlin.py:56-80 | appends exactly the record of the line; adds 1 to its type's count and to its file's complexity; adds the condition's features to `features`; raises each of their scattering counts by 1 and no other |
| VariabilityAnalysis.CPPVariabilityAnalyzer.RecordPoint | parser_marlin.py:63-80 | appends exactly the given record; adds 1 to its type's count and to its file's complexity; adds its features to `features`; raises each of their scattering counts by 1 and no other; the aggregates stay in agreement with the points |
| VariabilityAnalysis.CPPVariabilityAnalyzer.TrackFeatures | parser_marlin.py:78-80 | every feature of the line is added to `features`, and its scattering count rises by exactly 1 |
| VariabilityAnalysis.CPPVariabilityAnalyzer.AnalyzeFile | parser_marlin.py:22-54 | the file appends exactly the points of its lines, and the invariant is kept; throughout, counter == stack length == depth of the lines so far, and the stack is exactly [1..counter] |
| VariabilityAnalysis.CPPVariabilityAnalyzer.AnalyzeLine | parser_marlin.py:28-54 | one stripped line: appends its points, sets the depth to the next depth, and keeps the stack as [1..depth]; a line that is not a conditional changes no field |
| VariabilityAnalysis.CPPVariabilityAnalyzer.OpenBlock | parser_marlin.py:33-44 | records the depth before the line, then raises depth and stack by exactly one |
| VariabilityAnalysis.CPPVariabilityAnalyzer.RecordAlternative | parser_marlin.py:45-50 | records the current depth and adds 2 to the type's count |
| VariabilityAnalysis.CPPVariabilityAnalyzer.CountAgain | parser_marlin.py:45-50 | the extra `+= 1` of the line loop makes the type's count the point's weight (2) more than before the point, in agreement with the points again |
| VariabilityAnalysis.CPPVariabilityAnalyzer.CloseBlock | parser_marlin.py:51-54 | pops one level when the stack is non-empty, otherwise does nothing; depth stays equal to the stack length |
| DirectiveSyntax.SpellingIsWord | gcode_parser_marlin.py:52 | every keyword of the alternation is a run of word characters |
| DirectiveSyntax.MacroAfter | gcode_parser_marlin.py:52 | the optional group `(\w+)?` after whitespace, when present, is a non-empty word run |
| DirectiveSyntax.FirstKeyword | gcode_parser_marlin.py:52 | the alternative found matches as a whole word; if none is found, no alternative matches |
| DirectiveSyntax.MatchDirective | gcode_parser_marlin.py:52-55 | a match needs a leading `#`, and a captured macro is a non-empty word run |
| DirectiveSyntax.WholeWordsExclusive | gcode_parser_marlin.py:52 | two different words cannot both begin the same text as whole words |
| DirectiveSyntax.KeywordUnique | gcode_parser_marlin.py:52 | at most one keyword matches, so the order of the alternatives never matters |
| DirectiveSyntax.FirstKeywordFinds | gcode_parser_marlin.py:52 | whichever keyword matches is the one the alternation finds |
| DirectiveSyntax.MatchDirectiveIff | gcode_parser_marlin.py:52-54 | a line is a directive of kind d exactly when it starts with `#` and, after whitespace, d's keyword stands as a whole word |
| DirectiveSyntax.KeywordStartAfter | gcode_parser_marlin.py:52 | after `#` and whitespace, matching continues at the first non-space character |
| DirectiveSyntax.MatchAtKeyword | gcode_parser_marlin.py:52-55 | a keyword at that position gives the match of that kind, with the macro taken from what follows the keyword |
| DirectiveSyntax.MacroAfterWord | gcode_parser_marlin.py:52-55 | the macro is the whole word run that follows the whitespace |
| DirectiveSyntax.MacroAfterNoWord | gcode_parser_marlin.py:52-55 | there is no macro when the whitespace is followed by a non-word character |
| DirectiveSyntax.MatchDirectiveOf | gcode_parser_marlin.py:52-55 | `#`, whitespace, a keyword, whitespace and a word run give that kind, with that word as the macro |
| DirectiveSyntax.MatchDirectiveWithoutMacro | gcode_parser_marlin.py:52-55 | `#else`, `#if (X)` and `#endif // X` match with no macro |
| DirectiveSyntax.IfDefinedCapturesDefined | gcode_parser_marlin.py:52-55 | `#if defined(X)` captures the macro `defined` |
| DirectiveSyntax.NoKeywordBeforeIn | gcode_parser_marlin.py:52 | no keyword of the alternation starts text that begins with `in` |
| DirectiveSyntax.IncludeIsNoDirective | gcode_parser_marlin.py:52-53 | `#include` lines are not directives |
| GcodeScanning.GcodeDigitsAt | gcode_parser_marlin.py:74 | a match has at most two digits |
| GcodeScanning.GcodeDigitsAtIff | gcode_parser_marlin.py:74 | the digit count found is the only k for which `G`, k digits (1 or 2) and a word boundary match |
| GcodeScanning.FindGcodes | gcode_parser_marlin.py:74 | `re.findall` of the G-code pattern, resuming after each match. No contract of its own; its meaning is given by `FindGcodesIsEveryCapture` (equal to matching at every position), `GcodeDigitsAtIff` (for the match it takes at one position) and `FindGcodesAreDigits` |
| GcodeScanning.FindGcodesAreDigits | gcode_parser_marlin.py:74 | every capture `findall` returns is a run of one or two digits |
| GcodeScanning.MatchIsWordChars | gcode_parser_marlin.py:74 | a match lies inside the line, and its `G` and its digits are all word characters |
| GcodeScanning.SkipAfterWord | gcode_parser_marlin.py:74 | no position preceded by a word character matches, so a run of word characters contributes nothing |
| GcodeScanning.AllCapturesAtMatch | gcode_parser_marlin.py:74 | at a match, trying every position gives the digits and then nothing until behind the match |
| GcodeScanning.FindGcodesIsEveryCapture | gcode_parser_marlin.py:74 | `findall`, which resumes behind each match, returns the capture of every position where the pattern matches, left to right |
| GcodeScanning.NoLetterGNoCaptures | gcode_parser_marlin.py:74 | a line without `G` has no instruction |
| GcodeScanning.SkipWithoutG | gcode_parser_marlin.py:74 | text without `G` is skipped, and scanning resumes after it |
| GcodeScanning.DigitsOfWholeGcode | gcode_parser_marlin.py:74 | `G`, one or two digits and a non-word character (or the line end) match with exactly those digits |
| GcodeScanning.WholeGcodeFound | gcode_parser_marlin.py:74-76 | a whole-word `G` with one or two digits yields exactly those digits, leading zeros kept |
| GcodeScanning.LeadingZeroKept | gcode_parser_marlin.py:74-76 | `G01` yields `01` and `G1` yields `1` |
| GcodeScanning.ThreeDigitsIgnored | gcode_parser_marlin.py:74 | `G123` yields nothing |
| GcodeScanning.WordBeforeIgnored | gcode_parser_marlin.py:74 | any word character before `G1` (`XG1`, `_G1`, `GG1`) leaves nothing |
| GcodeScanning.WordAfterIgnored | gcode_parser_marlin.py:74 | `G1a` yields nothing |
| GcodeScanning.LowerCaseIgnored | gcode_parser_marlin.py:74 | `g1` yields nothing |
| GcodeScanning.SeveralOnOneLine | gcode_parser_marlin.py:74-75 | `G28 X0; G1` yields `28` and then `1` |
| GcodeScanning.TwoAfterGaps | gcode_parser_marlin.py:74 | two whole instructions, each preceded by text without `G` that ends in a separator, yield their digits in order and nothing else |
| GcodeScanning.CommentLineScanned | gcode_parser_marlin.py:74 | the comment line `// G1 move to G28 home` yields `1` and then `28`: the pattern does not care that the line is a comment |
| MacroTracking.ApplyMatch | gcode_parser_marlin.py:53-71 | the state after one recognised directive. No contract of its own; its meaning is given by `CountsOneMore`, `DefineAdds`, `UndefRemoves`, `UndefinedUseIff`, `OpeningPushes`, `EndIfPops` and `MatchKeepsBalanced` |
| MacroTracking.ApplyDirective | gcode_parser_marlin.py:51-71 | `_analyze_directive` on the state: unchanged without a match, `ApplyMatch` otherwise. No contract of its own; its meaning is given by `NonDirectiveInert` and `ApplyKeeps` |
| MacroTracking.RunLines | gcode_parser_marlin.py:40-44 | the directive part of `analyze_file`, lines stripped and numbered from 1. No contract of its own; its meaning is given by `RunLinesSplit`, `RunLinesKeeps` and `DefinedInEarlierFile` |
| MacroTracking.NonDirectiveInert | gcode_parser_marlin.py:52-53 | a line that does not match changes no count, macro or frame |
| MacroTracking.NoHashNoDirective | gcode_parser_marlin.py:52 | a line that does not start with `#` does not match |
| MacroTracking.CountsOneMore | gcode_parser_marlin.py:57 | every recognised directive, including `endif`, `define` and `undef`, adds 1 to its own count and to no other |
| MacroTracking.DefineAdds | gcode_parser_marlin.py:59-60 | `#define M` adds M, and leaves the undefined uses and the stack unchanged |
| MacroTracking.DefineIdempotent | gcode_parser_marlin.py:59-60 | defining a macro twice is the same as defining it once |
| MacroTracking.UndefRemoves | gcode_parser_marlin.py:61-62 | `#undef M` removes M, and does nothing when M is absent |
| MacroTracking.NoMacroKeepsMacros | gcode_parser_marlin.py:59-65 | without a macro, no directive touches the defined set or the undefined uses |
| MacroTracking.UndefinedUseIff | gcode_parser_marlin.py:63-65 | `#ifdef`/`#ifndef M` adds 1 to M's undefined uses exactly when M is not defined at that moment; nothing else changes |
| MacroTracking.OnlyTestsCountUses | gcode_parser_marlin.py:63-65 | `#if` and all the other directives never count an undefined use |
| MacroTracking.OpeningPushes | gcode_parser_marlin.py:67-68 | `#ifdef`/`#ifndef`/`#if` push one frame holding the directive, the macro, the file and the line |
| MacroTracking.EndIfPops | gcode_parser_marlin.py:69-71 | `#endif` pops one frame when the stack is non-empty and does nothing otherwise; the other directives leave the stack alone |
| MacroTracking.DefineLineMatches | gcode_parser_marlin.py:52-55 | `#define M` is recognised as `define` with macro M |
| MacroTracking.IfDefLineMatches | gcode_parser_marlin.py:52-55 | `#ifdef M` is recognised as `ifdef` with macro M |
| MacroTracking.DefineBeforeTest | gcode_parser_marlin.py:59-65 | `#define M` then `#ifdef M` counts no undefined use; the reverse order counts one |
| MacroTracking.RunOneLine | gcode_parser_marlin.py:40-44 | a one-line file whose line needs no stripping is processed as line 1 |
| MacroTracking.DefinedInEarlierFile | gcode_parser_marlin.py:10-12 | a macro defined in one file is still defined when a later file tests it, so that test counts no undefined use |
| MacroTracking.MatchKeepsBalanced | gcode_parser_marlin.py:57-71 | one directive keeps stack length ≤ openings ≤ stack length + `#endif`s |
| MacroTracking.MatchKeepsWellFormed | gcode_parser_marlin.py:59-71 | frames come only from opening directives, and every recorded macro name is a word run |
| MacroTracking.ApplyKeeps | gcode_parser_marlin.py:51-71 | any line keeps both invariants |
| MacroTracking.RunLinesKeeps | gcode_parser_marlin.py:40-44 | any sequence of lines keeps both invariants |
| MacroTracking.InitialKeeps | gcode_parser_marlin.py:9-12 | the initial state satisfies both invariants |
| MacroTracking.RunLinesSplit | gcode_parser_marlin.py:40-44 | one more line applies that line's directive to the state left by the earlier lines |
| CodeAnalysis.Mentions | gcode_parser_marlin.py:75-83 | the records appended for a line's matches, in order. No contract of its own; its meaning is given by `MentionsDescribeMatches` and `MentionsStep` |
| CodeAnalysis.LineMentions | gcode_parser_marlin.py:73-83 | what `_analyze_gcode_line` appends. No contract of its own; its meaning is given by `LineMentionsShape` and `CodeAnalyzer.AnalyzeGcodeLine` |
| CodeAnalysis.FileMentions | gcode_parser_marlin.py:40-47 | the records of a whole file, lines stripped and numbered from 1. No contract of its own; its meaning is given by `FileMentionsStep` and `CodeAnalyzer.AnalyzeFile` |
| CodeAnalysis.MentionsDescribeMatches | gcode_parser_marlin.py:75-83 | one record per match, in match order: the instruction is `G` + digits, and the record carries the file, line number and line |
| CodeAnalysis.LineMentionsShape | gcode_parser_marlin.py:74-83 | every record names `G` followed by one or two digits, and carries the file, line number and stripped line |
| CodeAnalysis.CountAfterMention | gcode_parser_marlin.py:77-83 | a new record adds 1 to its instruction's count and adds the instruction to the set |
| CodeAnalysis.GcodeAgreeAfterMention | gcode_parser_marlin.py:77-83 | counting and recording a match keeps `gcode_stats` equal to the per-instruction counts of the records, and their sum equal to the number of records |
| CodeAnalysis.MentionsStep | gcode_parser_marlin.py:75-83 | one more match appends exactly its record |
| CodeAnalysis.FileMentionsStep | gcode_parser_marlin.py:40-47 | one more line appends exactly that line's records |
| CodeAnalysis.StackAccountedAfter | gcode_parser_marlin.py:67-71 | openings == frames + pops, and pops ≤ `#endif`s, are kept by one directive |
| CodeAnalysis.CodeAnalyzer.constructor | gcode_parser_marlin.py:7-17 | empty counts, macros, stack and records; no files analyzed; the invariant holds |
| CodeAnalysis.CodeAnalyzer.AnalyzeDirective | gcode_parser_marlin.py:51-71 | the new macro state is the pure directive step applied to the old one, and the invariant is kept |
| CodeAnalysis.CodeAnalyzer.RecordDirective | gcode_parser_marlin.py:54-71 | a matched directive updates the state exactly as the pure step does, and keeps the frame accounting |
| CodeAnalysis.CodeAnalyzer.TrackMacro | gcode_parser_marlin.py:59-65 | the defined set and the undefined uses are updated as the define/undef/test branches say |
| CodeAnalysis.CodeAnalyzer.TrackCondition | gcode_parser_marlin.py:67-71 | push on an opening directive, pop on `#endif` when non-empty, with the pop counted |
| CodeAnalysis.CodeAnalyzer.AnalyzeGcodeLine | gcode_parser_marlin.py:73-83 | appends exactly the records of the line's matches in order, and keeps `gcode_stats` in agreement |
| CodeAnalysis.CodeAnalyzer.AnalyzeFile | gcode_parser_marlin.py:37-47 | the macro state continues from the old state through every stripped line; the records of every line are appended; the invariant is kept |

## Left out

- File I/O is not modelled: opening a file, decoding with `errors='ignore'`, and splitting into lines. A file is given as its path and its line sequence.
- Directory walking is not modelled: `os.walk`, the extension filter, and `analyze_codebase`. For the same reason, `files_analyzed` is only initialised to 0 and never incremented.
- The `try`/`except` of `CodeAnalyzer.analyze_file` (gcode_parser_marlin.py:38-49) is not modelled, because reading cannot fail in the model. parser_marlin.py has no `try`/`except`.
- Plotting is not modelled: `visualize_results` and all matplotlib code.
- Output and the command line are not modelled: summary printing, `argparse` and `__main__`.
- Top-N sorting is not modelled, because it only feeds the plots and the printed summaries.
- Python's Unicode rules for `str.strip`, `str.split`, `\s` and `\w` are replaced by their ASCII subsets.
- The iteration order of Python dictionaries and sets is not modelled. Maps and sets are unordered here.
