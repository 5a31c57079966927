# LaTeX text analyzer — a Dafny model

This project models the analyzer of tex-tally-online. The analyzer takes the raw text of a
`.tex` file and returns manuscript metrics: words, characters, sentences, paragraphs,
figures, tables, equations, `\bibitem` entries, distinct cite keys, and the word count of
the abstract. The same analyzer exists three times:

- the web copy, which also renders the highlighted preview;
- the server copy, which runs the preamble and metadata pass twice;
- the worker copy, which has no preamble and metadata pass.

The model has one analyzer with a `Variant` (`Web | Server | Worker`), whose only effect
is the number of preamble rounds (1, 2 or 0). Around the analysis, each HTTP handler checks
the filename and derives the word-limit and reference-limit constraints.

The analysis runs in three stages, and the model keeps them apart:

1. Structural counts are taken on the raw source: figures, tables, equations, `\bibitem`s
   and the set of cite keys. Commented-out markup is therefore still counted.
2. A fixed sequence of global, left-to-right, non-overlapping replaces turns the source
   into prose:
   - comments;
   - the sixteen excluded environments, in list order;
   - math;
   - the preamble rounds;
   - label and ref commands;
   - citations;
   - the unwrapping of one-argument commands;
   - the deletion of any command left over.
3. The counters run on the stripped text. The abstract's words come from one recursive
   analysis of the inner text of the first abstract environment.

Modules, one per file:

- `Wrappers`, `Chars` (`chars.dfy`): `Option`, and the character classes of the regular
  expressions.
- `Scanner` (`scanner.dfy`): one hand-written matcher per fixed regular expression of the
  source (`MatchAt`). On top of it sit JavaScript's global `replace`, global
  `match`/`matchAll`, first `match`, and `split` with and without a capture group.
  Wherever a pattern can backtrack, the matcher tries the alternatives in the engine's
  order.
- `Comments` (`comments.dfy`): `stripComments`. The per-line `while` loop is a method,
  proved against the first-unescaped-`%` cut.
- `Passes` (`passes.dfy`): the rewrite passes, and what each does to the forms it is meant
  for.
- `Counters` (`counters.dfy`): `trim`, `normalizeSpaces`, the character, word, sentence and
  paragraph counts.
- `Analyzer` (`analyzer.dfy`): `analyzeLatex` / `analyzeLatexTextOnly` of the three copies,
  the cite-key loop, the abstract, and properties of the whole pipeline.
- `Scenarios` (`scenarios.dfy`): small documents run through the whole analysis.
- `Highlighter` (`highlighter.dfy`): `escapeHtml` and `buildHighlightedHtml`, with an
  independent read-back of the rendering.
- `Handlers` (`handlers.dfy`): the upload checks and the constraint records of the worker
  and server handlers.

Behaviour the code has and the model keeps:

- An environment name is spliced into the regular expression unescaped. For `equation*`
  the pattern reads `\begin{equatio` then `n*` then `}`. So a literal
  `\begin{equation*}...\end{equation*}` is not removed by the environment passes, and the
  unwrap pass later turns `\begin{equation*}` into the word `equation*`.
- Environments that are not excluded leave their tags behind as words, for example
  `\begin{abstract}` becomes `abstract`.
- The structural counts read the raw text, before comment stripping, so a commented-out
  `\begin{figure}` still counts as a figure.

## Model

| member | source | states |
|---|---|---|
| Scanner.Skip | web/src/lib/latexAnalyzer.ts:63 | a greedy character-class run: every character up to the result is in the class, and the next one is not |
| Scanner.Find | web/src/lib/latexAnalyzer.ts:55 | the lazy `[\s\S]*?CLOSE` stop: the result is the nearest occurrence of the literal, none occurs before it, and none means none anywhere after the start |
| Scanner.MatchAt | web/src/lib/latexAnalyzer.ts:49-68 | a match found at position i is non-empty and ends inside the text |
| Scanner.BibItemAt | web/src/lib/latexAnalyzer.ts:138 | `\bibitem\b` matches exactly where `\bibitem` is followed by the end of the text or by a non-word character |
| Scanner.DelimitedAt | web/src/lib/latexAnalyzer.ts:55-58 | a delimited math span matches only where its opening delimiter stands |
| Scanner.FirstMatch | web/src/lib/latexAnalyzer.ts:123 | `match` without the global flag: the reported match is a real match, and no position before it matches; none means no position matches |
| Scanner.HitsEmptyIff | web/src/lib/latexAnalyzer.ts:118-120 | the global `match` list is empty exactly when no position matches |
| Scanner.ReplaceNoMatch | web/src/lib/latexAnalyzer.ts:51 | a global replace with no match leaves the text unchanged |
| Scanner.ReplaceCopies | web/src/lib/latexAnalyzer.ts:51 | text before the first match is copied unchanged |
| Scanner.SplitNoMatch | web/src/lib/latexAnalyzer.ts:109 | `split` with no separator match gives the whole text as one piece |
| Scanner.ReplaceEachAppend | web/src/lib/latexAnalyzer.ts:145-152 | running two lists of passes one after the other is running their concatenation |
| Scanner.NoMarkerPassesUnchanged | web/src/lib/latexAnalyzer.ts:146-152 | text without a backslash or a dollar sign passes through any sequence of markup passes unchanged |
| Comments.CommentCut | web/src/lib/latexAnalyzer.ts:38-40 | the cut is the first `%` that is at index 0 or not preceded by a backslash, or the end of the line |
| Comments.StripLine | web/src/lib/latexAnalyzer.ts:36-44 | the `while` loop keeps exactly the line before the cut |
| Comments.CutLines | web/src/lib/latexAnalyzer.ts:35-45 | each line is cut at its own first unescaped `%`, and no line is added or lost |
| Comments.StripComments | web/src/lib/latexAnalyzer.ts:32-47 | the method builds the lines split at `\r?\n`, each cut, joined with `\n` |
| Comments.EscapedPercentKept | server/src/latex/analyzer.ts:46 | a line whose only `%` is escaped as `\%` is kept whole, including everything after the `\%` |
| Comments.UnescapedPercentCuts | server/src/latex/analyzer.ts:46 | a line is cut exactly at a `%` with no earlier `%` and no backslash before it |
| Comments.LineCountPreserved | web/src/lib/latexAnalyzer.ts:32-47 | comment stripping preserves the number of `\r?\n`-separated lines |
| Comments.NoPercentUnchanged | web/src/lib/latexAnalyzer.ts:32-47 | text without `%` and without `\r` is unchanged |
| Comments.SingleLineCut | web/src/lib/latexAnalyzer.ts:34-46 | a text of one line becomes that line cut at its first unescaped `%` |
| Comments.JoinSplitLines | web/src/lib/latexAnalyzer.ts:34 | without `\r`, joining the `\n`-split lines with `\n` gives back the text |
| Passes.EnvironmentPasses | web/src/lib/latexAnalyzer.ts:13-30 | one environment pass per excluded name, in list order |
| Passes.RemovePreambleAndMetaCommands | web/src/lib/latexAnalyzer.ts:70-94 | the loop over the remove list, then the two definition patterns, then `\Declare...`, each run once in that order |
| Passes.RemoveEnvironmentNoBegin | web/src/lib/latexAnalyzer.ts:49-52 | text without any `\begin{` is left unchanged by an environment pass |
| Passes.RemoveEnvironmentSpan | web/src/lib/latexAnalyzer.ts:49-52 | `\begin{env}BODY\end{env}`, with BODY holding no end tag before its end, is replaced by exactly one space, and the text around it is kept |
| Passes.NestedNotBalanced | worker/src/latex/analyzer.ts:54-57 | a nested same-named environment is closed at the inner `\end{env}`, so the outer tail and its end tag survive |
| Passes.StarredTagNotMatched | web/src/lib/latexAnalyzer.ts:50 | a literal `\begin{equation*}` is matched neither by the `equation*` pass nor by the `equation` pass |
| Passes.StarredPatternMatchesUnstarred | web/src/lib/latexAnalyzer.ts:50 | the unescaped `equation*` name matches the unstarred `\begin{equation}` tag |
| Passes.UnwrapWhole | web/src/lib/latexAnalyzer.ts:62-64 | `\name[opt]{text}`, with a letter name and brace-free text, becomes exactly `text` |
| Passes.UnwrapTextbf | server/src/latex/analyzer.ts:73-75 | `\textbf{Hello}` becomes `Hello` |
| Passes.UnwrapBeginAbstract | web/src/lib/latexAnalyzer.ts:62-64 | the tag `\begin{abstract}` becomes the word `abstract` |
| Passes.UnwrapBeginStarred | web/src/lib/latexAnalyzer.ts:62-64 | the tag `\begin{equation*}` becomes the word `equation*` |
| Passes.UnwrapUsePackage | worker/src/latex/analyzer.ts:67-69 | `\usepackage{amsmath}` becomes `amsmath` |
| Passes.NestedBracesNotUnwrapped | web/src/lib/latexAnalyzer.ts:63 | a command whose argument opens a nested brace group is not matched by the unwrap pattern |
| Passes.MathPassesKeep | web/src/lib/latexAnalyzer.ts:54-60 | without `$`, `\[` or `\(`, each of the four math passes returns its input |
| Passes.RemoveMathNoDelimiters | web/src/lib/latexAnalyzer.ts:54-60 | `removeMath` leaves such text unchanged |
| Passes.DisplayDollarWhole | web/src/lib/latexAnalyzer.ts:55 | a whole `$$...$$` span is replaced by one space |
| Passes.InlineDollarPairs | web/src/lib/latexAnalyzer.ts:56 | on its own, the single-dollar pass would read `$$x$$` as two empty inline spans and leave `x` between two spaces |
| Passes.DisplayBeforeInline | web/src/lib/latexAnalyzer.ts:55-56 | because `$$` is removed first, `$$x$$` leaves one space, unlike the single-dollar pass on its own |
| Passes.DisplayDollarAt | web/src/lib/latexAnalyzer.ts:55 | in any text, a `$$` whose next `$$` closes it is replaced by one space, and the scan resumes after the closing `$$` |
| Passes.InlineDollarAt | web/src/lib/latexAnalyzer.ts:56 | in any text, a `$` and the next `$` after it are replaced with everything between them by one space, and the scan resumes after the second `$` |
| Passes.DisplayBracketAt | web/src/lib/latexAnalyzer.ts:57 | in any text, `\[` up to the first `\]` after it is replaced by one space, and the scan resumes after the `\]` |
| Passes.InlineParenAt | web/src/lib/latexAnalyzer.ts:58 | in any text, `\(` up to the first `\)` after it is replaced by one space, and the scan resumes after the `\)` |
| Passes.RemoveMathSteps | web/src/lib/latexAnalyzer.ts:54-60 | `removeMath` is the `$$` pass, then the `$` pass, then the `\[` pass, then the `\(` pass |
| Passes.NoDollarKept | web/src/lib/latexAnalyzer.ts:55-56 | text without `$` is left unchanged by both dollar passes |
| Passes.RemoveMathDisplayBracket | web/src/lib/latexAnalyzer.ts:54-60 | a whole `\[...\]` display without `$` becomes one space under `removeMath` |
| Passes.RemoveMathInlineParen | web/src/lib/latexAnalyzer.ts:54-60 | a whole `\(...\)` formula without `$` and without `\[` becomes one space under `removeMath` |
| Passes.ResidualLeavesNoCommand | web/src/lib/latexAnalyzer.ts:66-68 | afterwards no backslash is followed by an ASCII letter or `@` |
| Passes.ResidualKeepsPlain | web/src/lib/latexAnalyzer.ts:66-68 | text with no such backslash is unchanged, which is the converse |
| Passes.ResidualIdempotent | web/src/lib/latexAnalyzer.ts:66-68 | running the leftover-command pass twice equals running it once |
| Passes.MetaCommandWhole | server/src/latex/analyzer.ts:84-96 | each metadata command of the remove list, applied with its brace argument (and bracket option where its pattern allows one), is replaced by one space |
| Passes.MetaOptionalCommands | server/src/latex/analyzer.ts:84-95 | exactly `\documentclass` and `\usepackage` take the optional bracket argument |
| Passes.DefinitionRemoved | web/src/lib/latexAnalyzer.ts:87-88 | in any text, `\NAME{\MACRO}[OPT]{BODY}` for each NAME of a definition pass's alternation is replaced by one space, and the scan resumes after its closing `}` |
| Passes.DefinitionWhole | web/src/lib/latexAnalyzer.ts:86-88 | `\newcommand`, `\renewcommand` and `\providecommand` definitions written on their own each become one space under their pass |
| Passes.MoreGroupsIs | web/src/lib/latexAnalyzer.ts:91 | `(?:\s*\{[\s\S]*?\})*` reads exactly the brace groups `{G1}...{Gn}` when no further group follows |
| Passes.DeclareRemoved | web/src/lib/latexAnalyzer.ts:90-91 | in any text, `\DeclareSUFFIX[OPT]{ARG}{G1}...{Gn}` with no further group after it is replaced by one space, and the scan resumes after it |
| Passes.DeclareWhole | web/src/lib/latexAnalyzer.ts:90-91 | a `\Declare...` command written on its own becomes one space |
| Passes.RefRemoved | server/src/latex/analyzer.ts:166 | `\label`, `\ref`, `\pageref`, `\eqref` or `\autoref` with its brace argument becomes one space, and the scan resumes after it |
| Passes.CiteRemoved | server/src/latex/analyzer.ts:167 | `\cite<word>[opt]{keys}` becomes one space, and the scan resumes after it |
| Passes.CiteWhole | server/src/latex/analyzer.ts:149 | a whole citation is one match whose captured group is its key list, and replacing it leaves one space |
| Counters.TrimStart | web/src/lib/latexAnalyzer.ts:97 | drops exactly the leading whitespace |
| Counters.TrimEnd | web/src/lib/latexAnalyzer.ts:97 | drops exactly the trailing whitespace |
| Counters.TrimSlice | web/src/lib/latexAnalyzer.ts:97 | `trim` keeps a contiguous slice with only whitespace around it, and the slice neither starts nor ends with whitespace |
| Counters.TrimEmptyIff | web/src/lib/latexAnalyzer.ts:109 | `trim().length > 0` holds exactly when the text is not all whitespace |
| Counters.NormalizeSpacesShape | worker/src/latex/analyzer.ts:75-77 | `normalizeSpaces` has no leading or trailing whitespace and no two whitespace characters in a row |
| Counters.TrimKeepsNonSpace | web/src/lib/latexAnalyzer.ts:97 | `trim` removes no non-whitespace character |
| Counters.CharactersAreNonSpace | web/src/lib/latexAnalyzer.ts:154 | `characters` is the number of non-whitespace characters of the content |
| Counters.DropLeadingOther | web/src/lib/latexAnalyzer.ts:103 | `^[^\p{L}\p{N}]+` removes exactly the leading non-letter, non-digit characters |
| Counters.DropTrailingOther | web/src/lib/latexAnalyzer.ts:103 | `[^\p{L}\p{N}]+$` removes exactly the trailing ones |
| Counters.TrimOtherEmptyIff | web/src/lib/latexAnalyzer.ts:103-104 | a token survives the filter exactly when it holds a letter or digit |
| Counters.TokensCount | worker/src/latex/analyzer.ts:79-85 | the surviving tokens are the pieces with a letter or digit, and stripping never adds a token |
| Counters.CountWordsIsTokensWithLetters | web/src/lib/latexAnalyzer.ts:100-106 | `countWords` is the number of whitespace-split pieces with a letter or digit, which is at most the number of pieces |
| Counters.CountWordsBlank | worker/src/latex/analyzer.ts:79-85 | empty or all-whitespace text has no words |
| Counters.CountSentencesBlank | server/src/latex/analyzer.ts:115-118 | empty or all-whitespace text has no sentences |
| Counters.CountSentencesBound | server/src/latex/analyzer.ts:115-118 | the count is at most the number of pieces of the split at `[.!?]+\s+` |
| Counters.OneSentence | server/src/latex/analyzer.ts:115-118 | non-blank text without `.`, `!` or `?` is one sentence |
| Counters.CountParagraphsBlank | server/src/latex/analyzer.ts:120-123 | blank text has no paragraphs |
| Counters.OneParagraph | server/src/latex/analyzer.ts:120-123 | non-blank text with no `\n\s*\n` is one paragraph |
| Counters.OneLineOneParagraph | server/src/latex/analyzer.ts:120-123 | non-blank text without a line feed is one paragraph |
| Counters.BlankSplitCountsNothing | web/src/lib/latexAnalyzer.ts:108-116 | any split of blank text leaves no non-blank piece |
| Analyzer.RemoveEnvironments | web/src/lib/latexAnalyzer.ts:146 | the loop runs the sixteen environment passes in list order |
| Analyzer.StripMarkup | server/src/latex/analyzer.ts:158-169 | the method's reassignments give the stripped text of its copy: comments, environments, math, the copy's preamble rounds, references, citations, unwrap, leftover commands |
| Analyzer.PreambleRoundsUnfold | server/src/latex/analyzer.ts:163-164 | the worker runs no preamble round, the web copy one and the server two |
| Analyzer.StrippedStages | web/src/lib/latexAnalyzer.ts:145-152 | the pass list of every copy composes to the stage-by-stage pipeline |
| Analyzer.EquationBeginForms | web/src/lib/latexAnalyzer.ts:134 | `\begin\{equation\*?\}` matches exactly at `\begin{equation}` and at `\begin{equation*}` |
| Analyzer.AddKeys | web/src/lib/latexAnalyzer.ts:142 | adding the keys one by one yields the old set united with the keys |
| Analyzer.CollectCiteKeys | worker/src/latex/analyzer.ts:118-122 | the set built over all citation matches is the set of their trimmed, non-empty, comma-separated keys |
| Analyzer.TrimmedNonEmpty | web/src/lib/latexAnalyzer.ts:141 | no kept key is empty, and there are no more keys than pieces |
| Analyzer.TrimmedNonEmptyKeys | web/src/lib/latexAnalyzer.ts:141 | the set of kept keys is exactly the set of non-empty trimmed pieces: no key is lost and none is added |
| Analyzer.DistinctAtMostLength | web/src/lib/latexAnalyzer.ts:139-143 | a set built from a list has at most as many elements as the list |
| Analyzer.UniqueKeysBound | web/src/lib/latexAnalyzer.ts:139-143 | `uniqueCiteKeys` is at most the total number of keys across all citations |
| Analyzer.AbstractText | web/src/lib/latexAnalyzer.ts:123 | the captured abstract text is shorter than the source, so the recursion ends |
| Analyzer.Analyze | web/src/lib/latexAnalyzer.ts:129-171 | the method computes every field of the result as the copy's analysis defines it |
| Analyzer.ExtractAbstractWords | worker/src/latex/analyzer.ts:101-106 | there is a word count exactly when there is an abstract, and then it is the abstract's |
| Analyzer.StrippedHasNoCommand | web/src/lib/latexAnalyzer.ts:145-152 | in every copy, no command is left in the counted text |
| Analyzer.CountedTextFacts | web/src/lib/latexAnalyzer.ts:154-157 | `characters` is the non-whitespace count of the stripped text; `words` counts its pieces with a letter or digit and never exceeds the number of pieces; sentences never exceed the pieces of the sentence split |
| Analyzer.PlainTextKept | web/src/lib/latexAnalyzer.ts:129-171 | prose with no backslash, `$`, `%` or `\r` reaches the counters unchanged in every copy |
| Analyzer.AbstractPresentIff | web/src/lib/latexAnalyzer.ts:122-127 | `sections.abstract` is present exactly when the raw source holds an abstract environment |
| Analyzer.AbstractIsFirstInnerText | web/src/lib/latexAnalyzer.ts:123-125 | its word count is the words of analyzing the text between the tags of the leftmost abstract environment |
| Scenarios.UsePackageByVariant | worker/src/latex/analyzer.ts:124-132 | `\usepackage{amsmath}` counts as the word `amsmath` in the worker copy and as nothing in the web and server copies |
| Scenarios.WorkerUnwraps | worker/src/latex/analyzer.ts:124-132 | without a preamble pass, a command that survives the earlier passes is unwrapped into its argument |
| Scenarios.PreambleDeletes | server/src/latex/analyzer.ts:163-164 | a command that one preamble round removes leaves a single space in the web and server copies |
| Scenarios.CommentedFigureCounted | web/src/lib/latexAnalyzer.ts:131 | a commented-out `\begin{figure}` is stripped from the text and still counted as a figure |
| Scenarios.RepeatedCitationCountedOnce | server/src/latex/analyzer.ts:147-155 | in `\cite{a,b} \cite{a}`, a second citation whose keys all occur in the first adds no cite key |
| Scenarios.SpacedCitationKeys | server/src/latex/analyzer.ts:148-155 | two citations separated by a space contribute the union of their key sets |
| Scenarios.EnvironmentsKeep | web/src/lib/latexAnalyzer.ts:146 | a text that opens with a command whose name does not start with `b`, and holds no other backslash and no `$`, passes every environment pass unchanged |
| Highlighter.EscapeHtmlIsEach | web/src/lib/latexAnalyzer.ts:173-178 | the three global replaces, ampersand first, escape each character on its own |
| Highlighter.EscapeHtmlNoBrackets | web/src/lib/latexAnalyzer.ts:173-178 | the escaped text holds no `<` and no `>` |
| Highlighter.SliceEnd | web/src/lib/latexAnalyzer.ts:191 | `slice(0, maxChars)` keeps the whole text when it fits, cuts at `maxChars` otherwise, and counts a negative bound back from the end |
| Highlighter.Truncated | web/src/lib/latexAnalyzer.ts:191 | the truncated text is a prefix of the content |
| Highlighter.SplitKeepJoins | web/src/lib/latexAnalyzer.ts:192 | the pieces of `split(/(\s+)/)` join back into the text |
| Highlighter.SplitKeepCounts | web/src/lib/latexAnalyzer.ts:192-204 | keeping the whitespace runs as pieces adds no piece with a letter or digit |
| Highlighter.RenderPart | web/src/lib/latexAnalyzer.ts:195-204 | one loop step pushes the whitespace run itself, the marked escaped piece, or the escaped piece |
| Highlighter.RenderParts | web/src/lib/latexAnalyzer.ts:193-205 | the loop pushes one fragment per piece, in order |
| Highlighter.FragmentsReadBack | web/src/lib/latexAnalyzer.ts:193-206 | dropping the marks and decoding the entities of the joined fragments gives the joined pieces, and the marks count the pieces with a letter or digit |
| Highlighter.RenderingReadsBack | web/src/lib/latexAnalyzer.ts:191-206 | read back, a rendering gives exactly its text, and its mark count is the text's `countWords` |
| Highlighter.BuildHighlightedHtml | web/src/lib/latexAnalyzer.ts:180-207 | the preview renders the web copy's stripped text cut at `maxChars`; read back, it gives that cut text, with as many marks as its word count |
| Handlers.Max | worker/src/index.ts:42-43 | `Math.max` is an upper bound of both arguments and equals one of them |
| Handlers.Derive | worker/src/index.ts:39-44 | `withinLimit` holds exactly when count ≤ limit, which is exactly when `overBy` is 0; `overBy` and `remaining` are both ≥ 0, at most one is non-zero, and `overBy − remaining = count − limit` |
| Handlers.TotalReferences | worker/src/index.ts:50 | the reference total is the larger of `bibItems` and `uniqueCiteKeys` |
| Handlers.LimitOf | server/src/index.ts:33-37 | a limit exists exactly when the query value is present, non-empty and numeric |
| Handlers.AttachConstraints | worker/src/index.ts:33-58 | a constraint is written only under its own key, exactly when its limit exists, derived from the words or from the reference total |
| Handlers.WorkerAnalyze | worker/src/index.ts:22-60 | a missing file and a non-`.tex` name are rejected with 400 before analysis; otherwise the report holds the worker analysis, and its constraints have no key but `wordLimit` and `maxReferences`, each present exactly when its limit exists and derived from the words or the reference total |
| Handlers.ServerFilename | server/src/index.ts:26 | an empty filename becomes `uploaded.tex`, and any other name is kept |
| Handlers.ServerAnalyze | server/src/index.ts:21-55 | the same as the worker handler, with the server's filename default and the server analysis: the same rejections, and the same constraint keys and values |

## Left out

- HTTP and I/O: routing, CORS, the OPTIONS, 404 and 500 responses, multipart decoding,
  `file.text()` and `Buffer` UTF-8 decoding, static files and `listen`. A handler
  receives the upload as already read (`Upload`).
- The React UI (`web/src/App.tsx`) is not part of this model.
- `Number(text)` is a parameter `number: string -> Option<real>`, with `None` standing
  for `NaN`. The limit is a `real` rather than an integer, because a JavaScript number may
  be fractional or negative.
- Unicode classes: `IsSpace` is JavaScript's `\s` set. `IsLetterOrDigit` is exact below
  U+0100 and approximates `[\p{L}\p{N}]` above it: every other code point, outside
  whitespace and the General Punctuation block, counts as a letter or digit.
- Strings are sequences of code points. The UTF-16 code-unit behaviour of `.length` and
  `.slice` is not modelled.
- Regular expressions: each fixed pattern of the source has its own matcher. There is no
  general regular-expression engine.
- Passes.RemoveEnvironmentSpan: states the removal of one environment only when the text
  around it holds no backslash. The general case composes from `RemoveEnvironmentAt` and
  `NoEnvironmentInSuffix`.
- Scenarios.RepeatedCitationCountedOnce: stated for plain `\cite{...}` calls, without a
  suffix or an optional argument.
- Scenarios.UsePackageByVariant: stated for the concrete `\usepackage{amsmath}` line. The
  general worker and preamble behaviour is in `Scenarios.WorkerUnwraps` and
  `Scenarios.PreambleDeletes`.
- Passes.MetaCommandWhole: states each remove-list pattern on its own. A command that an
  earlier pattern of the list already matched is not considered.
- Scanner.MatchAt: its contract only bounds the match. What each pattern matches is stated
  by the lemmas about that pattern.
- Passes.DefinitionRemoved: stated for the braced macro name `{\MACRO}` and a body without
  `}`. The scanner also reads the unbraced `\newcommand\foo{...}` and stops a body at its
  first `}`, but no lemma states those forms.
- Passes.DeclareRemoved: stated for groups without `}` and with no further brace group
  after the last one.
