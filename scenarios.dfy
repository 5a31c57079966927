/**
  Small documents run through the whole analysis: how the three copies differ on a
  `\usepackage` line, that structural counts are taken before comments are removed, and
  that a repeated cite key is counted once.
 */
module Scenarios {
  import opened Wrappers
  import opened Chars
  import opened Scanner
  import opened Comments
  import opened Passes
  import opened Counters
  import opened Analyzer

  /** Text whose only backslash opens it passes through a rewrite that does not match there. */
  lemma LeadingOnlyUnchanged(p: Pattern, s: string)
    requires MarkupPattern(p) && 0 < |s|
    requires forall m :: 0 < m < |s| ==> s[m] != '\\' && s[m] != '$'
    requires MatchAt(p, s, 0).None?
    ensures Replace(p, s) == s
  {
    forall m | 0 <= m < |s| ensures MatchAt(p, s, m).None? {
      if 0 < m && MatchAt(p, s, m).Some? {
        MarkerNeeded(p, s, m);
      }
    }
    ReplaceNoMatch(p, s, 0);
    assert s[0..] == s;
  }

  /** A text that opens with a backslash and has no other backslash and no dollar sign. */
  predicate OpensCommand(s: string, second: char)
  {
    1 < |s| && s[0] == '\\' && s[1] == second && forall m :: 0 < m < |s| ==> s[m] != '\\' && s[m] != '$'
  }

  lemma EnvironmentKeeps(name: string, s: string, c: char)
    requires OpensCommand(s, c) && c != 'b'
    ensures Replace(Environment(name), s) == s
  {
    NotBeginAtStart(s, c);
    NoEnvironmentUnlessBegin(s, 0, name);
    LeadingOnlyUnchanged(Environment(name), s);
  }

  lemma NotBeginAtStart(s: string, c: char)
    requires 1 < |s| && s[1] == c && c != 'b'
    ensures !StartsWith(s, 0, "\\begin{")
  {
    NotStartsWith(s, 0, "\\begin{", 1);
  }

  lemma {:induction false} EnvironmentsKeep(names: seq<string>, s: string, c: char)
    requires OpensCommand(s, c) && c != 'b'
    ensures ReplaceEach(EnvironmentPasses(names), s) == s
  {
    var envs := EnvironmentPasses(names);
    forall k | 0 <= k < |envs| ensures Replace(envs[k], s) == s {
      EnvironmentKeeps(names[k], s, c);
    }
    ReplaceEachUnchanged(envs, s);
  }

  lemma MatchMath(s: string)
    requires 0 < |s|
    ensures MatchAt(DisplayDollar, s, 0) == DelimitedAt(s, 0, "$$", "$$")
    ensures MatchAt(InlineDollar, s, 0) == DelimitedAt(s, 0, "$", "$")
    ensures MatchAt(DisplayBracket, s, 0) == DelimitedAt(s, 0, "\\[", "\\]")
    ensures MatchAt(InlineParen, s, 0) == DelimitedAt(s, 0, "\\(", "\\)")
  {
  }

  lemma MathKeeps(s: string, c: char)
    requires OpensCommand(s, c) && c != '[' && c != '('
    ensures RemoveMath(s) == s
  {
    MatchMath(s);
    NotStartsWith(s, 0, "$$", 0);
    NotStartsWith(s, 0, "$", 0);
    NotStartsWith(s, 0, "\\[", 1);
    NotStartsWith(s, 0, "\\(", 1);
    forall k | 0 <= k < |MathPasses| ensures Replace(MathPasses[k], s) == s {
      LeadingOnlyUnchanged(MathPasses[k], s);
    }
    ReplaceEachUnchanged(MathPasses, s);
  }

  lemma MatchCite(s: string)
    requires 0 < |s|
    ensures MatchAt(Cite, s, 0) == CiteAt(s, 0)
  {
  }

  lemma ReferencesKeep(s: string, c: char)
    requires OpensCommand(s, c) && c != 'c'
    requires forall k :: 0 <= k < |RefCommands| ==> RefCommands[k][0] != c
    ensures Replace(LabelRef, s) == s && Replace(Cite, s) == s
  {
    MatchRef(s, 0, RefCommands);
    forall k | 0 <= k < |RefCommands| ensures !StartsWith(s, 0, "\\" + RefCommands[k]) {
      NotStartsWith(s, 0, "\\" + RefCommands[k], 1);
    }
    RefAtNone(s, 0, RefCommands);
    LeadingOnlyUnchanged(LabelRef, s);
    MatchCite(s);
    NotStartsWith(s, 0, "\\cite", 1);
    LeadingOnlyUnchanged(Cite, s);
  }

  /** The passes before unwrapping never match a lone command starting with `\u`. */
  lemma UsePackageSurvivesEarlyPasses(s: string)
    requires OpensCommand(s, 'u')
    ensures ReplaceEach(EnvironmentPasses(EnvironmentsToExclude), s) == s
    ensures RemoveMath(s) == s
    ensures Replace(LabelRef, s) == s && Replace(Cite, s) == s
  {
    EnvironmentsKeep(EnvironmentsToExclude, s, 'u');
    MathKeeps(s, 'u');
    ReferencesKeep(s, 'u');
  }

  /** A metadata pass for a command with another first letter does not match there. */
  lemma MetaKeeps(s: string, command: string, optional: bool, c: char)
    requires OpensCommand(s, c) && 0 < |command| && command[0] != c
    ensures Replace(MetaCommand(command, optional), s) == s
  {
    MatchMeta(s, 0, command, optional);
    var lit := "\\" + command;
    assert lit[1] == command[0];
    NotStartsWith(s, 0, lit, 1);
    LeadingOnlyUnchanged(MetaCommand(command, optional), s);
  }

  /** The first preamble pass, for `\documentclass`, does not match there either. */
  lemma DocumentClassKeeps(s: string)
    requires OpensCommand(s, 'u')
    ensures Replace(MetaRemoveList[0], s) == s
  {
    MetaKeeps(s, "documentclass", true, 'u');
  }

  lemma UsePackageOpens(s: string)
    requires s == "\\usepackage{amsmath}"
    ensures OpensCommand(s, 'u') && '%' !in s && '\r' !in s
  {
  }

  lemma UsePackageDeleted(s: string)
    requires s == "\\usepackage{amsmath}"
    ensures Replace(MetaRemoveList[1], s) == " "
  {
    var command := MetaRemoveList[1].command;
    assert command == "usepackage";
    assert s == CommandCall(command, None, "amsmath");
    MetaCommandWhole(1, None, "amsmath");
  }

  lemma UsePackageRemoved(s: string)
    requires s == "\\usepackage{amsmath}"
    ensures ReplaceEach(PreambleRound, s) == " "
  {
    UsePackageOpens(s);
    UsePackageDeleted(s);
    PreambleRoundRemovesUsePackage(s);
  }

  /** A reference pattern matches only where one of its names follows the backslash. */
  lemma {:induction false} RefAtNone(s: string, i: nat, names: seq<string>)
    requires i <= |s|
    requires forall k :: 0 <= k < |names| ==> !StartsWith(s, i, "\\" + names[k])
    ensures RefAt(s, i, names).None?
    decreases |names|
  {
    if names != [] {
      assert !StartsWith(s, i, "\\" + names[0]);
      assert forall k :: 0 <= k < |names[1..]| ==> names[1..][k] == names[k + 1];
      RefAtNone(s, i, names[1..]);
    }
  }

  /** One preamble round deletes `\usepackage{amsmath}`, leaving one space. */
  lemma PreambleRoundRemovesUsePackage(s: string)
    requires OpensCommand(s, 'u') && Replace(MetaRemoveList[1], s) == " "
    ensures ReplaceEach(PreambleRound, s) == " "
  {
    DocumentClassKeeps(s);
    var rest := PreambleRound[2..];
    ReplaceEachFirst(PreambleRound, s);
    ReplaceEachFirst(PreambleRound[1..], s);
    assert PreambleRound[1..][1..] == rest;
    assert PreambleRound[1..][0] == MetaRemoveList[1];
    assert PreambleRound[0] == MetaRemoveList[0];
    PreambleRoundMarkup();
    assert forall k :: 0 <= k < |rest| ==> rest[k] == PreambleRound[k + 2];
    NoMarkerPassesUnchanged(rest, " ");
  }

  /**
    The copies disagree on `\usepackage{amsmath}`: the web and server copies delete it, the
    worker copy, which has no preamble pass, unwraps it to the word `amsmath`.
   */
  lemma UsePackageByVariant(v: Variant, s: string)
    requires s == "\\usepackage{amsmath}"
    ensures Stripped(v, s) == if v == Worker then "amsmath" else " "
    ensures AnalysisOf(v, s).words == if v == Worker then 1 else 0
  {
    UsePackageOpens(s);
    if v == Worker {
      UnwrapUsePackage(s);
      WorkerUnwraps(s);
    } else {
      UsePackageRemoved(s);
      PreambleDeletes(v, s);
    }
  }

  lemma WorkerUnwraps(s: string)
    requires OpensCommand(s, 'u') && '%' !in s && '\r' !in s
    requires KeepArgumentText(s) == "amsmath"
    ensures Stripped(Worker, s) == "amsmath"
    ensures CountWords(Stripped(Worker, s)) == 1
  {
    NoPercentUnchanged(s);
    UsePackageSurvivesEarlyPasses(s);
    var word := "amsmath";
    NoMarkerUnchanged(Residual, word);
    WorkerStagesGive(s, word);
    AmsmathOneWord(word);
  }

  /** The worker's passes over a text that only the unwrap pass changes. */
  lemma WorkerStagesGive(c: string, t: string)
    requires ReplaceEach(EnvironmentPasses(EnvironmentsToExclude), c) == c && RemoveMath(c) == c
    requires Replace(LabelRef, c) == c && Replace(Cite, c) == c
    requires KeepArgumentText(c) == t && RemoveRemainingCommands(t) == t
    ensures ReplaceEach(StripPasses(Worker), c) == t
  {
    PreambleRoundsUnfold(Worker, c);
    StrippedStages(Worker, c);
  }

  lemma PreambleDeletes(v: Variant, s: string)
    requires v != Worker
    requires OpensCommand(s, 'u') && '%' !in s && '\r' !in s
    requires ReplaceEach(PreambleRound, s) == " "
    ensures Stripped(v, s) == " "
    ensures CountWords(Stripped(v, s)) == 0
  {
    NoPercentUnchanged(s);
    UsePackageSurvivesEarlyPasses(s);
    PreambleRoundsBlank(v, s);
    StagesWithBlankRounds(v, s);
    CountWordsBlank(" ");
  }

  /** One preamble round leaves a blank, so the server's second round does too. */
  lemma PreambleRoundsBlank(v: Variant, s: string)
    requires v != Worker
    requires ReplaceEach(PreambleRound, s) == " "
    ensures ReplaceEach(Repeat(PreambleRound, PreambleRounds(v)), s) == " "
  {
    LaterPassesKeep(" ");
    PreambleRoundsUnfold(v, s);
  }

  lemma StagesWithBlankRounds(v: Variant, c: string)
    requires ReplaceEach(EnvironmentPasses(EnvironmentsToExclude), c) == c && RemoveMath(c) == c
    requires ReplaceEach(Repeat(PreambleRound, PreambleRounds(v)), c) == " "
    ensures ReplaceEach(StripPasses(v), c) == " "
  {
    StrippedStages(v, c);
    LaterPassesKeep(" ");
  }

  /** Text without a backslash or a dollar sign passes the later stages unchanged. */
  lemma LaterPassesKeep(t: string)
    requires '\\' !in t && '$' !in t
    ensures ReplaceEach(PreambleRound, t) == t
    ensures Replace(LabelRef, t) == t && Replace(Cite, t) == t
    ensures KeepArgumentText(t) == t && RemoveRemainingCommands(t) == t
  {
    PreambleRoundMarkup();
    NoMarkerPassesUnchanged(PreambleRound, t);
    NoMarkerUnchanged(LabelRef, t);
    NoMarkerUnchanged(Cite, t);
    NoMarkerUnchanged(Unwrap, t);
    NoMarkerUnchanged(Residual, t);
  }

  lemma AmsmathOneWord(t: string)
    requires t == "amsmath"
    ensures CountWords(t) == 1
  {
    OneWord(t);
  }

  /** A run of letters without whitespace is one word. */
  lemma OneWord(t: string)
    requires 0 < |t| && forall m :: 0 <= m < |t| ==> IsAsciiLetter(t[m])
    ensures CountWords(t) == 1
  {
    forall m | 0 <= m < |t| ensures MatchAt(SpaceRun, t, m).None? {
      assert !IsSpace(t[m]);
    }
    SplitNoMatch(SpaceRun, t, 0, 0);
    assert t[0..] == t;
    assert IsLetterOrDigit(t[0]);
    CountWordsIsTokensWithLetters(t);
  }

  /**
    Figures are counted on the text as uploaded: a `\begin{figure}` inside a comment
    still counts, although comment stripping removes the whole line.
   */
  lemma CommentedFigureCounted(v: Variant, raw: string)
    requires raw == "%\\begin{figure}"
    ensures WithoutComments(raw) == ""
    ensures AnalysisOf(v, raw).figures == 1
  {
    CommentedLineEmpty(raw);
    CommentedFigureHits(raw);
  }

  lemma CommentedLineEmpty(raw: string)
    requires 0 < |raw| && raw[0] == '%' && '\n' !in raw && '\r' !in raw
    ensures WithoutComments(raw) == ""
  {
    assert IsCommentStart(raw, 0);
    SingleLineCut(raw);
  }

  lemma CommentedFigureHits(raw: string)
    requires raw == "%\\begin{figure}"
    ensures CountOccurrences(raw, FigureBegin) == 1
  {
    var fig := "\\begin{figure}";
    assert FigureBegin == Literal(fig);
    assert raw == "%" + fig;
    LiteralAfterOther(raw, fig);
  }

  /** A literal that fills the text after a first character that does not open it is found once. */
  lemma LiteralAfterOther(s: string, lit: string)
    requires 0 < |lit| && |s| == |lit| + 1 && s[1..] == lit && s[0] != lit[0]
    ensures CountOccurrences(s, Literal(lit)) == 1
  {
    NotStartsWith(s, 0, lit, 0);
    assert StartsWith(s, 1, lit);
    HitsAtHit(Literal(lit), s, 1, Hit(|s|, ""));
  }

  /**
    Two citations separated by a space: a key cited again adds nothing, so the unique-key
    count is that of the first citation whenever the second cites only keys it already has.
   */
  lemma RepeatedCitationCountedOnce(first: string, second: string)
    requires '}' !in first && '}' !in second
    requires Distinct(KeysOf(second)) <= Distinct(KeysOf(first))
    ensures CiteKeys(CiteCall("", None, first) + " " + CiteCall("", None, second)) == Distinct(KeysOf(first))
  {
    var c1 := CiteCall("", None, first);
    var c2 := CiteCall("", None, second);
    SpacedParts(c1 + " " + c2, c1, c2);
    SpacedCitationKeys(c1 + " " + c2, c1, c2, first, second);
  }

  /** The unique keys of two citations laid out with one space between them. */
  lemma SpacedCitationKeys(s: string, c1: string, c2: string, first: string, second: string)
    requires '}' !in first && '}' !in second
    requires c1 == CiteCall("", None, first) && c2 == CiteCall("", None, second)
    requires StartsWith(s, 0, c1) && StartsWith(s, |c1| + 1, c2)
    requires |s| == |c1| + 1 + |c2| && s[|c1|] == ' '
    ensures CiteKeys(s) == Distinct(KeysOf(first)) + Distinct(KeysOf(second))
  {
    var n, m := |c1|, |c1| + 1;
    var h1, h2 := Hit(n, first), Hit(|s|, second);
    CitationHits(s, 0, c1, first, n);
    CiteGap(s, n, m);
    CitationHits(s, m, c2, second, |s|);
    HitsAtEnd(Cite, s);
    HitsChain(Hits(Cite, s), HitsFrom(Cite, s, n), HitsFrom(Cite, s, m), HitsFrom(Cite, s, |s|), h1, h2);
    TwoHitsKeys(h1, h2);
  }

  /** The pieces of `a + " " + b`, as the scanner sees them. */
  lemma SpacedParts(s: string, a: string, b: string)
    requires s == a + " " + b
    ensures StartsWith(s, 0, a) && s[|a|] == ' ' && StartsWith(s, |a| + 1, b)
    ensures |s| == |a| + 1 + |b|
  {
    assert s[0..|a|] == a;
    assert s[|a| + 1..|a| + 1 + |b|] == b;
  }

  /** A plain `\cite{KEYS}` at `i` is matched whole, with KEYS as its capture. */
  lemma CitationAt(s: string, i: nat, c: string, keys: string, e: nat)
    requires '}' !in keys && c == CiteCall("", None, keys) && StartsWith(s, i, c) && e == i + |c|
    ensures i < |s| && MatchAt(Cite, s, i) == Some(Hit(e, keys))
  {
    CiteMatchAt(s, i, "", None, keys, e);
  }

  /** The global match reads a plain citation at `i` and goes on after it. */
  lemma CitationHits(s: string, i: nat, c: string, keys: string, e: nat)
    requires '}' !in keys && c == CiteCall("", None, keys) && StartsWith(s, i, c) && e == i + |c|
    ensures HitsFrom(Cite, s, i) == [Hit(e, keys)] + HitsFrom(Cite, s, e)
  {
    CitationAt(s, i, c, keys, e);
    HitsAtHit(Cite, s, i, Hit(e, keys));
  }

  /** The global match steps over a character that cannot start a citation. */
  lemma CiteGap(s: string, n: nat, m: nat)
    requires n < |s| && s[n] != '\\' && m == n + 1
    ensures HitsFrom(Cite, s, n) == HitsFrom(Cite, s, m)
  {
    CiteNeedsBackslash(s, n);
    HitsSkipChar(Cite, s, n);
  }

  /** Two hits read off one after the other, with a gap between them. */
  lemma HitsChain(all: seq<Hit>, gap: seq<Hit>, second: seq<Hit>, rest: seq<Hit>, h1: Hit, h2: Hit)
    requires all == [h1] + gap && gap == second && second == [h2] + rest && rest == []
    ensures all == [h1, h2]
  {
  }

  /** A citation starts with a backslash. */
  lemma CiteNeedsBackslash(s: string, i: nat)
    requires i < |s| && s[i] != '\\'
    ensures MatchAt(Cite, s, i).None?
  {
    if MatchAt(Cite, s, i).Some? {
      MarkerNeeded(Cite, s, i);
    }
  }

  lemma TwoHitsKeys(h1: Hit, h2: Hit)
    ensures Distinct(AllKeys([h1, h2])) == Distinct(KeysOf(h1.capture)) + Distinct(KeysOf(h2.capture))
  {
    assert [h1, h2][..1] == [h1] && [h1][..0] == [];
    assert AllKeys([h1]) == KeysOf(h1.capture);
    assert AllKeys([h1, h2]) == KeysOf(h1.capture) + KeysOf(h2.capture);
    DistinctAppend(KeysOf(h1.capture), KeysOf(h2.capture));
  }
}
