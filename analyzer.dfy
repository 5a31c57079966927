/**
  The analyzer shared by the three copies of the program. Structural counts are taken on
  the raw source; the text is then stripped by the rewrite passes in a fixed order, and
  words, characters, sentences and paragraphs are counted on what remains. The abstract's
  word count comes from one recursive analysis of the inner text of the first abstract
  environment.
 */
module Analyzer {
  import opened Wrappers
  import opened Chars
  import opened Scanner
  import opened Comments
  import opened Passes
  import opened Counters

  /** The web copy, the server copy and the worker copy of the analyzer. */
  datatype Variant = Web | Server | Worker

  /** How often each copy runs `removePreambleAndMetaCommands`. */
  function PreambleRounds(v: Variant): nat
  {
    match v
    case Web => 1
    case Server => 2
    case Worker => 0
  }

  /** `ps` run `n` times over. */
  function Repeat(ps: seq<Pattern>, n: nat): (r: seq<Pattern>)
    ensures |r| == n * |ps|
    ensures forall k :: 0 <= k < |r| ==> r[k] in ps
  {
    if n == 0 then [] else ps + Repeat(ps, n - 1)
  }

  /** The passes up to and including the citation pass. */
  function MarkupPasses(v: Variant): seq<Pattern>
  {
    EnvironmentPasses(EnvironmentsToExclude) + MathPasses + Repeat(PreambleRound, PreambleRounds(v))
    + ReferencePasses
  }

  /** Every rewrite pass after comment stripping, in the order the copy runs them. */
  function StripPasses(v: Variant): seq<Pattern>
  {
    MarkupPasses(v) + [Unwrap, Residual]
  }

  /** The text the counters see. */
  function Stripped(v: Variant, raw: string): string
  {
    ReplaceEach(StripPasses(v), WithoutComments(raw))
  }

  lemma ReplaceEachSnoc(ps: seq<Pattern>, p: Pattern, s: string)
    ensures ReplaceEach(ps + [p], s) == Replace(p, ReplaceEach(ps, s))
  {
    assert (ps + [p])[..|ps|] == ps;
  }

  /** The passes' composition, taken apart stage by stage. */
  lemma StrippedStages(v: Variant, c: string)
    ensures ReplaceEach(StripPasses(v), c) ==
      RemoveRemainingCommands(KeepArgumentText(Replace(Cite, Replace(LabelRef,
        ReplaceEach(Repeat(PreambleRound, PreambleRounds(v)),
          RemoveMath(ReplaceEach(EnvironmentPasses(EnvironmentsToExclude), c)))))))
  {
    StagesCompose(EnvironmentPasses(EnvironmentsToExclude), Repeat(PreambleRound, PreambleRounds(v)), c);
  }

  lemma StagesCompose(envs: seq<Pattern>, reps: seq<Pattern>, c: string)
    ensures ReplaceEach(envs + MathPasses + reps + ReferencePasses + [Unwrap, Residual], c) ==
      RemoveRemainingCommands(KeepArgumentText(Replace(Cite, Replace(LabelRef,
        ReplaceEach(reps, RemoveMath(ReplaceEach(envs, c)))))))
  {
    var front := envs + MathPasses + reps;
    ReplaceEachAppend(envs, MathPasses, c);
    ReplaceEachAppend(envs + MathPasses, reps, c);
    ReplaceEachSnoc(front, LabelRef, c);
    ReplaceEachSnoc(front + [LabelRef], Cite, c);
    ReplaceEachSnoc(front + [LabelRef, Cite], Unwrap, c);
    ReplaceEachSnoc(front + [LabelRef, Cite, Unwrap], Residual, c);
    assert front + [LabelRef] + [Cite] == front + [LabelRef, Cite];
    assert front + [LabelRef, Cite] + [Unwrap] == front + [LabelRef, Cite, Unwrap];
    assert front + [LabelRef, Cite, Unwrap] + [Residual] == envs + MathPasses + reps + ReferencePasses + [Unwrap, Residual];
  }

  /** `r` rounds of the preamble pass, one after the other. */
  lemma PreambleRoundsUnfold(v: Variant, x: string)
    ensures ReplaceEach(Repeat(PreambleRound, PreambleRounds(v)), x) ==
      match v
      case Worker => x
      case Web => ReplaceEach(PreambleRound, x)
      case Server => ReplaceEach(PreambleRound, ReplaceEach(PreambleRound, x))
  {
    var once := Repeat(PreambleRound, 1);
    assert once == PreambleRound + [];
    assert once == PreambleRound;
    if v == Server {
      assert Repeat(PreambleRound, 2) == PreambleRound + once;
      ReplaceEachAppend(PreambleRound, PreambleRound, x);
    }
  }

  /** The loop over the excluded environments, in list order. */
  method RemoveEnvironments(content: string) returns (out: string)
    ensures out == ReplaceEach(EnvironmentPasses(EnvironmentsToExclude), content)
  {
    out := content;
    ghost var envs := EnvironmentPasses(EnvironmentsToExclude);
    for k := 0 to |EnvironmentsToExclude|
      invariant out == ReplaceEach(envs[..k], content)
    {
      ReplaceEachStep(envs, k, content);
      out := RemoveEnvironment(out, EnvironmentsToExclude[k]);
    }
    assert envs[..|envs|] == envs;
  }

  lemma ReplaceEachStep(ps: seq<Pattern>, k: nat, s: string)
    requires k < |ps|
    ensures ReplaceEach(ps[..k + 1], s) == Replace(ps[k], ReplaceEach(ps[..k], s))
  {
    assert ps[..k + 1][..k] == ps[..k];
  }

  /**
    The stripping stage of `analyzeLatex`: comments, the environment loop, math, the
    preamble pass as often as the copy runs it, references, citations, unwrapping and
    the deletion of the commands left over.
   */
  method StripMarkup(v: Variant, raw: string) returns (content: string)
    ensures content == Stripped(v, raw)
  {
    content := StripComments(raw);
    content := RemoveEnvironments(content);
    content := RemoveMath(content);
    ghost var afterMath := content;
    if v != Worker {
      content := RemovePreambleAndMetaCommands(content);
    }
    if v == Server {
      content := RemovePreambleAndMetaCommands(content);
    }
    PreambleRoundsUnfold(v, afterMath);
    content := Replace(LabelRef, content);
    content := Replace(Cite, content);
    content := KeepArgumentText(content);
    content := RemoveRemainingCommands(content);
    StrippedStages(v, WithoutComments(raw));
  }

  // ---------------------------------------------------------------------------------
  // The result record

  datatype References = References(bibItems: nat, uniqueCiteKeys: nat)

  /** `sections.abstract`, when the document has an abstract. */
  datatype AbstractSection = AbstractSection(words: nat)

  datatype Sections = Sections(abstractSection: Option<AbstractSection>)

  datatype AnalysisResult = AnalysisResult(
    words: nat, characters: nat, sentences: nat, paragraphs: nat,
    figures: nat, tables: nat, equations: nat,
    references: References, sections: Sections)

  const FigureBegin: Pattern := Literal("\\begin{figure}")
  const TableBegin: Pattern := Literal("\\begin{table}")
  const AbstractEnvironment: Pattern := Environment("abstract")

  /** `\begin{equation*?}` openings, `$$...$$` spans and `\[...\]` spans, each counted alone. */
  function Equations(src: string): nat
  {
    CountOccurrences(src, EquationBegin) + CountOccurrences(src, DisplayDollar)
    + CountOccurrences(src, DisplayBracket)
  }

  /** `\\begin\{equation\*?\}` matches exactly the unstarred and the starred opening tag. */
  lemma EquationBeginForms(s: string, i: nat)
    requires i < |s|
    ensures MatchAt(EquationBegin, s, i).Some? <==>
      StartsWith(s, i, "\\begin{equation}") || StartsWith(s, i, "\\begin{equation*}")
  {
    var k := i + 15;
    if StartsWith(s, i, "\\begin{equation}") || StartsWith(s, i, "\\begin{equation*}") {
      EquationTagEnds(s, i, k);
    } else if StartsWith(s, i, "\\begin{equation") {
      EquationTagOtherwise(s, i, k);
    }
  }

  lemma EquationTagEnds(s: string, i: nat, k: nat)
    requires StartsWith(s, i, "\\begin{equation}") || StartsWith(s, i, "\\begin{equation*}")
    requires k == i + 15
    ensures StartsWith(s, i, "\\begin{equation") && k < |s|
    ensures s[k] == '}' || (s[k] == '*' && k + 1 < |s| && s[k + 1] == '}')
  {
    if StartsWith(s, i, "\\begin{equation}") {
      StartsWithSplitAt(s, i, "\\begin{equation", "}", k);
      assert s[k..k + 1] == "}";
    } else {
      StartsWithSplitAt(s, i, "\\begin{equation", "*}", k);
      assert s[k..k + 2] == "*}";
      assert s[k] == s[k..k + 2][0] && s[k + 1] == s[k..k + 2][1];
    }
  }

  lemma EquationTagOtherwise(s: string, i: nat, k: nat)
    requires StartsWith(s, i, "\\begin{equation") && k == i + 15
    requires !StartsWith(s, i, "\\begin{equation}") && !StartsWith(s, i, "\\begin{equation*}")
    ensures !(k < |s| && s[k] == '}') && !(k < |s| && s[k] == '*' && k + 1 < |s| && s[k + 1] == '}')
  {
  }

  // ---------------------------------------------------------------------------------
  // Cite keys

  /** `arg.split(',').map((k) => k.trim()).filter(Boolean)` */
  function KeysOf(arg: string): seq<string>
  {
    TrimmedNonEmpty(Split(Literal(","), arg))
  }

  /** `.map((k) => k.trim()).filter(Boolean)`, in order. */
  function TrimmedNonEmpty(pieces: seq<string>): (r: seq<string>)
    ensures |r| <= |pieces|
    ensures forall k :: 0 <= k < |r| ==> |r[k]| > 0
  {
    if pieces == [] then []
    else
      var rest := TrimmedNonEmpty(pieces[..|pieces| - 1]);
      var t := Trim(pieces[|pieces| - 1]);
      if |t| > 0 then rest + [t] else rest
  }

  /** The trimmed pieces that are not empty. */
  function NonEmptyTrims(pieces: seq<string>): set<string>
  {
    set j | 0 <= j < |pieces| && |Trim(pieces[j])| > 0 :: Trim(pieces[j])
  }

  /** The keys kept are exactly the non-empty trimmed pieces: none is lost and none is added. */
  lemma {:induction false} TrimmedNonEmptyKeys(pieces: seq<string>)
    ensures Distinct(TrimmedNonEmpty(pieces)) == NonEmptyTrims(pieces)
  {
    if pieces != [] {
      var n := |pieces| - 1;
      var init := pieces[..n];
      var t := Trim(pieces[n]);
      TrimmedNonEmptyKeys(init);
      assert pieces == init + [pieces[n]];
      NonEmptyTrimsSnoc(init, pieces[n]);
      if |t| > 0 {
        DistinctSnoc(TrimmedNonEmpty(init), t);
      }
    }
  }

  lemma NonEmptyTrimsSnoc(init: seq<string>, last: string)
    ensures NonEmptyTrims(init + [last]) ==
      NonEmptyTrims(init) + (if |Trim(last)| > 0 then {Trim(last)} else {})
  {
    NonEmptyTrimsOld(init, last);
    NonEmptyTrimsNew(init, last);
    if |Trim(last)| > 0 {
      NonEmptyTrimsLast(init, last);
    }
  }

  /** Adding a piece keeps every key of the earlier pieces. */
  lemma NonEmptyTrimsOld(init: seq<string>, last: string)
    ensures NonEmptyTrims(init) <= NonEmptyTrims(init + [last])
  {
    var all := init + [last];
    forall x | x in NonEmptyTrims(init) ensures x in NonEmptyTrims(all) {
      var j :| 0 <= j < |init| && |Trim(init[j])| > 0 && x == Trim(init[j]);
      assert all[j] == init[j];
    }
  }

  /** Adding a piece adds no key but its own. */
  lemma NonEmptyTrimsNew(init: seq<string>, last: string)
    ensures NonEmptyTrims(init + [last]) <= NonEmptyTrims(init) + {Trim(last)}
  {
    var all := init + [last];
    forall x | x in NonEmptyTrims(all) ensures x in NonEmptyTrims(init) || x == Trim(last) {
      var j :| 0 <= j < |all| && |Trim(all[j])| > 0 && x == Trim(all[j]);
      if j < |init| {
        assert all[j] == init[j];
      } else {
        assert all[j] == last;
      }
    }
  }

  /** The added piece is kept when its trimmed text is not empty. */
  lemma NonEmptyTrimsLast(init: seq<string>, last: string)
    requires |Trim(last)| > 0
    ensures Trim(last) in NonEmptyTrims(init + [last])
  {
    var all := init + [last];
    assert all[|init|] == last;
  }

  /** The keys of all citations, in order, duplicates included. */
  function AllKeys(hits: seq<Hit>): seq<string>
  {
    if hits == [] then [] else AllKeys(hits[..|hits| - 1]) + KeysOf(hits[|hits| - 1].capture)
  }

  /** The elements of a list, as a set. */
  function Distinct(xs: seq<string>): set<string>
  {
    set k | k in xs
  }

  /** The distinct cite keys of the raw source. */
  function CiteKeys(src: string): set<string>
  {
    Distinct(AllKeys(Hits(Cite, src)))
  }

  lemma DistinctSnoc(xs: seq<string>, x: string)
    ensures Distinct(xs + [x]) == Distinct(xs) + {x}
  {
  }

  lemma DistinctAppend(xs: seq<string>, ys: seq<string>)
    ensures Distinct(xs + ys) == Distinct(xs) + Distinct(ys)
  {
  }

  lemma AllKeysStep(hits: seq<Hit>, j: nat)
    requires j < |hits|
    ensures Distinct(AllKeys(hits[..j + 1])) == Distinct(AllKeys(hits[..j])) + Distinct(KeysOf(hits[j].capture))
  {
    assert hits[..j + 1][..j] == hits[..j];
    DistinctAppend(AllKeys(hits[..j]), KeysOf(hits[j].capture));
  }

  /** The loop over `matchAll` that adds every key of every citation to a set. */
  method CollectCiteKeys(src: string) returns (citeKeys: set<string>)
    ensures citeKeys == CiteKeys(src)
  {
    citeKeys := {};
    var hits := Hits(Cite, src);
    for j := 0 to |hits|
      invariant citeKeys == Distinct(AllKeys(hits[..j]))
    {
      AllKeysStep(hits, j);
      citeKeys := AddKeys(citeKeys, KeysOf(hits[j].capture));
    }
    assert hits[..|hits|] == hits;
  }

  /** `for (const k of keys) citeKeys.add(k)` */
  method AddKeys(citeKeys: set<string>, keys: seq<string>) returns (out: set<string>)
    ensures out == citeKeys + Distinct(keys)
  {
    out := citeKeys;
    for t := 0 to |keys|
      invariant out == citeKeys + Distinct(keys[..t])
    {
      DistinctSnoc(keys[..t], keys[t]);
      assert keys[..t + 1] == keys[..t] + [keys[t]];
      out := out + {keys[t]};
    }
    assert keys[..|keys|] == keys;
  }

  /** The number of distinct elements of a list is at most its length. */
  lemma {:induction false} DistinctAtMostLength(xs: seq<string>)
    ensures |Distinct(xs)| <= |xs|
    decreases |xs|
  {
    if xs != [] {
      var front := xs[..|xs| - 1];
      DistinctAtMostLength(front);
      assert xs == front + [xs[|xs| - 1]];
      DistinctSnoc(front, xs[|xs| - 1]);
    }
  }

  /** `uniqueCiteKeys` never exceeds the number of keys across all citations. */
  lemma UniqueKeysBound(src: string)
    ensures |CiteKeys(src)| <= |AllKeys(Hits(Cite, src))|
  {
    DistinctAtMostLength(AllKeys(Hits(Cite, src)));
  }

  // ---------------------------------------------------------------------------------
  // The analysis

  /** The inner text of the first `\begin{abstract}...\end{abstract}`, if there is one. */
  function AbstractText(src: string): (r: Option<string>)
    ensures r.Some? ==> |r.value| < |src|
  {
    match FirstMatch(AbstractEnvironment, src, 0)
    case Some(m) => Some(m.1.capture)
    case None => None
  }

  /** `analyzeLatex(raw)` of the given copy. */
  function AnalysisOf(v: Variant, raw: string): AnalysisResult
    decreases |raw|, 1
  {
    var content := Stripped(v, raw);
    AnalysisResult(
      CountWords(content), Characters(content), CountSentences(content), CountParagraphs(content),
      CountOccurrences(raw, FigureBegin), CountOccurrences(raw, TableBegin), Equations(raw),
      References(CountOccurrences(raw, BibItem), |CiteKeys(raw)|),
      Sections(AbstractOf(v, raw)))
  }

  /** `extractAbstractWords`, wrapped as the result record holds it. */
  function AbstractOf(v: Variant, src: string): Option<AbstractSection>
    decreases |src|, 0
  {
    match AbstractText(src)
    case Some(inner) => Some(AbstractSection(AnalysisOf(v, inner).words))
    case None => None
  }

  /** `analyzeLatex`: the raw counts, the cite-key loop, the stripping and the counters. */
  method Analyze(v: Variant, raw: string) returns (r: AnalysisResult)
    ensures r == AnalysisOf(v, raw)
    decreases |raw|, 1
  {
    var original := raw;
    var figures := CountOccurrences(original, FigureBegin);
    var tables := CountOccurrences(original, TableBegin);
    var equations := CountOccurrences(original, EquationBegin) + CountOccurrences(original, DisplayDollar)
      + CountOccurrences(original, DisplayBracket);
    var bibItems := CountOccurrences(original, BibItem);
    var citeKeys := CollectCiteKeys(original);
    var content := StripMarkup(v, original);
    var characters := Characters(content);
    var words := CountWords(content);
    var sentences := CountSentences(content);
    var paragraphs := CountParagraphs(content);
    var abstractWords := ExtractAbstractWords(v, original);
    var section := if abstractWords.Some? then Some(AbstractSection(abstractWords.value)) else None;
    r := AnalysisResult(words, characters, sentences, paragraphs, figures, tables, equations,
      References(bibItems, |citeKeys|), Sections(section));
  }

  /** `extractAbstractWords`: the word count of a recursive analysis of the abstract's text. */
  method ExtractAbstractWords(v: Variant, src: string) returns (w: Option<nat>)
    ensures w.Some? <==> AbstractOf(v, src).Some?
    ensures w.Some? ==> w.value == AbstractOf(v, src).value.words
    decreases |src|, 0
  {
    var m := FirstMatch(AbstractEnvironment, src, 0);
    if m.None? {
      return None;
    }
    var result := Analyze(v, m.value.1.capture);
    w := Some(result.words);
  }

  // ---------------------------------------------------------------------------------
  // Properties of the pipeline

  /** Whatever the copy, no command is left in the counted text. */
  lemma StrippedHasNoCommand(v: Variant, raw: string)
    ensures NoCommandLeft(Stripped(v, raw))
  {
    ReplaceEachSnoc(MarkupPasses(v) + [Unwrap], Residual, WithoutComments(raw));
    assert StripPasses(v) == (MarkupPasses(v) + [Unwrap]) + [Residual];
    ResidualLeavesNoCommand(KeepArgumentText(ReplaceEach(MarkupPasses(v), WithoutComments(raw))));
    ReplaceEachSnoc(MarkupPasses(v), Unwrap, WithoutComments(raw));
  }

  /** The counters on the stripped text, stated for the whole analysis. */
  lemma CountedTextFacts(v: Variant, raw: string)
    ensures AnalysisOf(v, raw).characters == |NonSpace(Stripped(v, raw))|
    ensures AnalysisOf(v, raw).words == CountWithLetterOrDigit(Split(SpaceRun, Stripped(v, raw)))
    ensures AnalysisOf(v, raw).words <= |Split(SpaceRun, Stripped(v, raw))|
    ensures AnalysisOf(v, raw).sentences <= |Split(SentenceBreak, Stripped(v, raw))|
  {
    CharactersAreNonSpace(Stripped(v, raw));
    CountWordsIsTokensWithLetters(Stripped(v, raw));
    CountSentencesBound(Stripped(v, raw));
  }

  predicate AllMarkup(ps: seq<Pattern>)
  {
    forall k :: 0 <= k < |ps| ==> MarkupPattern(ps[k])
  }

  lemma AllMarkupAppend(a: seq<Pattern>, b: seq<Pattern>)
    requires AllMarkup(a) && AllMarkup(b)
    ensures AllMarkup(a + b)
  {
    forall k | 0 <= k < |a + b| ensures MarkupPattern((a + b)[k]) {
      if k >= |a| {
        assert (a + b)[k] == b[k - |a|];
      }
    }
  }

  lemma PreambleRoundMarkup()
    ensures AllMarkup(PreambleRound)
  {
  }

  lemma StripPassesAreMarkup(v: Variant)
    ensures AllMarkup(StripPasses(v))
  {
    var envs := EnvironmentPasses(EnvironmentsToExclude);
    var reps := Repeat(PreambleRound, PreambleRounds(v));
    assert AllMarkup(envs);
    PreambleRoundMarkup();
    assert AllMarkup(reps);
    AllMarkupAppend(envs, MathPasses);
    AllMarkupAppend(envs + MathPasses, reps);
    AllMarkupAppend(envs + MathPasses + reps, ReferencePasses);
    AllMarkupAppend(MarkupPasses(v), [Unwrap, Residual]);
  }

  /** Plain prose, with no backslash, dollar sign, percent sign or carriage return, is counted as it is. */
  lemma PlainTextKept(v: Variant, raw: string)
    requires '\\' !in raw && '$' !in raw && '%' !in raw && '\r' !in raw
    ensures Stripped(v, raw) == raw
    ensures AnalysisOf(v, raw).words == CountWords(raw)
    ensures AnalysisOf(v, raw).characters == |NonSpace(raw)|
  {
    NoPercentUnchanged(raw);
    StripPassesAreMarkup(v);
    NoMarkerPassesUnchanged(StripPasses(v), raw);
    CharactersAreNonSpace(raw);
  }

  /** `abstract` is present exactly when the raw source holds an abstract environment. */
  lemma AbstractPresentIff(v: Variant, raw: string)
    ensures AnalysisOf(v, raw).sections.abstractSection.Some? <==> !NoMatchFrom(AbstractEnvironment, raw, 0)
  {
  }

  /**
    When present, its word count is that of analyzing the text between the tags of the
    leftmost abstract environment.
   */
  lemma AbstractIsFirstInnerText(v: Variant, raw: string, j: nat, h: Hit)
    requires j < |raw| && MatchAt(AbstractEnvironment, raw, j) == Some(h)
    requires NoMatchIn(AbstractEnvironment, raw, 0, j)
    ensures AnalysisOf(v, raw).sections.abstractSection == Some(AbstractSection(AnalysisOf(v, h.capture).words))
  {
    FirstMatchIs(AbstractEnvironment, raw, 0, j, h);
  }

  lemma {:induction false} FirstMatchIs(p: Pattern, s: string, i: nat, j: nat, h: Hit)
    requires i <= j < |s| && MatchAt(p, s, j) == Some(h) && NoMatchIn(p, s, i, j)
    ensures FirstMatch(p, s, i) == Some((j, h))
    decreases j - i
  {
    if i < j {
      var k := i + 1;
      FirstMatchSkip(p, s, i, k, j);
      FirstMatchIs(p, s, k, j, h);
    } else {
      FirstMatchHere(p, s, j, h);
    }
  }
}
