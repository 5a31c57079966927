/**
  The counters applied to the stripped text: `normalizeSpaces`, the character count built on
  it, and `countWords`, `countSentences` and `countParagraphs`, each a split followed by a
  filter.
 */
module Counters {
  import opened Chars
  import opened Wrappers
  import opened Scanner

  /** Every character of `s` is whitespace (the empty text included). */
  predicate Blank(s: string)
  {
    forall k :: 0 <= k < |s| ==> IsSpace(s[k])
  }

  /** The leading-whitespace half of `trim`. */
  function TrimStart(s: string): (r: string)
    ensures |r| <= |s| && r == s[|s| - |r|..]
    ensures Blank(s[..|s| - |r|])
    ensures |r| > 0 ==> !IsSpace(r[0])
  {
    if |s| > 0 && IsSpace(s[0]) then
      var r := TrimStart(s[1..]);
      LeadingSpaceStep(s, s[1..], r);
      r
    else s
  }

  /** A whitespace character in front of a tail trimmed to `r`. */
  lemma LeadingSpaceStep(s: string, t: string, r: string)
    requires |s| > 0 && IsSpace(s[0]) && t == s[1..]
    requires |r| <= |t| && r == t[|t| - |r|..] && Blank(t[..|t| - |r|])
    ensures r == s[|s| - |r|..] && Blank(s[..|s| - |r|])
  {
    assert t[|t| - |r|..] == s[|s| - |r|..];
    assert forall k :: 0 < k < |s| - |r| ==> s[k] == t[k - 1];
  }

  /** The trailing-whitespace half of `trim`. */
  function TrimEnd(s: string): (r: string)
    ensures |r| <= |s| && r == s[..|r|]
    ensures Blank(s[|r|..])
    ensures |r| > 0 ==> !IsSpace(r[|r| - 1])
  {
    if |s| > 0 && IsSpace(s[|s| - 1]) then
      var r := TrimEnd(s[..|s| - 1]);
      assert forall k :: |r| <= k < |s| - 1 ==> s[k] == s[..|s| - 1][k];
      r
    else s
  }

  /** `String.prototype.trim` */
  function Trim(s: string): string
  {
    TrimEnd(TrimStart(s))
  }

  /** `trim` keeps a contiguous part of the text, with whitespace only around it. */
  lemma TrimSlice(s: string) returns (a: nat, b: nat)
    ensures a <= b <= |s| && Trim(s) == s[a..b]
    ensures Blank(s[..a]) && Blank(s[b..])
    ensures |Trim(s)| > 0 ==> !IsSpace(Trim(s)[0]) && !IsSpace(Trim(s)[|Trim(s)| - 1])
  {
    var t := TrimStart(s);
    var r := TrimEnd(t);
    a := |s| - |t|;
    b := a + |r|;
    PrefixOfSuffix(s, a, b, t, r);
  }

  /** A prefix `r` of the suffix `t == s[a..]`, located in `s`. */
  lemma PrefixOfSuffix(s: string, a: nat, b: nat, t: string, r: string)
    requires a <= |s| && t == s[a..] && |r| <= |t| && r == t[..|r|] && b == a + |r|
    ensures b <= |s| && r == s[a..b] && t[|r|..] == s[b..]
  {
  }

  /** `p.trim().length > 0` holds exactly for the texts that are not all whitespace. */
  lemma TrimEmptyIff(s: string)
    ensures |Trim(s)| == 0 <==> Blank(s)
  {
    var a, b := TrimSlice(s);
    if |Trim(s)| == 0 {
      forall k | 0 <= k < |s| ensures IsSpace(s[k]) {
        if k < a {
          assert s[k] == s[..a][k];
        } else {
          assert s[k] == s[b..][k - b];
        }
      }
    } else {
      assert Trim(s)[0] == s[a];
    }
  }

  // ---------------------------------------------------------------------------------
  // normalizeSpaces and the character count

  /** `normalizeSpaces`: tabs, form feeds and vertical tabs to spaces, runs to one space, trim. */
  function NormalizeSpaces(content: string): string
  {
    Trim(Replace(SpaceRun2, Replace(FormatSpaceRun, content)))
  }

  /** No two whitespace characters stand next to each other. */
  predicate NoDoubleSpace(t: string)
  {
    forall m :: 0 <= m < |t| - 1 ==> !(IsSpace(t[m]) && IsSpace(t[m + 1]))
  }

  lemma MatchSpaceRun2(s: string, i: nat)
    requires i < |s|
    ensures MatchAt(SpaceRun2, s, i) ==
      if IsSpace(s[i]) && i + 1 < |s| && IsSpace(s[i + 1]) then Some(Hit(Skip(s, i, Space), "")) else None
  {
  }

  /**
    What the run-collapsing replace makes of the text from `i` on has no double whitespace,
    and starts with whitespace exactly when the text at `i` does.
   */
  lemma {:induction false} CollapseTail(s: string, i: nat)
    requires i <= |s|
    ensures NoDoubleSpace(ReplaceFrom(SpaceRun2, s, i))
    ensures i < |s| ==>
      |ReplaceFrom(SpaceRun2, s, i)| > 0 && (IsSpace(ReplaceFrom(SpaceRun2, s, i)[0]) <==> IsSpace(s[i]))
    decreases |s| - i
  {
    if i < |s| {
      if IsSpace(s[i]) && i + 1 < |s| && IsSpace(s[i + 1]) {
        var e := CollapseRun(s, i);
        CollapseTail(s, e);
        ConsNoDoubleSpace(' ', ReplaceFrom(SpaceRun2, s, e));
      } else {
        var k := i + 1;
        CollapseCopy(s, i, k);
        CollapseTail(s, k);
        ConsNoDoubleSpace(s[i], ReplaceFrom(SpaceRun2, s, k));
      }
    }
  }

  /** A run of two or more whitespace characters at `i` becomes one space. */
  lemma CollapseRun(s: string, i: nat) returns (e: nat)
    requires i + 1 < |s| && IsSpace(s[i]) && IsSpace(s[i + 1])
    ensures i < e <= |s| && (e == |s| || !IsSpace(s[e]))
    ensures ReplaceFrom(SpaceRun2, s, i) == " " + ReplaceFrom(SpaceRun2, s, e)
  {
    MatchSpaceRun2(s, i);
    e := Skip(s, i, Space);
    ReplaceAtHit(SpaceRun2, s, i, Hit(e, ""));
  }

  /** Anywhere else the character at `i` is copied. */
  lemma CollapseCopy(s: string, i: nat, k: nat)
    requires i < |s| && k == i + 1
    requires !(IsSpace(s[i]) && i + 1 < |s| && IsSpace(s[i + 1]))
    ensures ReplaceFrom(SpaceRun2, s, i) == [s[i]] + ReplaceFrom(SpaceRun2, s, k)
  {
    MatchSpaceRun2(s, i);
    ReplaceSkipChar(SpaceRun2, s, i);
  }

  lemma ConsNoDoubleSpace(c: char, u: string)
    requires NoDoubleSpace(u)
    requires IsSpace(c) && |u| > 0 ==> !IsSpace(u[0])
    ensures NoDoubleSpace([c] + u)
  {
    var t := [c] + u;
    forall m | 0 < m < |t| - 1 ensures !(IsSpace(t[m]) && IsSpace(t[m + 1])) {
      assert t[m] == u[m - 1] && t[m + 1] == u[m];
    }
  }

  lemma TrimKeepsNoDoubleSpace(c: string)
    requires NoDoubleSpace(c)
    ensures var n := Trim(c); NoDoubleSpace(n) && (|n| > 0 ==> !IsSpace(n[0]) && !IsSpace(n[|n| - 1]))
  {
    var a, b := TrimSlice(c);
    var n := Trim(c);
    forall m | 0 <= m < |n| - 1 ensures !(IsSpace(n[m]) && IsSpace(n[m + 1])) {
      assert n[m] == c[a + m] && n[m + 1] == c[a + m + 1];
    }
  }

  /** `normalizeSpaces` leaves no whitespace at either end and never two in a row. */
  lemma NormalizeSpacesShape(content: string)
    ensures var n := NormalizeSpaces(content);
      NoDoubleSpace(n) && (|n| > 0 ==> !IsSpace(n[0]) && !IsSpace(n[|n| - 1]))
  {
    var f := Replace(FormatSpaceRun, content);
    CollapseTail(f, 0);
    TrimKeepsNoDoubleSpace(Replace(SpaceRun2, f));
  }

  /** The non-whitespace characters of `s`, in order. */
  function NonSpace(s: string): (r: string)
    ensures |r| <= |s|
    ensures forall k :: 0 <= k < |r| ==> !IsSpace(r[k])
  {
    if s == [] then []
    else if IsSpace(s[0]) then NonSpace(s[1..])
    else [s[0]] + NonSpace(s[1..])
  }

  lemma {:induction false} NonSpaceAppend(a: string, b: string)
    ensures NonSpace(a + b) == NonSpace(a) + NonSpace(b)
    decreases |a|
  {
    if a != [] {
      assert (a + b)[1..] == a[1..] + b;
      NonSpaceAppend(a[1..], b);
    } else {
      assert a + b == b;
    }
  }

  lemma {:induction false} NonSpaceBlank(s: string)
    requires Blank(s)
    ensures NonSpace(s) == []
    decreases |s|
  {
    if s != [] {
      NonSpaceBlank(s[1..]);
    }
  }

  /** The patterns that only ever replace whitespace by whitespace. */
  predicate SpaceToSpace(p: Pattern)
  {
    p == FormatSpaceRun || p == SpaceRun2 || p == AnySpace
  }

  lemma SpaceMatch(p: Pattern, s: string, i: nat)
    requires SpaceToSpace(p) && i < |s| && MatchAt(p, s, i).Some?
    ensures Blank(s[i..MatchAt(p, s, i).value.end])
    ensures Blank(Substitute(p, MatchAt(p, s, i).value))
  {
    var e := MatchAt(p, s, i).value.end;
    if p == FormatSpaceRun {
      assert forall m :: i <= m < e ==> IsFormatSpace(s[m]);
    }
    assert forall m :: 0 <= m < e - i ==> s[i..e][m] == s[i + m];
  }

  /** A whitespace-to-whitespace replace keeps the non-whitespace characters. */
  lemma {:induction false} ReplaceKeepsNonSpace(p: Pattern, s: string, i: nat)
    requires SpaceToSpace(p) && i <= |s|
    ensures NonSpace(ReplaceFrom(p, s, i)) == NonSpace(s[i..])
    decreases |s| - i
  {
    if i < |s| {
      var r := MatchAt(p, s, i);
      if r.Some? {
        var h := r.value;
        SpaceMatch(p, s, i);
        ReplaceKeepsNonSpace(p, s, h.end);
        ReplaceAtHit(p, s, i, h);
        SuffixSplit(s, i, h.end);
        BlankThenSame(ReplaceFrom(p, s, i), Substitute(p, h), ReplaceFrom(p, s, h.end), s[i..], s[i..h.end], s[h.end..]);
      } else {
        var k := i + 1;
        ReplaceKeepsNonSpace(p, s, k);
        ReplaceSkipChar(p, s, i);
        SuffixSplit(s, i, k);
        assert s[i..k] == [s[i]];
        CharThenSame(ReplaceFrom(p, s, i), ReplaceFrom(p, s, k), s[i..], s[i..k], s[k..]);
      }
    }
  }

  lemma SuffixSplit(s: string, i: nat, e: nat)
    requires i <= e <= |s|
    ensures s[i..] == s[i..e] + s[e..]
  {
  }

  /** Blank text in front on both sides leaves the non-whitespace characters as they were. */
  lemma BlankThenSame(whole: string, sub: string, rest: string, text: string, seg: string, tail: string)
    requires whole == sub + rest && text == seg + tail
    requires Blank(sub) && Blank(seg) && NonSpace(rest) == NonSpace(tail)
    ensures NonSpace(whole) == NonSpace(text)
  {
    NonSpaceAppend(sub, rest);
    NonSpaceAppend(seg, tail);
    NonSpaceBlank(sub);
    NonSpaceBlank(seg);
  }

  /** The same character in front on both sides. */
  lemma CharThenSame(whole: string, rest: string, text: string, seg: string, tail: string)
    requires |seg| == 1 && whole == seg + rest && text == seg + tail && NonSpace(rest) == NonSpace(tail)
    ensures NonSpace(whole) == NonSpace(text)
  {
    NonSpaceAppend(seg, rest);
    NonSpaceAppend(seg, tail);
  }

  /** `trim` keeps the non-whitespace characters. */
  lemma TrimKeepsNonSpace(s: string)
    ensures NonSpace(Trim(s)) == NonSpace(s)
  {
    var a, b := TrimSlice(s);
    SliceThree(s, a, b);
    BlankAround(s, s[..a], s[a..b], s[b..]);
  }

  lemma SliceThree(s: string, a: nat, b: nat)
    requires a <= b <= |s|
    ensures s == s[..a] + s[a..b] + s[b..]
  {
  }

  /** Whitespace on both sides of `y` adds no non-whitespace character. */
  lemma BlankAround(s: string, x: string, y: string, z: string)
    requires s == x + y + z && Blank(x) && Blank(z)
    ensures NonSpace(s) == NonSpace(y)
  {
    NonSpaceAppend(x + y, z);
    NonSpaceAppend(x, y);
    NonSpaceBlank(x);
    NonSpaceBlank(z);
  }

  /** `normalizeSpaces(content).replace(/\s/g, '').length` */
  function Characters(content: string): nat
  {
    |Replace(AnySpace, NormalizeSpaces(content))|
  }

  /** The character count is the number of non-whitespace characters of the text. */
  lemma CharactersAreNonSpace(content: string)
    ensures Characters(content) == |NonSpace(content)|
  {
    var f := Replace(FormatSpaceRun, content);
    var c := Replace(SpaceRun2, f);
    var n := NormalizeSpaces(content);
    ReplaceKeepsNonSpace(FormatSpaceRun, content, 0);
    ReplaceKeepsNonSpace(SpaceRun2, f, 0);
    TrimKeepsNonSpace(c);
    ReplaceKeepsNonSpace(AnySpace, n, 0);
    assert content[0..] == content && f[0..] == f && n[0..] == n;
    RemoveAllSpace(n, 0);
  }

  /** Deleting every whitespace character leaves exactly the non-whitespace ones. */
  lemma {:induction false} RemoveAllSpace(s: string, i: nat)
    requires i <= |s|
    ensures ReplaceFrom(AnySpace, s, i) == NonSpace(s[i..])
    decreases |s| - i
  {
    if i < |s| {
      RemoveAllSpace(s, i + 1);
      assert s[i..][1..] == s[i + 1..];
      if IsSpace(s[i]) {
        ReplaceAtHit(AnySpace, s, i, Hit(i + 1, ""));
      } else {
        ReplaceSkipChar(AnySpace, s, i);
      }
    }
  }

  // ---------------------------------------------------------------------------------
  // countWords

  predicate HasLetterOrDigit(t: string)
  {
    exists k :: 0 <= k < |t| && IsLetterOrDigit(t[k])
  }

  /** `^[^\p{L}\p{N}]+` removed */
  function DropLeadingOther(t: string): (r: string)
    ensures |r| <= |t| && r == t[|t| - |r|..]
    ensures forall k :: 0 <= k < |t| - |r| ==> !IsLetterOrDigit(t[k])
    ensures |r| > 0 ==> IsLetterOrDigit(r[0])
  {
    if |t| > 0 && !IsLetterOrDigit(t[0]) then
      var r := DropLeadingOther(t[1..]);
      assert t[1..][|t| - 1 - |r|..] == t[|t| - |r|..];
      assert forall k :: 0 < k < |t| - |r| ==> t[k] == t[1..][k - 1];
      r
    else t
  }

  /** `[^\p{L}\p{N}]+$` removed */
  function DropTrailingOther(t: string): (r: string)
    ensures |r| <= |t| && r == t[..|r|]
    ensures forall k :: |r| <= k < |t| ==> !IsLetterOrDigit(t[k])
    ensures |r| > 0 ==> IsLetterOrDigit(r[|r| - 1])
  {
    if |t| > 0 && !IsLetterOrDigit(t[|t| - 1]) then
      var r := DropTrailingOther(t[..|t| - 1]);
      assert forall k :: |r| <= k < |t| - 1 ==> t[k] == t[..|t| - 1][k];
      r
    else t
  }

  /**
    `t.replace(/^[^\p{L}\p{N}]+|[^\p{L}\p{N}]+$/gu, '')`: the global replace removes the
    leading run of other characters and the trailing one.
   */
  function TrimOther(t: string): string
  {
    DropTrailingOther(DropLeadingOther(t))
  }

  /** A token survives `filter(Boolean)` exactly when it holds a letter or digit. */
  lemma TrimOtherEmptyIff(t: string)
    ensures |TrimOther(t)| > 0 <==> HasLetterOrDigit(t)
  {
    var d := DropLeadingOther(t);
    var off := |t| - |d|;
    if |TrimOther(t)| > 0 {
      assert IsLetterOrDigit(d[0]);
      assert t[off] == d[0];
    }
  }

  /** `map(trim-other).filter(Boolean)` */
  function Tokens(pieces: seq<string>): seq<string>
  {
    if pieces == [] then []
    else
      var t := TrimOther(pieces[0]);
      (if |t| > 0 then [t] else []) + Tokens(pieces[1..])
  }

  /** The pieces that hold a letter or digit: the reference count of words. */
  function CountWithLetterOrDigit(pieces: seq<string>): nat
  {
    if pieces == [] then 0
    else (if HasLetterOrDigit(pieces[0]) then 1 else 0) + CountWithLetterOrDigit(pieces[1..])
  }

  /** `countWords` */
  function CountWords(text: string): nat
  {
    |Tokens(Split(SpaceRun, text))|
  }

  lemma {:induction false} TokensCount(pieces: seq<string>)
    ensures |Tokens(pieces)| == CountWithLetterOrDigit(pieces)
    ensures |Tokens(pieces)| <= |pieces|
    decreases |pieces|
  {
    if pieces != [] {
      TrimOtherEmptyIff(pieces[0]);
      TokensCount(pieces[1..]);
    }
  }

  /**
    The word count is the number of whitespace-separated pieces that hold a letter or digit;
    so it is at most the number of pieces, and a piece of punctuation alone adds nothing.
   */
  lemma CountWordsIsTokensWithLetters(text: string)
    ensures CountWords(text) == CountWithLetterOrDigit(Split(SpaceRun, text))
    ensures CountWords(text) <= |Split(SpaceRun, text)|
  {
    TokensCount(Split(SpaceRun, text));
  }

  lemma {:induction false} NoLetterNoCount(pieces: seq<string>)
    requires forall k :: 0 <= k < |pieces| ==> !HasLetterOrDigit(pieces[k])
    ensures CountWithLetterOrDigit(pieces) == 0
    decreases |pieces|
  {
    if pieces != [] {
      assert !HasLetterOrDigit(pieces[0]);
      NoLetterNoCount(pieces[1..]);
    }
  }

  /** Empty or all-whitespace text has no words. */
  lemma CountWordsBlank(text: string)
    requires Blank(text)
    ensures CountWords(text) == 0
  {
    SplitPiecesKeep(SpaceRun, text, 0, 0, c => IsSpace(c));
    var pieces := Split(SpaceRun, text);
    forall k | 0 <= k < |pieces| ensures !HasLetterOrDigit(pieces[k]) {
      forall m | 0 <= m < |pieces[k]| ensures !IsLetterOrDigit(pieces[k][m]) {
        assert (c => IsSpace(c))(pieces[k][m]) == IsSpace(pieces[k][m]);
      }
    }
    NoLetterNoCount(pieces);
    CountWordsIsTokensWithLetters(text);
  }

  // ---------------------------------------------------------------------------------
  // countSentences and countParagraphs

  /** `filter((p) => p.trim().length > 0).length` */
  function CountNonBlank(pieces: seq<string>): nat
  {
    if pieces == [] then 0
    else (if |Trim(pieces[0])| > 0 then 1 else 0) + CountNonBlank(pieces[1..])
  }

  /** `countSentences` */
  function CountSentences(text: string): nat
  {
    CountNonBlank(Split(SentenceBreak, text))
  }

  /** `countParagraphs` */
  function CountParagraphs(text: string): nat
  {
    CountNonBlank(Split(ParagraphBreak, text))
  }

  /** The filter keeps at most every piece. */
  lemma {:induction false} CountNonBlankAtMost(pieces: seq<string>)
    ensures CountNonBlank(pieces) <= |pieces|
    decreases |pieces|
  {
    if pieces != [] {
      CountNonBlankAtMost(pieces[1..]);
    }
  }

  /** The filter drops every blank piece. */
  lemma {:induction false} CountNonBlankNone(pieces: seq<string>)
    requires forall k :: 0 <= k < |pieces| ==> Blank(pieces[k])
    ensures CountNonBlank(pieces) == 0
    decreases |pieces|
  {
    if pieces != [] {
      TrimEmptyIff(pieces[0]);
      var rest := pieces[1..];
      assert forall k :: 0 <= k < |rest| ==> rest[k] == pieces[k + 1];
      CountNonBlankNone(rest);
    }
  }

  /**
    Splitting blank text on any pattern leaves only blank pieces, which the filter drops:
    blank text has no sentence and no paragraph.
   */
  lemma BlankSplitCountsNothing(p: Pattern, text: string)
    requires Blank(text)
    ensures CountNonBlank(Split(p, text)) == 0
  {
    SplitPiecesKeep(p, text, 0, 0, c => IsSpace(c));
    var pieces := Split(p, text);
    forall k | 0 <= k < |pieces| ensures Blank(pieces[k]) {
      forall m | 0 <= m < |pieces[k]| ensures IsSpace(pieces[k][m]) {
        assert (c => IsSpace(c))(pieces[k][m]) == IsSpace(pieces[k][m]);
      }
    }
    CountNonBlankNone(pieces);
  }

  /** Text the pattern finds nothing in is one piece; it counts once unless it is blank. */
  lemma NoBreakCountsOnce(p: Pattern, text: string)
    requires NoMatchFrom(p, text, 0)
    ensures CountNonBlank(Split(p, text)) == if Blank(text) then 0 else 1
  {
    SplitNoMatch(p, text, 0, 0);
    assert text[0..] == text;
    TrimEmptyIff(text);
  }

  lemma CountSentencesBlank(text: string)
    requires Blank(text)
    ensures CountSentences(text) == 0
  {
    BlankSplitCountsNothing(SentenceBreak, text);
  }

  /** `countSentences` is the number of non-blank pieces between sentence breaks. */
  lemma CountSentencesBound(text: string)
    ensures CountSentences(text) <= |Split(SentenceBreak, text)|
  {
    CountNonBlankAtMost(Split(SentenceBreak, text));
  }

  /** Non-blank text without `.`, `!` or `?` is one sentence. */
  lemma OneSentence(text: string)
    requires !Blank(text)
    requires forall m :: 0 <= m < |text| ==> !In(text[m], Terminator)
    ensures CountSentences(text) == 1
  {
    forall m | 0 <= m < |text| ensures MatchAt(SentenceBreak, text, m).None? {
      SentenceBreakNeedsTerminator(text, m);
    }
    NoBreakCountsOnce(SentenceBreak, text);
  }

  /** A sentence break starts with `.`, `!` or `?`. */
  lemma SentenceBreakNeedsTerminator(s: string, m: nat)
    requires m < |s| && !In(s[m], Terminator)
    ensures MatchAt(SentenceBreak, s, m).None?
  {
  }

  lemma CountParagraphsBlank(text: string)
    requires Blank(text)
    ensures CountParagraphs(text) == 0
  {
    BlankSplitCountsNothing(ParagraphBreak, text);
  }

  /** Non-blank text with no `\n`, whitespace, `\n` sequence is one paragraph. */
  lemma OneParagraph(text: string)
    requires !Blank(text)
    requires NoMatchFrom(ParagraphBreak, text, 0)
    ensures CountParagraphs(text) == 1
  {
    NoBreakCountsOnce(ParagraphBreak, text);
  }

  /** Non-blank text without any newline is one paragraph. */
  lemma OneLineOneParagraph(text: string)
    requires !Blank(text)
    requires '\n' !in text
    ensures CountParagraphs(text) == 1
  {
    forall m | 0 <= m < |text| ensures MatchAt(ParagraphBreak, text, m).None? {
      assert text[m] != '\n';
    }
    OneParagraph(text);
  }
}
