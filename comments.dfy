/**
  Comment stripping: the document is split into lines at `\r?\n`, each line is cut at its
  first unescaped `%`, and the lines are joined again with `\n`. A `%` is unescaped when it
  starts the line or the character just before it is not a backslash; only that one
  character is looked at, so `\\%` still counts as escaped.
 */
module Comments {
  import opened Wrappers
  import opened Scanner

  /** Position `i` of `line` holds a `%` that starts a comment. */
  predicate IsCommentStart(line: string, i: nat)
    requires i < |line|
  {
    line[i] == '%' && (i == 0 || line[i - 1] != '\\')
  }

  function CutFrom(line: string, i: nat): (r: nat)
    requires i <= |line|
    ensures i <= r <= |line|
    ensures forall m :: i <= m < r ==> !IsCommentStart(line, m)
    ensures r < |line| ==> IsCommentStart(line, r)
    decreases |line| - i
  {
    if i == |line| || IsCommentStart(line, i) then i else CutFrom(line, i + 1)
  }

  /** The scan from `j` stops at the first comment start at or after `j`, whichever it is. */
  lemma {:induction false} CutFromIs(line: string, j: nat, i: nat)
    requires j <= i <= |line|
    requires forall m :: j <= m < i ==> !IsCommentStart(line, m)
    requires i < |line| ==> IsCommentStart(line, i)
    ensures CutFrom(line, j) == i
    decreases i - j
  {
    if j < i {
      assert !IsCommentStart(line, j);
      CutFromIs(line, j + 1, i);
    }
  }

  /** Where the line's comment begins: its first unescaped `%`, or its end if it has none. */
  function CommentCut(line: string): (r: nat)
    ensures r <= |line|
    ensures forall m :: 0 <= m < r ==> !IsCommentStart(line, m)
    ensures r < |line| ==> IsCommentStart(line, r)
  {
    CutFrom(line, 0)
  }

  /** The loop body of the source's `map` callback: copy characters up to the comment. */
  method StripLine(line: string) returns (out: string)
    ensures out == line[..CommentCut(line)]
  {
    out := "";
    var i := 0;
    while i < |line|
      invariant 0 <= i <= |line|
      invariant out == line[..i]
      invariant forall m :: 0 <= m < i ==> !IsCommentStart(line, m)
    {
      var c := line[i];
      if c == '%' && (i == 0 || line[i - 1] != '\\') {
        break;
      }
      out := out + [c];
      i := i + 1;
    }
    CutFromIs(line, 0, i);
  }

  /** `lines.join(sep)` */
  function Join(lines: seq<string>, sep: string): string
    decreases |lines|
  {
    if lines == [] then ""
    else if |lines| == 1 then lines[0]
    else lines[0] + sep + Join(lines[1..], sep)
  }

  /** Each line cut at its comment. */
  function CutLines(lines: seq<string>): (r: seq<string>)
    ensures |r| == |lines|
    ensures forall k :: 0 <= k < |lines| ==> r[k] == lines[k][..CommentCut(lines[k])]
  {
    seq(|lines|, k requires 0 <= k < |lines| => lines[k][..CommentCut(lines[k])])
  }

  /** What comment stripping computes: split, cut every line, join with `\n`. */
  function WithoutComments(input: string): string
  {
    Join(CutLines(Split(LineBreak, input)), "\n")
  }

  /** `stripComments`: the split/map/join around the per-line loop. */
  method StripComments(input: string) returns (out: string)
    ensures out == WithoutComments(input)
  {
    var lines := Split(LineBreak, input);
    var stripped: seq<string> := [];
    for k := 0 to |lines|
      invariant |stripped| == k
      invariant forall j :: 0 <= j < k ==> stripped[j] == lines[j][..CommentCut(lines[j])]
    {
      var line := StripLine(lines[k]);
      stripped := stripped + [line];
    }
    assert stripped == CutLines(lines);
    out := Join(stripped, "\n");
  }

  // ---------------------------------------------------------------------------------
  // Properties

  /** A line in which every `%` is escaped comes through whole. */
  lemma {:induction false} EscapedPercentKept(a: string, b: string)
    requires '%' !in a && '%' !in b
    ensures CommentCut(a + "\\%" + b) == |a + "\\%" + b|
  {
    var line := a + "\\%" + b;
    forall m | 0 <= m < |line| ensures !IsCommentStart(line, m) {
      if m < |a| {
        assert line[m] == a[m];
      } else if m > |a| + 1 {
        assert line[m] == b[m - |a| - 2];
      }
    }
  }

  /** A line is cut right before its first unescaped `%`, whatever follows it. */
  lemma {:induction false} UnescapedPercentCuts(a: string, b: string)
    requires '%' !in a
    requires a == [] || a[|a| - 1] != '\\'
    ensures CommentCut(a + "%" + b) == |a|
  {
    var line := a + "%" + b;
    assert IsCommentStart(line, |a|);
    forall m | 0 <= m < |a| ensures !IsCommentStart(line, m) {
      assert line[m] == a[m];
    }
  }

  /** The number of `\n` characters in `s`. */
  function Newlines(s: string): nat
  {
    multiset(s)['\n']
  }

  /** `split(/\r?\n/)` gives one more piece than the text has newlines. */
  lemma {:induction false} LinePieces(s: string, start: nat, q: nat)
    requires start <= q <= |s|
    ensures |SplitFrom(LineBreak, s, start, q)| == Newlines(s[q..]) + 1
    decreases |s| - q
  {
    if q < |s| {
      var n := LineBreakEnd(s, q);
      if n == q {
        SplitSkipChar(LineBreak, s, start, q);
        LinePieces(s, start, q + 1);
        NewlinesSkip(s, q);
      } else {
        SplitAtHit(LineBreak, s, start, q, Hit(n, ""));
        LinePieces(s, n, n);
        NewlinesSplit(s, q, n);
      }
    }
  }

  lemma NewlinesSkip(s: string, q: nat)
    requires q < |s| && s[q] != '\n'
    ensures Newlines(s[q..]) == Newlines(s[q + 1..])
  {
    assert s[q..] == [s[q]] + s[q + 1..];
  }

  lemma NewlinesSplit(s: string, q: nat, n: nat)
    requires q <= n <= |s|
    ensures Newlines(s[q..]) == Newlines(s[q..n]) + Newlines(s[n..])
  {
    assert s[q..] == s[q..n] + s[n..];
  }

  /** Where a line break starting at `q` ends (`q` itself when there is none), and its newlines. */
  lemma LineBreakEnd(s: string, q: nat) returns (n: nat)
    requires q < |s|
    ensures q <= n <= |s|
    ensures n == q ==> MatchAt(LineBreak, s, q).None? && s[q] != '\n'
    ensures n > q ==> MatchAt(LineBreak, s, q) == Some(Hit(n, "")) && Newlines(s[q..n]) == 1
  {
    if s[q] == '\r' && q + 1 < |s| && s[q + 1] == '\n' {
      n := q + 2;
      assert s[q..n] == ['\r', '\n'];
    } else if s[q] == '\n' {
      n := q + 1;
      assert s[q..n] == ['\n'];
    } else {
      n := q;
    }
  }

  /** Joining newline-free lines with `\n` puts exactly one newline between neighbours. */
  lemma {:induction false} JoinNewlines(lines: seq<string>)
    requires |lines| > 0
    requires forall k :: 0 <= k < |lines| ==> '\n' !in lines[k]
    ensures Newlines(Join(lines, "\n")) == |lines| - 1
    decreases |lines|
  {
    if |lines| > 1 {
      JoinNewlines(lines[1..]);
      assert '\n' !in lines[0];
      assert multiset(lines[0])['\n'] == 0;
      assert Join(lines, "\n") == lines[0] + "\n" + Join(lines[1..], "\n");
    } else {
      assert '\n' !in lines[0];
      assert multiset(lines[0])['\n'] == 0;
    }
  }

  /** Comment stripping keeps the number of lines. */
  lemma LineCountPreserved(input: string)
    ensures |Split(LineBreak, WithoutComments(input))| == |Split(LineBreak, input)|
  {
    var lines := Split(LineBreak, input);
    LinePieces(input, 0, 0);
    LinesWithoutNewline(input, 0, 0);
    var cut := CutLines(lines);
    forall k | 0 <= k < |cut| ensures '\n' !in cut[k] {
      assert cut[k] == lines[k][..CommentCut(lines[k])];
      forall m | 0 <= m < |cut[k]| ensures cut[k][m] != '\n' {
        assert cut[k][m] == lines[k][m];
      }
    }
    JoinNewlines(cut);
    LinePieces(WithoutComments(input), 0, 0);
  }

  /** `split` always yields at least one piece. */
  lemma {:induction false} SplitFromNonEmpty(s: string, start: nat, q: nat)
    requires start <= q <= |s|
    ensures |SplitFrom(LineBreak, s, start, q)| > 0
    decreases |s| - q
  {
    if q < |s| {
      match MatchAt(LineBreak, s, q)
      case Some(h) => SplitFromNonEmpty(s, h.end, h.end);
      case None => SplitFromNonEmpty(s, start, q + 1);
    }
  }

  /** Splitting at `\n` and joining with `\n` gives back text that has no carriage return. */
  lemma {:induction false} JoinSplitLines(s: string, start: nat, q: nat)
    requires start <= q <= |s| && '\r' !in s
    requires forall m :: start <= m < q ==> s[m] != '\n'
    ensures Join(SplitFrom(LineBreak, s, start, q), "\n") == s[start..]
    decreases |s| - q
  {
    if q < |s| {
      if s[q] == '\n' {
        assert s[q] != '\r';
        assert MatchAt(LineBreak, s, q) == Some(Hit(q + 1, ""));
        JoinSplitLines(s, q + 1, q + 1);
        SplitFromNonEmpty(s, q + 1, q + 1);
        assert s[start..] == s[start..q] + "\n" + s[q + 1..];
      } else {
        assert MatchAt(LineBreak, s, q).None?;
        JoinSplitLines(s, start, q + 1);
      }
    }
  }

  /** Text with no `%` and no carriage return comes through comment stripping unchanged. */
  lemma NoPercentUnchanged(input: string)
    requires '%' !in input && '\r' !in input
    ensures WithoutComments(input) == input
  {
    var lines := Split(LineBreak, input);
    SplitPiecesKeep(LineBreak, input, 0, 0, c => c != '%');
    forall k | 0 <= k < |lines| ensures CommentCut(lines[k]) == |lines[k]| {
      assert forall m :: 0 <= m < |lines[k]| ==> (c => c != '%')(lines[k][m]);
      assert forall m :: 0 <= m < |lines[k]| ==> !IsCommentStart(lines[k], m);
    }
    forall k | 0 <= k < |lines| ensures CutLines(lines)[k] == lines[k] {
      assert lines[k][..|lines[k]|] == lines[k];
    }
    assert CutLines(lines) == lines;
    JoinSplitLines(input, 0, 0);
  }

  /** A text of one line loses exactly its comment. */
  lemma SingleLineCut(line: string)
    requires '\n' !in line && '\r' !in line
    ensures WithoutComments(line) == line[..CommentCut(line)]
  {
    forall m | 0 <= m < |line| ensures MatchAt(LineBreak, line, m).None? {
      assert line[m] != '\n' && line[m] != '\r';
    }
    SplitNoMatch(LineBreak, line, 0, 0);
    assert line[0..] == line;
  }
}
