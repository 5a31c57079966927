/**
  The preview rendering of the web copy: the stripped text, cut at a maximum length, split
  into whitespace runs and the pieces between them; whitespace is passed through, a piece
  with a letter or digit is escaped and wrapped in `<mark>...</mark>`, any other piece is
  only escaped, and the fragments are concatenated.

  `Unhighlight` is an independent reading of such a rendering: it drops the mark tags,
  counts the opening ones and decodes the three entities. Reading a rendering back gives
  the truncated text and, as its mark count, that text's word count.
 */
module Highlighter {
  import opened Chars
  import opened Scanner
  import opened Comments
  import opened Counters
  import opened Analyzer

  // ---------------------------------------------------------------------------------
  // Escaping

  const Amp: Pattern := CharReplace('&', "&amp;")
  const Lt: Pattern := CharReplace('<', "&lt;")
  const Gt: Pattern := CharReplace('>', "&gt;")

  /** `escapeHtml`: three global replaces, ampersands first. */
  function EscapeHtml(s: string): string
  {
    Replace(Gt, Replace(Lt, Replace(Amp, s)))
  }

  /** The entity a single character is written as. */
  function EscapeChar(c: char): string
  {
    if c == '&' then "&amp;" else if c == '<' then "&lt;" else if c == '>' then "&gt;" else [c]
  }

  /** Escaping character by character: the reference for `EscapeHtml`. */
  function EscapeEach(s: string): string
    decreases |s|
  {
    if s == [] then [] else EscapeChar(s[0]) + EscapeEach(s[1..])
  }

  /** Every `c` replaced by `r`, character by character. */
  function SubstChar(c: char, r: string, s: string): string
    decreases |s|
  {
    if s == [] then [] else (if s[0] == c then r else [s[0]]) + SubstChar(c, r, s[1..])
  }

  /** A global replace of one character is the character-by-character substitution. */
  lemma {:induction false} ReplaceCharFrom(c: char, r: string, s: string, i: nat)
    requires i <= |s|
    ensures ReplaceFrom(CharReplace(c, r), s, i) == SubstChar(c, r, s[i..])
    decreases |s| - i
  {
    if i < |s| {
      ReplaceCharFrom(c, r, s, i + 1);
      assert s[i..][1..] == s[i + 1..];
    }
  }

  lemma {:induction false} SubstAppend(c: char, r: string, a: string, b: string)
    ensures SubstChar(c, r, a + b) == SubstChar(c, r, a) + SubstChar(c, r, b)
    decreases |a|
  {
    if a != [] {
      var head := if a[0] == c then r else [a[0]];
      assert (a + b)[0] == a[0];
      assert (a + b)[1..] == a[1..] + b;
      SubstAppend(c, r, a[1..], b);
      calc {
        SubstChar(c, r, a + b);
        head + SubstChar(c, r, a[1..] + b);
        head + (SubstChar(c, r, a[1..]) + SubstChar(c, r, b));
        (head + SubstChar(c, r, a[1..])) + SubstChar(c, r, b);
        SubstChar(c, r, a) + SubstChar(c, r, b);
      }
    } else {
      assert a + b == b;
    }
  }

  lemma {:induction false} SubstAbsent(c: char, r: string, s: string)
    requires c !in s
    ensures SubstChar(c, r, s) == s
    decreases |s|
  {
    if s != [] {
      assert s == [s[0]] + s[1..];
      SubstAbsent(c, r, s[1..]);
    }
  }

  lemma SubstSingle(c: char, r: string, x: char)
    ensures SubstChar(c, r, [x]) == if x == c then r else [x]
  {
    assert [x][1..] == [];
  }

  /** The three substitutions, applied to one character, write its entity. */
  lemma EscapeOne(c: char)
    ensures SubstChar('>', "&gt;", SubstChar('<', "&lt;", SubstChar('&', "&amp;", [c]))) == EscapeChar(c)
  {
    SubstSingle('&', "&amp;", c);
    var amp := SubstChar('&', "&amp;", [c]);
    if c == '&' {
      SubstAbsent('<', "&lt;", amp);
      SubstAbsent('>', "&gt;", amp);
    } else {
      SubstSingle('<', "&lt;", c);
      var lt := SubstChar('<', "&lt;", amp);
      if c == '<' {
        SubstAbsent('>', "&gt;", lt);
      } else {
        SubstSingle('>', "&gt;", c);
      }
    }
  }

  lemma {:induction false} EscapeSteps(s: string)
    ensures SubstChar('>', "&gt;", SubstChar('<', "&lt;", SubstChar('&', "&amp;", s))) == EscapeEach(s)
    decreases |s|
  {
    if s != [] {
      var head := [s[0]];
      var tail := s[1..];
      assert s == head + tail;
      SubstAppend('&', "&amp;", head, tail);
      var a1 := SubstChar('&', "&amp;", head);
      var a2 := SubstChar('&', "&amp;", tail);
      SubstAppend('<', "&lt;", a1, a2);
      SubstAppend('>', "&gt;", SubstChar('<', "&lt;", a1), SubstChar('<', "&lt;", a2));
      EscapeOne(s[0]);
      EscapeSteps(tail);
    }
  }

  /** `escapeHtml` writes every character as its entity, independently of its neighbours. */
  lemma EscapeHtmlIsEach(s: string)
    ensures EscapeHtml(s) == EscapeEach(s)
  {
    ReplaceCharFrom('&', "&amp;", s, 0);
    var a := Replace(Amp, s);
    ReplaceCharFrom('<', "&lt;", a, 0);
    var l := Replace(Lt, a);
    ReplaceCharFrom('>', "&gt;", l, 0);
    assert s[0..] == s && a[0..] == a && l[0..] == l;
    EscapeSteps(s);
  }

  lemma {:induction false} EscapeEachNoBrackets(s: string)
    ensures '<' !in EscapeEach(s) && '>' !in EscapeEach(s)
    decreases |s|
  {
    if s != [] {
      EscapeEachNoBrackets(s[1..]);
    }
  }

  /** Escaped text holds no angle bracket. */
  lemma EscapeHtmlNoBrackets(s: string)
    ensures '<' !in EscapeHtml(s) && '>' !in EscapeHtml(s)
  {
    EscapeHtmlIsEach(s);
    EscapeEachNoBrackets(s);
  }

  // ---------------------------------------------------------------------------------
  // Reading a rendering back

  /** The text a rendering shows, with its number of opening mark tags. */
  function Unhighlight(h: string): (string, nat)
    decreases |h|
  {
    if h == [] then ("", 0)
    else if StartsWith(h, 0, "<mark>") then var r := Unhighlight(h[6..]); (r.0, r.1 + 1)
    else if StartsWith(h, 0, "</mark>") then Unhighlight(h[7..])
    else if StartsWith(h, 0, "&amp;") then var r := Unhighlight(h[5..]); ("&" + r.0, r.1)
    else if StartsWith(h, 0, "&lt;") then var r := Unhighlight(h[4..]); ("<" + r.0, r.1)
    else if StartsWith(h, 0, "&gt;") then var r := Unhighlight(h[4..]); (">" + r.0, r.1)
    else var r := Unhighlight(h[1..]); ([h[0]] + r.0, r.1)
  }

  /** A character that opens neither a tag nor an entity is read as itself. */
  lemma PlainThen(c: char, rest: string)
    requires c != '&' && c != '<'
    ensures Unhighlight([c] + rest) == ([c] + Unhighlight(rest).0, Unhighlight(rest).1)
  {
    var h := [c] + rest;
    NotStartsWith(h, 0, "<mark>", 0);
    NotStartsWith(h, 0, "</mark>", 0);
    NotStartsWith(h, 0, "&amp;", 0);
    NotStartsWith(h, 0, "&lt;", 0);
    NotStartsWith(h, 0, "&gt;", 0);
    assert h[1..] == rest;
  }

  lemma AmpThen(rest: string)
    ensures Unhighlight("&amp;" + rest) == ("&" + Unhighlight(rest).0, Unhighlight(rest).1)
  {
    var h := "&amp;" + rest;
    NotStartsWith(h, 0, "<mark>", 0);
    NotStartsWith(h, 0, "</mark>", 0);
    assert h[0..5] == "&amp;";
    assert h[5..] == rest;
  }

  lemma LtThen(rest: string)
    ensures Unhighlight("&lt;" + rest) == ("<" + Unhighlight(rest).0, Unhighlight(rest).1)
  {
    var h := "&lt;" + rest;
    NotStartsWith(h, 0, "<mark>", 0);
    NotStartsWith(h, 0, "</mark>", 0);
    NotStartsWith(h, 0, "&amp;", 1);
    assert h[0..4] == "&lt;";
    assert h[4..] == rest;
  }

  lemma GtThen(rest: string)
    ensures Unhighlight("&gt;" + rest) == (">" + Unhighlight(rest).0, Unhighlight(rest).1)
  {
    var h := "&gt;" + rest;
    NotStartsWith(h, 0, "<mark>", 0);
    NotStartsWith(h, 0, "</mark>", 0);
    NotStartsWith(h, 0, "&amp;", 1);
    NotStartsWith(h, 0, "&lt;", 1);
    assert h[0..4] == "&gt;";
    assert h[4..] == rest;
  }

  lemma EscapeCharThen(c: char, rest: string)
    ensures Unhighlight(EscapeChar(c) + rest) == ([c] + Unhighlight(rest).0, Unhighlight(rest).1)
  {
    if c == '&' {
      AmpThen(rest);
    } else if c == '<' {
      LtThen(rest);
    } else if c == '>' {
      GtThen(rest);
    } else {
      PlainThen(c, rest);
    }
  }

  /** Escaped text is read back as the text itself, whatever follows it. */
  lemma {:induction false} EscapedThen(s: string, rest: string)
    ensures Unhighlight(EscapeEach(s) + rest) == (s + Unhighlight(rest).0, Unhighlight(rest).1)
    decreases |s|
  {
    var u := Unhighlight(rest);
    if s == [] {
      assert EscapeEach(s) + rest == rest;
      assert s + u.0 == u.0;
    } else {
      var more := EscapeEach(s[1..]) + rest;
      assert EscapeEach(s) + rest == EscapeChar(s[0]) + more;
      EscapeCharThen(s[0], more);
      EscapedThen(s[1..], rest);
      ConsText(s, u.0);
    }
  }

  lemma ConsText(s: string, x: string)
    requires s != []
    ensures [s[0]] + (s[1..] + x) == s + x
  {
    assert [s[0]] + s[1..] == s;
  }

  /** Whitespace is read back as itself. */
  lemma {:induction false} SpacesThen(w: string, rest: string)
    requires forall m :: 0 <= m < |w| ==> IsSpace(w[m])
    ensures Unhighlight(w + rest) == (w + Unhighlight(rest).0, Unhighlight(rest).1)
    decreases |w|
  {
    var u := Unhighlight(rest);
    if w == [] {
      assert w + rest == rest;
      assert w + u.0 == u.0;
    } else {
      var more := w[1..] + rest;
      assert w + rest == [w[0]] + more;
      assert IsSpace(w[0]);
      PlainThen(w[0], more);
      SpacesThen(w[1..], rest);
      ConsText(w, u.0);
    }
  }

  lemma CloseThen(rest: string)
    ensures Unhighlight("</mark>" + rest) == Unhighlight(rest)
  {
    var h := "</mark>" + rest;
    NotStartsWith(h, 0, "<mark>", 1);
    assert h[0..7] == "</mark>";
    assert h[7..] == rest;
  }

  /** A marked piece is read back as the piece, and counts one mark. */
  lemma MarkThen(part: string, rest: string)
    ensures Unhighlight("<mark>" + EscapeEach(part) + "</mark>" + rest) ==
      (part + Unhighlight(rest).0, Unhighlight(rest).1 + 1)
  {
    var h := "<mark>" + EscapeEach(part) + "</mark>" + rest;
    var after := EscapeEach(part) + ("</mark>" + rest);
    assert h == "<mark>" + after;
    assert h[0..6] == "<mark>";
    assert h[6..] == after;
    EscapedThen(part, "</mark>" + rest);
    CloseThen(rest);
  }

  // ---------------------------------------------------------------------------------
  // The rendering

  /** `/^\s+$/.test(part)` */
  predicate IsWhitespaceRun(part: string)
  {
    |part| > 0 && forall m :: 0 <= m < |part| ==> IsSpace(part[m])
  }

  /** What the loop pushes for one piece of the split. */
  function Fragment(part: string): string
  {
    if IsWhitespaceRun(part) then part
    else if |TrimOther(part)| > 0 then "<mark>" + EscapeHtml(part) + "</mark>"
    else EscapeHtml(part)
  }

  function Fragments(parts: seq<string>): seq<string>
    decreases |parts|
  {
    if parts == [] then [] else [Fragment(parts[0])] + Fragments(parts[1..])
  }

  /** The fragments of a longer list of pieces extend those of the shorter one. */
  lemma {:induction false} FragmentsSnoc(parts: seq<string>, part: string)
    ensures Fragments(parts + [part]) == Fragments(parts) + [Fragment(part)]
    decreases |parts|
  {
    if parts == [] {
      assert [part][1..] == [];
    } else {
      assert (parts + [part])[1..] == parts[1..] + [part];
      FragmentsSnoc(parts[1..], part);
    }
  }

  /** The rendering of a text: its split with whitespace kept, fragment by fragment, joined. */
  function Rendering(t: string): string
  {
    Join(Fragments(SplitKeep(SpaceRun, t)), "")
  }

  /** `content.slice(0, maxChars)`: a negative bound counts back from the end. */
  function SliceEnd(length: nat, maxChars: int): (e: nat)
    ensures e <= length
    ensures length <= maxChars ==> e == length
    ensures 0 <= maxChars < length ==> e == maxChars
    ensures maxChars < 0 ==> e + -maxChars == length || (e == 0 && length <= -maxChars)
  {
    if maxChars < 0 then (if length + maxChars < 0 then 0 else length + maxChars)
    else if maxChars < length then maxChars
    else length
  }

  function Truncated(content: string, maxChars: int): (r: string)
    ensures |r| <= |content| && r == content[..|r|]
  {
    content[..SliceEnd(|content|, maxChars)]
  }

  /** The default cut-off of the preview. */
  const DefaultMaxChars: int := 40000

  lemma JoinCons(a: string, r: seq<string>)
    ensures Join([a] + r, "") == a + Join(r, "")
  {
    if r == [] {
      assert [a] + r == [a];
    } else {
      assert ([a] + r)[1..] == r;
    }
  }

  /** A fragment is read back as its piece, with one mark when the piece holds a letter or digit. */
  lemma FragmentThen(part: string, rest: string)
    ensures Unhighlight(Fragment(part) + rest) ==
      (part + Unhighlight(rest).0, (if HasLetterOrDigit(part) then 1 else 0) + Unhighlight(rest).1)
  {
    TrimOtherEmptyIff(part);
    EscapeHtmlIsEach(part);
    if IsWhitespaceRun(part) {
      assert !IsLetterOrDigit(part[0]);
      SpacesThen(part, rest);
    } else if |TrimOther(part)| > 0 {
      MarkThen(part, rest);
    } else {
      EscapedThen(part, rest);
    }
  }

  /** Reading back joined fragments gives the joined pieces and the pieces that hold a word. */
  lemma {:induction false} FragmentsReadBack(parts: seq<string>)
    ensures Unhighlight(Join(Fragments(parts), "")) == (Join(parts, ""), CountWithLetterOrDigit(parts))
    decreases |parts|
  {
    if parts == [] {
      assert Join(Fragments(parts), "") == [];
    } else {
      FragmentsReadBack(parts[1..]);
      ReadBackCons(parts);
    }
  }

  /** The reading of the first fragment put in front of the reading of the others. */
  lemma ReadBackCons(parts: seq<string>)
    requires parts != []
    requires Unhighlight(Join(Fragments(parts[1..]), "")) ==
      (Join(parts[1..], ""), CountWithLetterOrDigit(parts[1..]))
    ensures Unhighlight(Join(Fragments(parts), "")) == (Join(parts, ""), CountWithLetterOrDigit(parts))
  {
    var tail := parts[1..];
    var whole := Join(Fragments(parts), "");
    var rest := Join(Fragments(tail), "");
    FragmentsCons(parts);
    FragmentStep(parts[0], rest, whole);
    PairStep(Unhighlight(whole), Unhighlight(rest), parts[0], if HasLetterOrDigit(parts[0]) then 1 else 0,
      Join(tail, ""), CountWithLetterOrDigit(tail), Join(parts, ""), CountWithLetterOrDigit(parts));
  }

  /** A reading in front of another: the texts concatenate and the marks add up. */
  lemma PairStep(u: (string, nat), v: (string, nat), part: string, bit: nat,
                 tailText: string, tailMarks: nat, text: string, marks: nat)
    requires u.0 == part + v.0
    requires u.1 == bit + v.1
    requires v.0 == tailText
    requires v.1 == tailMarks
    requires text == part + tailText
    requires marks == bit + tailMarks
    ensures u == (text, marks)
  {
  }

  /** A fragment read back in front of whatever follows it. */
  lemma FragmentStep(part: string, rest: string, h: string)
    requires h == Fragment(part) + rest
    ensures Unhighlight(h) ==
      (part + Unhighlight(rest).0, (if HasLetterOrDigit(part) then 1 else 0) + Unhighlight(rest).1)
  {
    FragmentThen(part, rest);
  }

  /** Joining fragments, one piece at a time. */
  lemma FragmentsCons(parts: seq<string>)
    requires parts != []
    ensures Join(Fragments(parts), "") == Fragment(parts[0]) + Join(Fragments(parts[1..]), "")
    ensures Join(parts, "") == parts[0] + Join(parts[1..], "")
    ensures CountWithLetterOrDigit(parts) ==
      (if HasLetterOrDigit(parts[0]) then 1 else 0) + CountWithLetterOrDigit(parts[1..])
  {
    var tail := parts[1..];
    JoinCons(Fragment(parts[0]), Fragments(tail));
    assert parts == [parts[0]] + tail;
    JoinCons(parts[0], tail);
  }

  /** `split(/(\s+)/)` loses nothing: its pieces and separators join to the text. */
  lemma {:induction false} SplitKeepJoins(s: string, start: nat, q: nat)
    requires start <= q <= |s|
    ensures Join(SplitKeepFrom(SpaceRun, s, start, q), "") == s[start..]
    decreases |s| - q
  {
    if q < |s| {
      match MatchAt(SpaceRun, s, q)
      case Some(h) =>
        var rest := SplitKeepFrom(SpaceRun, s, h.end, h.end);
        SplitKeepJoins(s, h.end, h.end);
        assert [s[start..q], h.capture] + rest == [s[start..q]] + ([h.capture] + rest);
        JoinCons(s[start..q], [h.capture] + rest);
        JoinCons(h.capture, rest);
        assert s[start..] == s[start..q] + s[q..h.end] + s[h.end..];
      case None =>
        SplitKeepJoins(s, start, q + 1);
    }
  }

  /** The separators kept by the split are whitespace, so they hold no word. */
  lemma {:induction false} SplitKeepCounts(s: string, start: nat, q: nat)
    requires start <= q <= |s|
    ensures CountWithLetterOrDigit(SplitKeepFrom(SpaceRun, s, start, q)) ==
      CountWithLetterOrDigit(SplitFrom(SpaceRun, s, start, q))
    decreases |s| - q
  {
    if q < |s| {
      match MatchAt(SpaceRun, s, q)
      case Some(h) =>
        var keep := SplitKeepFrom(SpaceRun, s, h.end, h.end);
        var plain := SplitFrom(SpaceRun, s, h.end, h.end);
        SplitKeepCounts(s, h.end, h.end);
        assert ([s[start..q], h.capture] + keep)[1..] == [h.capture] + keep;
        assert ([h.capture] + keep)[1..] == keep;
        assert ([s[start..q]] + plain)[1..] == plain;
        assert !HasLetterOrDigit(h.capture) by {
          forall m | 0 <= m < |h.capture| ensures !IsLetterOrDigit(h.capture[m]) {
            assert h.capture[m] == s[q + m];
          }
        }
      case None =>
        SplitKeepCounts(s, start, q + 1);
    }
  }

  /**
    Reading a rendering back gives exactly the text it was made from, and one mark for each
    word that `countWords` counts in that text.
   */
  lemma RenderingReadsBack(t: string)
    ensures Unhighlight(Rendering(t)) == (t, CountWords(t))
  {
    var parts := SplitKeep(SpaceRun, t);
    FragmentsReadBack(parts);
    SplitKeepJoins(t, 0, 0);
    assert t[0..] == t;
    SplitKeepCounts(t, 0, 0);
    CountWordsIsTokensWithLetters(t);
  }

  /** The body of the loop over the pieces: what is pushed for `part`. */
  method RenderPart(part: string) returns (f: string)
    ensures f == Fragment(part)
  {
    if IsWhitespaceRun(part) {
      f := part;
    } else {
      var token := TrimOther(part);
      if |token| > 0 {
        f := "<mark>" + EscapeHtml(part) + "</mark>";
      } else {
        f := EscapeHtml(part);
      }
    }
  }

  /** One more piece, one more fragment. */
  lemma FragmentsPrefix(parts: seq<string>, k: nat)
    requires k < |parts|
    ensures Fragments(parts[..k + 1]) == Fragments(parts[..k]) + [Fragment(parts[k])]
  {
    assert parts[..k + 1] == parts[..k] + [parts[k]];
    FragmentsSnoc(parts[..k], parts[k]);
  }

  /** The loop over the pieces that pushes one fragment each into `out`. */
  method RenderParts(parts: seq<string>) returns (out: seq<string>)
    ensures out == Fragments(parts)
  {
    out := [];
    for k := 0 to |parts|
      invariant out == Fragments(parts[..k])
    {
      var f := RenderPart(parts[k]);
      FragmentsPrefix(parts, k);
      out := out + [f];
    }
    assert parts[..|parts|] == parts;
  }

  /** `buildHighlightedHtml`: the web pipeline, the cut, the split and the loop over its pieces. */
  method BuildHighlightedHtml(raw: string, maxChars: int) returns (html: string)
    ensures html == Rendering(Truncated(Stripped(Web, raw), maxChars))
    ensures Unhighlight(html) ==
      (Truncated(Stripped(Web, raw), maxChars), CountWords(Truncated(Stripped(Web, raw), maxChars)))
  {
    var content := StripMarkup(Web, raw);
    var truncated := content[..SliceEnd(|content|, maxChars)];
    var out := RenderParts(SplitKeep(SpaceRun, truncated));
    html := Join(out, "");
    RenderingReadsBack(truncated);
  }
}
