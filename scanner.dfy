/**
  Hand-written scanners for the fixed regular expressions of the analyzer, and the three
  JavaScript string operations built on them: a global `replace`, a global `match` /
  `matchAll`, and `split` (with and without a capture group).

  Each scanner answers the question the regular-expression engine answers at one position:
  does the pattern match here, where does the match end, and what did its first group
  capture. Where the pattern can backtrack, the scanner tries the alternatives in the
  engine's order, so the match it reports is the one the engine reports.
 */
module Scanner {
  import opened Wrappers
  import opened Chars

  /** Does the literal `lit` occur in `s` at position `i`? */
  predicate StartsWith(s: string, i: nat, lit: string)
  {
    i + |lit| <= |s| && s[i..i + |lit|] == lit
  }

  /** The character classes that the patterns repeat with `*` or `+`. */
  datatype Class =
    | Space          // \s
    | FormatSpace    // [\t\f\v]
    | Letter         // [a-zA-Z]
    | CommandChar    // [a-zA-Z@]
    | WordChar       // \w
    | Terminator     // [.!?]
    | NotBrace       // [^{}]
    | Exactly(c: char)

  predicate In(c: char, k: Class)
  {
    match k
    case Space => IsSpace(c)
    case FormatSpace => IsFormatSpace(c)
    case Letter => IsAsciiLetter(c)
    case CommandChar => IsAsciiLetter(c) || c == '@'
    case WordChar => IsWordChar(c)
    case Terminator => c == '.' || c == '!' || c == '?'
    case NotBrace => c != '{' && c != '}'
    case Exactly(d) => c == d
  }

  /** The end of the longest run of `k` characters starting at `i` (a greedy `k*`). */
  function Skip(s: string, i: nat, k: Class): (j: nat)
    requires i <= |s|
    ensures i <= j <= |s|
    ensures forall m :: i <= m < j ==> In(s[m], k)
    ensures j == |s| || !In(s[j], k)
    decreases |s| - i
  {
    if i < |s| && In(s[i], k) then Skip(s, i + 1, k) else i
  }

  /** The nearest occurrence of `lit` at or after `i` (what a lazy `[\s\S]*?lit` stops at). */
  function Find(s: string, i: nat, lit: string): (r: Option<nat>)
    requires i <= |s|
    ensures r.Some? ==> i <= r.value && StartsWith(s, r.value, lit)
    ensures r.Some? ==> forall m :: i <= m < r.value ==> !StartsWith(s, m, lit)
    ensures r.None? ==> forall m :: i <= m <= |s| ==> !StartsWith(s, m, lit)
    decreases |s| - i
  {
    if StartsWith(s, i, lit) then Some(i)
    else if i == |s| then None
    else Find(s, i + 1, lit)
  }

  /** A successful match: the position just past it, and the text of its first group. */
  datatype Hit = Hit(end: nat, capture: string)

  /** The fixed patterns of the analyzer. Comments give each one's regular expression. */
  datatype Pattern =
    | Literal(text: string)                       // the text itself, e.g. \\begin\{figure\}
    | EquationBegin                               // \\begin\{equation\*?\}
    | BibItem                                     // \\bibitem\b
    | Environment(name: string)                   // \\begin\{NAME\}([\s\S]*?)\\end\{NAME\}
    | DisplayDollar                               // \$\$[\s\S]*?\$\$
    | InlineDollar                                // \$[^\$]*\$
    | DisplayBracket                              // \\\[[\s\S]*?\\\]
    | InlineParen                                 // \\\([\s\S]*?\\\)
    | MetaCommand(command: string, optional: bool) // \\CMD\s*(?:\[[^\]]*\])?\s*\{[^}]*\}
    | CommandDefinition(names: seq<string>)       // \\(?:re)?newcommand\*?\s*\{?\\[^}]+\}?\s*(?:\[[^\]]*\])?\s*\{[\s\S]*?\}
    | Declare                                     // \\Declare[a-zA-Z@]*\*?(?:\[[^\]]*\])?\s*\{[^}]*\}(?:\s*\{[\s\S]*?\})*
    | Ref(names: seq<string>)                     // \\(?:NAME1|NAME2|...)\*?\s*\{[^}]*\}
    | Cite                                        // \\cite\w*\*?\s*(?:\[[^\]]*\])?\s*\{([^}]*)\}
    | Unwrap                                      // \\[a-zA-Z]+\*?\s*(?:\[[^\]]*\])?\s*\{([^{}]*)\}
    | Residual                                    // \\[a-zA-Z@]+\*?(?:\[[^\]]*\])?
    | LineBreak                                   // \r?\n
    | FormatSpaceRun                              // [\t\f\v]+
    | SpaceRun                                    // (\s+)
    | SpaceRun2                                   // \s{2,}
    | AnySpace                                    // \s
    | SentenceBreak                               // [.!?]+\s+
    | ParagraphBreak                              // \n\s*\n
    | CharReplace(c: char, replacement: string)   // a single literal character

  /** The replacement text of a match, as the source's `replace` calls give it. */
  function Substitute(p: Pattern, h: Hit): string
  {
    match p
    case Unwrap => h.capture
    case CharReplace(_, replacement) => replacement
    case AnySpace => ""
    case _ => " "
  }

  // ---------------------------------------------------------------------------------
  // Building blocks shared by several patterns

  /** `\*?`: one optional star. */
  function OptStar(s: string, i: nat): (j: nat)
    requires i <= |s|
    ensures i <= j <= |s|
  {
    if i < |s| && s[i] == '*' then i + 1 else i
  }

  /**
    `(?:\[[^\]]*\])?`: an optional bracket argument, up to the first `]`. When a `[` has no
    closing `]` the group is skipped, which leaves the `[` for the next item to reject.
   */
  function OptBracket(s: string, i: nat): (j: nat)
    requires i <= |s|
    ensures i <= j <= |s|
  {
    if i < |s| && s[i] == '[' then
      match Find(s, i + 1, "]")
      case Some(k) => k + 1
      case None => i
    else i
  }

  /** `\s*(?:\[[^\]]*\])?\s*` */
  function AfterOptional(s: string, i: nat): (j: nat)
    requires i <= |s|
    ensures i <= j <= |s|
  {
    Skip(s, OptBracket(s, Skip(s, i, Space)), Space)
  }

  /** `\{([^}]*)\}`: a brace argument up to the first `}`, whatever it contains. */
  function BraceArg(s: string, i: nat): (r: Option<Hit>)
    requires i <= |s|
    ensures r.Some? ==> i < r.value.end <= |s|
    ensures r.Some? ==> '}' !in r.value.capture
  {
    if i < |s| && s[i] == '{' then
      match Find(s, i + 1, "}")
      case Some(k) =>
        assert forall m :: i + 1 <= m < k ==> s[m] != '}' by {
          forall m | i + 1 <= m < k ensures s[m] != '}' {
            assert !StartsWith(s, m, "}");
          }
        }
        Some(Hit(k + 1, s[i + 1..k]))
      case None => None
    else None
  }

  /** `\{([^{}]*)\}`: a brace argument that holds no brace at all. */
  function FlatBraceArg(s: string, i: nat): (r: Option<Hit>)
    requires i <= |s|
    ensures r.Some? ==> i < r.value.end <= |s|
    ensures r.Some? ==> '{' !in r.value.capture && '}' !in r.value.capture
  {
    if i < |s| && s[i] == '{' then
      var k := Skip(s, i + 1, NotBrace);
      if k < |s| && s[k] == '}' then
        Some(Hit(k + 1, s[i + 1..k]))
      else None
    else None
  }

  // ---------------------------------------------------------------------------------
  // Environments: the name is regular-expression source, spliced in unescaped

  /**
    Matches the environment name `name` as a regular expression at `i`. A name ending in `*`
    (such as `equation*`) means "the stem, then any number of its last letter": the star
    quantifies the letter before it instead of standing for itself.
   */
  function NameEnd(s: string, i: nat, name: string): (r: Option<nat>)
    requires i <= |s|
    ensures r.Some? ==> i <= r.value <= |s|
  {
    if |name| >= 2 && name[|name| - 1] == '*' then
      var stem := name[..|name| - 2];
      if StartsWith(s, i, stem) then Some(Skip(s, i + |stem|, Exactly(name[|name| - 2])))
      else None
    else if StartsWith(s, i, name) then Some(i + |name|)
    else None
  }

  /** `\\KEYWORD\{NAME\}` at `i`, with NAME read as regular-expression source. */
  function TagAt(s: string, i: nat, keyword: string, name: string): (r: Option<nat>)
    requires i <= |s|
    ensures r.Some? ==> i < r.value <= |s|
    ensures r.Some? ==> StartsWith(s, i, "\\" + keyword + "{")
  {
    var open := "\\" + keyword + "{";
    if StartsWith(s, i, open) then
      match NameEnd(s, i + |open|, name)
      case Some(j) => if j < |s| && s[j] == '}' then Some(j + 1) else None
      case None => None
    else None
  }

  /** The nearest closing tag `\\end\{NAME\}` starting at or after `j`: its start and end. */
  function FindEndTag(s: string, j: nat, name: string): (r: Option<(nat, nat)>)
    requires j <= |s|
    ensures r.Some? ==> j <= r.value.0 < r.value.1 <= |s|
    ensures r.Some? ==> TagAt(s, r.value.0, "end", name) == Some(r.value.1)
    ensures r.Some? ==> forall m :: j <= m < r.value.0 ==> TagAt(s, m, "end", name).None?
    ensures r.None? ==> forall m :: j <= m <= |s| ==> TagAt(s, m, "end", name).None?
    decreases |s| - j
  {
    match TagAt(s, j, "end", name)
    case Some(e) => Some((j, e))
    case None => if j == |s| then None else FindEndTag(s, j + 1, name)
  }

  /**
    An environment from `\\begin\{NAME\}` at `i` to the NEAREST following `\\end\{NAME\}`;
    the capture is the text in between.
   */
  function EnvironmentAt(s: string, i: nat, name: string): (r: Option<Hit>)
    requires i <= |s|
    ensures r.Some? ==> i < r.value.end <= |s|
  {
    match TagAt(s, i, "begin", name)
    case Some(b) =>
      (match FindEndTag(s, b, name)
       case Some(e) => Some(Hit(e.1, s[b..e.0]))
       case None => None)
    case None => None
  }

  /** An environment match opens with `\begin{`, and its inner text is shorter than the text. */
  lemma EnvironmentAtShape(s: string, i: nat, name: string)
    requires i <= |s|
    ensures EnvironmentAt(s, i, name).Some? ==> StartsWith(s, i, "\\begin{")
    ensures EnvironmentAt(s, i, name).Some? ==> |EnvironmentAt(s, i, name).value.capture| < |s|
  {
    var t := TagAt(s, i, "begin", name);
    if t.Some? {
      assert "\\" + "begin" + "{" == "\\begin{";
      var f := FindEndTag(s, t.value, name);
      if f.Some? {
        assert EnvironmentAt(s, i, name).value.capture == s[t.value..f.value.0];
      }
    }
  }

  // ---------------------------------------------------------------------------------
  // Delimited math spans

  /** `OPEN[\s\S]*?CLOSE`: up to the nearest `close` after the opening delimiter. */
  function DelimitedAt(s: string, i: nat, open: string, close: string): (r: Option<Hit>)
    requires i <= |s| && |open| > 0 && |close| > 0
    ensures r.Some? ==> i < r.value.end <= |s|
    ensures r.Some? ==> StartsWith(s, i, open)
  {
    if StartsWith(s, i, open) then
      match Find(s, i + |open|, close)
      case Some(j) => Some(Hit(j + |close|, s[i + |open|..j]))
      case None => None
    else None
  }

  // ---------------------------------------------------------------------------------
  // Commands

  /** `\\begin\{equation\*?\}` */
  function EquationBeginAt(s: string, i: nat): (r: Option<Hit>)
    requires i <= |s|
    ensures r.Some? ==> i < r.value.end <= |s|
  {
    if StartsWith(s, i, "\\begin{equation") then
      var k := OptStar(s, i + 15);
      if k < |s| && s[k] == '}' then Some(Hit(k + 1, "")) else None
    else None
  }

  /** `\\bibitem\b`: the word must not go on with a word character. */
  function BibItemAt(s: string, i: nat): (r: Option<Hit>)
    requires i <= |s|
    ensures r.Some? ==> i < r.value.end <= |s|
    ensures r.Some? <==> StartsWith(s, i, "\\bibitem") && (i + 8 == |s| || !IsWordChar(s[i + 8]))
  {
    if StartsWith(s, i, "\\bibitem") && (i + 8 == |s| || !IsWordChar(s[i + 8])) then Some(Hit(i + 8, ""))
    else None
  }

  /** `\\CMD\s*(?:\[[^\]]*\])?\s*\{[^}]*\}`, with the bracket group only when `optional`. */
  function MetaCommandAt(s: string, i: nat, command: string, optional: bool): (r: Option<Hit>)
    requires i <= |s|
    ensures r.Some? ==> i < r.value.end <= |s|
  {
    var open := "\\" + command;
    if StartsWith(s, i, open) then
      var p := if optional then AfterOptional(s, i + |open|) else Skip(s, i + |open|, Space);
      BraceArg(s, p)
    else None
  }

  /** `\s*(?:\[[^\]]*\])?\s*\{[\s\S]*?\}`: the tail of a macro definition. */
  function DefinitionBody(s: string, p: nat): (r: Option<nat>)
    requires p <= |s|
    ensures r.Some? ==> p < r.value <= |s|
  {
    match BraceArg(s, AfterOptional(s, p))
    case Some(h) => Some(h.end)
    case None => None
  }

  /**
    `[^}]+\}?` followed by the definition body, where the `[^}]+` started at `q` and is
    tried ending at `e`, then at `e - 1`, and so on down to `q + 1` (the engine's
    backtracking order); at each end the optional `}` is tried first taken, then not.
   */
  function DefinitionName(s: string, q: nat, e: nat): (r: Option<nat>)
    requires q <= e <= |s|
    ensures r.Some? ==> q < r.value <= |s|
    decreases e
  {
    if e <= q then None
    else
      var withBrace := if e < |s| && s[e] == '}' then DefinitionBody(s, e + 1) else None;
      if withBrace.Some? then withBrace
      else
        var without := DefinitionBody(s, e);
        if without.Some? then without else DefinitionName(s, q, e - 1)
  }

  /** `\*?\s*\{?\\`: where the macro name of a definition starts, if the backslash is there. */
  function NameStart(s: string, p: nat): (r: Option<nat>)
    requires p <= |s|
    ensures r.Some? ==> p < r.value <= |s| && s[r.value - 1] == '\\'
  {
    var a := Skip(s, OptStar(s, p), Space);
    var b := if a < |s| && s[a] == '{' then a + 1 else a;
    if b < |s| && s[b] == '\\' then Some(b + 1) else None
  }

  /** The end of the longest `[^}]+` from `c`: the first `}` at or after it, else the end of the text. */
  function NameLimit(s: string, c: nat): (m: nat)
    requires c <= |s|
    ensures c <= m <= |s|
  {
    match Find(s, c, "}") case Some(k) => k case None => |s|
  }

  /** `\*?\s*\{?\\[^}]+\}?...` after the command word of a macro definition. */
  function DefinitionTail(s: string, p: nat): (r: Option<nat>)
    requires p <= |s|
    ensures r.Some? ==> p < r.value <= |s|
  {
    match NameStart(s, p)
    case Some(c) => DefinitionName(s, c, NameLimit(s, c))
    case None => None
  }

  /** The alternation `\\(?:NAME1|NAME2|...)` followed by a definition tail, tried in order. */
  function DefinitionAt(s: string, i: nat, names: seq<string>): (r: Option<Hit>)
    requires i <= |s|
    ensures r.Some? ==> i < r.value.end <= |s|
    decreases |names|
  {
    if names == [] then None
    else
      var first :=
        if StartsWith(s, i, "\\" + names[0]) then DefinitionTail(s, i + 1 + |names[0]|) else None;
      if first.Some? then Some(Hit(first.value, "")) else DefinitionAt(s, i, names[1..])
  }

  /** `(?:\s*\{[\s\S]*?\})*`: as many further brace groups as follow. */
  function MoreGroups(s: string, p: nat): (r: nat)
    requires p <= |s|
    ensures p <= r <= |s|
    decreases |s| - p
  {
    match BraceArg(s, Skip(s, p, Space))
    case Some(h) => MoreGroups(s, h.end)
    case None => p
  }

  /** `\\Declare[a-zA-Z@]*\*?(?:\[[^\]]*\])?\s*\{[^}]*\}(?:\s*\{[\s\S]*?\})*` */
  function DeclareAt(s: string, i: nat): (r: Option<Hit>)
    requires i <= |s|
    ensures r.Some? ==> i < r.value.end <= |s|
  {
    if StartsWith(s, i, "\\Declare") then
      var k := OptBracket(s, OptStar(s, Skip(s, i + 8, CommandChar)));
      match BraceArg(s, Skip(s, k, Space))
      case Some(h) => Some(Hit(MoreGroups(s, h.end), ""))
      case None => None
    else None
  }

  /** The names `\label`, `\ref`, `\pageref`, `\eqref`, `\autoref`, in the alternation's order. */
  const RefCommands: seq<string> := ["label", "ref", "pageref", "eqref", "autoref"]

  /** `\\(?:label|ref|pageref|eqref|autoref)\*?\s*\{[^}]*\}` */
  const LabelRef: Pattern := Ref(RefCommands)

  /** `\\(?:NAME1|NAME2|...)\*?\s*\{[^}]*\}`, alternatives tried in order. */
  function RefAt(s: string, i: nat, names: seq<string>): (r: Option<Hit>)
    requires i <= |s|
    ensures r.Some? ==> i < r.value.end <= |s|
    decreases |names|
  {
    if names == [] then None
    else
      var first :=
        if StartsWith(s, i, "\\" + names[0]) then
          BraceArg(s, Skip(s, OptStar(s, i + 1 + |names[0]|), Space))
        else None;
      if first.Some? then first else RefAt(s, i, names[1..])
  }

  /** `\\cite\w*\*?\s*(?:\[[^\]]*\])?\s*\{([^}]*)\}`; the capture is the key list. */
  function CiteAt(s: string, i: nat): (r: Option<Hit>)
    requires i <= |s|
    ensures r.Some? ==> i < r.value.end <= |s|
    ensures r.Some? ==> StartsWith(s, i, "\\cite")
  {
    if StartsWith(s, i, "\\cite") then
      BraceArg(s, AfterOptional(s, OptStar(s, Skip(s, i + 5, WordChar))))
    else None
  }

  /** `\\[a-zA-Z]+\*?\s*(?:\[[^\]]*\])?\s*\{([^{}]*)\}`; the capture is the argument. */
  function UnwrapAt(s: string, i: nat): (r: Option<Hit>)
    requires i < |s|
    ensures r.Some? ==> i < r.value.end <= |s|
    ensures r.Some? ==> '{' !in r.value.capture && '}' !in r.value.capture
  {
    if s[i] == '\\' then
      var j := Skip(s, i + 1, Letter);
      if j > i + 1 then FlatBraceArg(s, AfterOptional(s, OptStar(s, j))) else None
    else None
  }

  /** `\\[a-zA-Z@]+\*?(?:\[[^\]]*\])?` */
  function ResidualAt(s: string, i: nat): (r: Option<Hit>)
    requires i < |s|
    ensures r.Some? ==> i < r.value.end <= |s|
    ensures r.Some? <==> s[i] == '\\' && i + 1 < |s| && In(s[i + 1], CommandChar)
  {
    if s[i] == '\\' then
      var j := Skip(s, i + 1, CommandChar);
      if j > i + 1 then Some(Hit(OptBracket(s, OptStar(s, j)), "")) else None
    else None
  }

  // ---------------------------------------------------------------------------------
  // Whitespace and punctuation

  /** The last newline in `s[lo..hi]`. */
  function LastNewline(s: string, lo: nat, hi: nat): (r: Option<nat>)
    requires lo <= hi <= |s|
    ensures r.Some? ==> lo <= r.value < hi && s[r.value] == '\n'
    ensures r.Some? ==> forall m :: r.value < m < hi ==> s[m] != '\n'
    ensures r.None? ==> forall m :: lo <= m < hi ==> s[m] != '\n'
    decreases hi
  {
    if hi == lo then None
    else if s[hi - 1] == '\n' then Some(hi - 1)
    else LastNewline(s, lo, hi - 1)
  }

  /**
    `\n\s*\n`: the greedy `\s*` takes the whole whitespace run and gives characters back
    until a newline follows, so the match ends just past the run's last newline.
   */
  function ParagraphBreakAt(s: string, i: nat): (r: Option<Hit>)
    requires i < |s|
    ensures r.Some? ==> i < r.value.end <= |s|
  {
    if s[i] == '\n' then
      match LastNewline(s, i + 1, Skip(s, i + 1, Space))
      case Some(m) => Some(Hit(m + 1, ""))
      case None => None
    else None
  }

  /** `[.!?]+\s+` */
  function SentenceBreakAt(s: string, i: nat): (r: Option<Hit>)
    requires i < |s|
    ensures r.Some? ==> i < r.value.end <= |s|
  {
    if In(s[i], Terminator) then
      var t := Skip(s, i, Terminator);
      if t < |s| && IsSpace(s[t]) then Some(Hit(Skip(s, t, Space), "")) else None
    else None
  }

  // ---------------------------------------------------------------------------------
  // The dispatcher

  /** Where (and with what capture) the match of `p` that starts at `i` ends, if there is one. */
  function MatchAt(p: Pattern, s: string, i: nat): (r: Option<Hit>)
    requires i < |s|
    ensures r.Some? ==> i < r.value.end <= |s|
  {
    match p
    case Literal(text) =>
      if |text| > 0 && StartsWith(s, i, text) then Some(Hit(i + |text|, "")) else None
    case EquationBegin => EquationBeginAt(s, i)
    case BibItem => BibItemAt(s, i)
    case Environment(name) => EnvironmentAt(s, i, name)
    case DisplayDollar => DelimitedAt(s, i, "$$", "$$")
    // `[^\$]*\$` stops at the first `$`, exactly like a lazy `[\s\S]*?\$`
    case InlineDollar => DelimitedAt(s, i, "$", "$")
    case DisplayBracket => DelimitedAt(s, i, "\\[", "\\]")
    case InlineParen => DelimitedAt(s, i, "\\(", "\\)")
    case MetaCommand(command, optional) => MetaCommandAt(s, i, command, optional)
    case CommandDefinition(names) => DefinitionAt(s, i, names)
    case Declare => DeclareAt(s, i)
    case Ref(names) => RefAt(s, i, names)
    case Cite => CiteAt(s, i)
    case Unwrap => UnwrapAt(s, i)
    case Residual => ResidualAt(s, i)
    case LineBreak =>
      if s[i] == '\r' && i + 1 < |s| && s[i + 1] == '\n' then Some(Hit(i + 2, ""))
      else if s[i] == '\n' then Some(Hit(i + 1, ""))
      else None
    case FormatSpaceRun =>
      if IsFormatSpace(s[i]) then Some(Hit(Skip(s, i, FormatSpace), "")) else None
    case SpaceRun =>
      if IsSpace(s[i]) then var e := Skip(s, i, Space); Some(Hit(e, s[i..e])) else None
    case SpaceRun2 =>
      if IsSpace(s[i]) && i + 1 < |s| && IsSpace(s[i + 1]) then Some(Hit(Skip(s, i, Space), ""))
      else None
    case AnySpace => if IsSpace(s[i]) then Some(Hit(i + 1, "")) else None
    case SentenceBreak => SentenceBreakAt(s, i)
    case ParagraphBreak => ParagraphBreakAt(s, i)
    case CharReplace(c, _) => if s[i] == c then Some(Hit(i + 1, "")) else None
  }

  // ---------------------------------------------------------------------------------
  // The string operations

  /** `s.slice(i).replace(globalPattern, ...)`: left to right, non-overlapping. */
  function ReplaceFrom(p: Pattern, s: string, i: nat): string
    requires i <= |s|
    decreases |s| - i
  {
    if i == |s| then ""
    else
      match MatchAt(p, s, i)
      case Some(h) => Substitute(p, h) + ReplaceFrom(p, s, h.end)
      case None => [s[i]] + ReplaceFrom(p, s, i + 1)
  }

  /** `s.replace(globalPattern, ...)` */
  function Replace(p: Pattern, s: string): string
  {
    ReplaceFrom(p, s, 0)
  }

  /** The matches that a global `match` / `matchAll` finds from position `i` on. */
  function HitsFrom(p: Pattern, s: string, i: nat): seq<Hit>
    requires i <= |s|
    decreases |s| - i
  {
    if i == |s| then []
    else
      match MatchAt(p, s, i)
      case Some(h) => [h] + HitsFrom(p, s, h.end)
      case None => HitsFrom(p, s, i + 1)
  }

  function Hits(p: Pattern, s: string): seq<Hit>
  {
    HitsFrom(p, s, 0)
  }

  /** `s.match(pattern)` without the `g` flag: the leftmost match from `i` on, with its start. */
  function FirstMatch(p: Pattern, s: string, i: nat): (r: Option<(nat, Hit)>)
    requires i <= |s|
    ensures r.Some? ==> i <= r.value.0 < |s| && MatchAt(p, s, r.value.0) == Some(r.value.1)
    ensures r.Some? ==> NoMatchIn(p, s, i, r.value.0)
    ensures r.None? ==> NoMatchFrom(p, s, i)
    decreases |s| - i
  {
    if i == |s| then None
    else
      match MatchAt(p, s, i)
      case Some(h) => Some((i, h))
      case None => FirstMatch(p, s, i + 1)
  }

  /** `(src.match(globalPattern) || []).length` */
  function CountOccurrences(s: string, p: Pattern): nat
  {
    |Hits(p, s)|
  }

  /**
    `s.split(pattern)`: the current piece began at `start`, and the scan has reached `q`
    (every position in between failed to match).
   */
  function SplitFrom(p: Pattern, s: string, start: nat, q: nat): seq<string>
    requires start <= q <= |s|
    decreases |s| - q
  {
    if q == |s| then [s[start..]]
    else
      match MatchAt(p, s, q)
      case Some(h) => [s[start..q]] + SplitFrom(p, s, h.end, h.end)
      case None => SplitFrom(p, s, start, q + 1)
  }

  function Split(p: Pattern, s: string): seq<string>
  {
    SplitFrom(p, s, 0, 0)
  }

  /** `s.split(/(pattern)/)`: like `SplitFrom`, but each separator's capture follows its piece. */
  function SplitKeepFrom(p: Pattern, s: string, start: nat, q: nat): seq<string>
    requires start <= q <= |s|
    decreases |s| - q
  {
    if q == |s| then [s[start..]]
    else
      match MatchAt(p, s, q)
      case Some(h) => [s[start..q], h.capture] + SplitKeepFrom(p, s, h.end, h.end)
      case None => SplitKeepFrom(p, s, start, q + 1)
  }

  function SplitKeep(p: Pattern, s: string): seq<string>
  {
    SplitKeepFrom(p, s, 0, 0)
  }

  /** Apply the global replaces of `ps` one after the other, in order. */
  function ReplaceEach(ps: seq<Pattern>, s: string): string
    decreases |ps|
  {
    if ps == [] then s else Replace(ps[|ps| - 1], ReplaceEach(ps[..|ps| - 1], s))
  }

  // ---------------------------------------------------------------------------------
  // Generic facts

  /** No position from `i` on starts a match. */
  predicate NoMatchFrom(p: Pattern, s: string, i: nat)
  {
    forall m :: i <= m < |s| ==> MatchAt(p, s, m).None?
  }

  /** A global match finds nothing exactly when no position starts a match. */
  lemma {:induction false} HitsEmptyIff(p: Pattern, s: string, i: nat)
    requires i <= |s|
    ensures HitsFrom(p, s, i) == [] <==> NoMatchFrom(p, s, i)
    decreases |s| - i
  {
    if i < |s| {
      var k := i + 1;
      HitsEmptyIff(p, s, k);
      var r := MatchAt(p, s, i);
      if r.Some? {
        HitsAtHit(p, s, i, r.value);
      } else {
        HitsSkipChar(p, s, i);
        NoMatchFromStep(p, s, i, k);
      }
    } else {
      HitsAtEnd(p, s);
    }
  }

  /** A position without a match is passed over by the search for the first match. */
  lemma FirstMatchSkip(p: Pattern, s: string, i: nat, k: nat, j: nat)
    requires i < j <= |s| && k == i + 1 && NoMatchIn(p, s, i, j)
    ensures NoMatchIn(p, s, k, j)
    ensures FirstMatch(p, s, i) == FirstMatch(p, s, k)
  {
    assert MatchAt(p, s, i).None?;
  }

  /** The search for the first match stops at a match. */
  lemma FirstMatchHere(p: Pattern, s: string, j: nat, h: Hit)
    requires j < |s| && MatchAt(p, s, j) == Some(h)
    ensures FirstMatch(p, s, j) == Some((j, h))
  {
  }

  /** No match from `i` on is no match at `i` and none from the next position. */
  lemma NoMatchFromStep(p: Pattern, s: string, i: nat, k: nat)
    requires i < |s| && k == i + 1 && MatchAt(p, s, i).None?
    ensures NoMatchFrom(p, s, i) <==> NoMatchFrom(p, s, k)
  {
    if NoMatchFrom(p, s, k) {
      forall m | i <= m < |s| ensures MatchAt(p, s, m).None? {
        if m != i {
          assert k <= m;
        }
      }
    }
  }

  /** Text in which the pattern finds nothing is left unchanged by the global replace. */
  lemma {:induction false} ReplaceNoMatch(p: Pattern, s: string, i: nat)
    requires i <= |s|
    requires NoMatchFrom(p, s, i)
    ensures ReplaceFrom(p, s, i) == s[i..]
    decreases |s| - i
  {
    if i < |s| {
      ReplaceNoMatch(p, s, i + 1);
      assert s[i..] == [s[i]] + s[i + 1..];
    }
  }

  /** Text in which the pattern finds nothing splits into the one piece from `start`. */
  lemma {:induction false} SplitNoMatch(p: Pattern, s: string, start: nat, q: nat)
    requires start <= q <= |s|
    requires NoMatchFrom(p, s, q)
    ensures SplitFrom(p, s, start, q) == [s[start..]]
    decreases |s| - q
  {
    if q < |s| {
      SplitNoMatch(p, s, start, q + 1);
    }
  }

  /** Every character of every piece satisfies `good` when every character of `s` does. */
  lemma {:induction false} SplitPiecesKeep(p: Pattern, s: string, start: nat, q: nat, good: char -> bool)
    requires start <= q <= |s|
    requires forall m :: 0 <= m < |s| ==> good(s[m])
    ensures forall k, m :: 0 <= k < |SplitFrom(p, s, start, q)| && 0 <= m < |SplitFrom(p, s, start, q)[k]| ==>
      good(SplitFrom(p, s, start, q)[k][m])
    decreases |s| - q
  {
    if q < |s| {
      var r := MatchAt(p, s, q);
      if r.Some? {
        var h := r.value;
        SplitAtHit(p, s, start, q, h);
        SplitPiecesKeep(p, s, h.end, h.end, good);
        SliceKeeps(s, start, q, good);
        PiecesConsKeep(s[start..q], SplitFrom(p, s, h.end, h.end), good);
      } else {
        SplitSkipChar(p, s, start, q);
        SplitPiecesKeep(p, s, start, q + 1, good);
      }
    } else {
      SliceKeeps(s, start, |s|, good);
      PiecesConsKeep(s[start..], [], good);
      assert [s[start..]] + [] == [s[start..]];
    }
  }

  /** A slice of a text whose characters all satisfy `good`. */
  lemma SliceKeeps(s: string, start: nat, q: nat, good: char -> bool)
    requires start <= q <= |s|
    requires forall m :: 0 <= m < |s| ==> good(s[m])
    ensures forall m :: 0 <= m < |s[start..q]| ==> good(s[start..q][m])
  {
    forall m | 0 <= m < |s[start..q]| ensures good(s[start..q][m]) {
      assert s[start..q][m] == s[start + m];
    }
  }

  /** A piece satisfying `good` throughout in front of pieces that do. */
  lemma PiecesConsKeep(x: string, rest: seq<string>, good: char -> bool)
    requires forall m :: 0 <= m < |x| ==> good(x[m])
    requires forall k, m :: 0 <= k < |rest| && 0 <= m < |rest[k]| ==> good(rest[k][m])
    ensures forall k, m :: 0 <= k < |[x] + rest| && 0 <= m < |([x] + rest)[k]| ==> good(([x] + rest)[k][m])
  {
    forall k, m | 0 <= k < |[x] + rest| && 0 <= m < |([x] + rest)[k]| ensures good(([x] + rest)[k][m]) {
      if k > 0 {
        assert ([x] + rest)[k] == rest[k - 1];
      }
    }
  }

  /** The lines of a split at line breaks hold no `\n`: a line ends wherever one stands. */
  lemma {:induction false} LinesWithoutNewline(s: string, start: nat, q: nat)
    requires start <= q <= |s|
    requires forall m :: start <= m < q ==> s[m] != '\n'
    ensures forall k, m :: 0 <= k < |SplitFrom(LineBreak, s, start, q)| && 0 <= m < |SplitFrom(LineBreak, s, start, q)[k]| ==>
      SplitFrom(LineBreak, s, start, q)[k][m] != '\n'
    decreases |s| - q
  {
    if q < |s| {
      var r := MatchAt(LineBreak, s, q);
      if r.Some? {
        var h := r.value;
        SplitAtHit(LineBreak, s, start, q, h);
        LinesWithoutNewline(s, h.end, h.end);
        SliceLacks(s, start, q, '\n');
        PiecesConsLack(s[start..q], SplitFrom(LineBreak, s, h.end, h.end), '\n');
      } else {
        SplitSkipChar(LineBreak, s, start, q);
        LinesWithoutNewline(s, start, q + 1);
      }
    } else {
      SliceLacks(s, start, |s|, '\n');
      PiecesConsLack(s[start..], [], '\n');
      assert [s[start..]] + [] == [s[start..]];
    }
  }

  /** A position past which nothing is found adds no match. */
  lemma HitsSkipChar(p: Pattern, s: string, i: nat)
    requires i < |s| && MatchAt(p, s, i).None?
    ensures HitsFrom(p, s, i) == HitsFrom(p, s, i + 1)
  {
  }

  /** The global match finds nothing past the end. */
  lemma HitsAtEnd(p: Pattern, s: string)
    ensures HitsFrom(p, s, |s|) == []
  {
  }

  /** A match at `q` ends the current piece there; the next piece starts after the match. */
  lemma SplitAtHit(p: Pattern, s: string, start: nat, q: nat, h: Hit)
    requires start <= q < |s| && MatchAt(p, s, q) == Some(h)
    ensures SplitFrom(p, s, start, q) == [s[start..q]] + SplitFrom(p, s, h.end, h.end)
  {
  }

  /** No match at `q`: the current piece goes on. */
  lemma SplitSkipChar(p: Pattern, s: string, start: nat, q: nat)
    requires start <= q < |s| && MatchAt(p, s, q).None?
    ensures SplitFrom(p, s, start, q) == SplitFrom(p, s, start, q + 1)
  {
  }

  /** A slice of positions that do not hold `c` does not hold it. */
  lemma SliceLacks(s: string, start: nat, q: nat, c: char)
    requires start <= q <= |s|
    requires forall m :: start <= m < q ==> s[m] != c
    ensures forall m :: 0 <= m < |s[start..q]| ==> s[start..q][m] != c
  {
    forall m | 0 <= m < |s[start..q]| ensures s[start..q][m] != c {
      assert s[start..q][m] == s[start + m];
    }
  }

  /** A piece without `c` in front of pieces without it. */
  lemma PiecesConsLack(x: string, rest: seq<string>, c: char)
    requires forall m :: 0 <= m < |x| ==> x[m] != c
    requires forall k, m :: 0 <= k < |rest| && 0 <= m < |rest[k]| ==> rest[k][m] != c
    ensures forall k, m :: 0 <= k < |[x] + rest| && 0 <= m < |([x] + rest)[k]| ==> ([x] + rest)[k][m] != c
  {
    forall k, m | 0 <= k < |[x] + rest| && 0 <= m < |([x] + rest)[k]| ensures ([x] + rest)[k][m] != c {
      if k > 0 {
        assert ([x] + rest)[k] == rest[k - 1];
      }
    }
  }

  /** `ReplaceEach` over a concatenation of pass lists runs the first list, then the second. */
  lemma {:induction false} ReplaceEachAppend(a: seq<Pattern>, b: seq<Pattern>, s: string)
    ensures ReplaceEach(a + b, s) == ReplaceEach(b, ReplaceEach(a, s))
    decreases |b|
  {
    if b == [] {
      assert a + b == a;
    } else {
      var b' := b[..|b| - 1];
      assert (a + b)[..|a + b| - 1] == a + b';
      assert (a + b)[|a + b| - 1] == b[|b| - 1];
      ReplaceEachAppend(a, b', s);
    }
  }

  /** A position that starts no match is copied through by the global replace. */
  lemma ReplaceSkipChar(p: Pattern, s: string, i: nat)
    requires i < |s| && MatchAt(p, s, i).None?
    ensures ReplaceFrom(p, s, i) == [s[i]] + ReplaceFrom(p, s, i + 1)
  {
  }

  /** A position that starts a match contributes that match to the global match. */
  lemma HitsAtHit(p: Pattern, s: string, i: nat, h: Hit)
    requires i < |s| && MatchAt(p, s, i) == Some(h)
    ensures HitsFrom(p, s, i) == [h] + HitsFrom(p, s, h.end)
  {
  }

  /** Passes that each leave a text unchanged leave it unchanged together. */
  lemma {:induction false} ReplaceEachUnchanged(ps: seq<Pattern>, s: string)
    requires forall k :: 0 <= k < |ps| ==> Replace(ps[k], s) == s
    ensures ReplaceEach(ps, s) == s
    decreases |ps|
  {
    if ps != [] {
      var front := ps[..|ps| - 1];
      assert forall k :: 0 <= k < |front| ==> front[k] == ps[k];
      ReplaceEachUnchanged(front, s);
    }
  }

  /** The first pass of a list runs before all the others. */
  lemma ReplaceEachFirst(ps: seq<Pattern>, s: string)
    requires |ps| > 0
    ensures ReplaceEach(ps, s) == ReplaceEach(ps[1..], Replace(ps[0], s))
  {
    assert [ps[0]] + ps[1..] == ps;
    assert [ps[0]][..0] == [];
    ReplaceEachAppend([ps[0]], ps[1..], s);
  }

  /** A run of `k` characters from `i` to `j` that stops at `j` is what `Skip` finds. */
  lemma {:induction false} SkipIs(s: string, i: nat, j: nat, k: Class)
    requires i <= j <= |s|
    requires forall m :: i <= m < j ==> In(s[m], k)
    requires j == |s| || !In(s[j], k)
    ensures Skip(s, i, k) == j
    decreases j - i
  {
    if i < j {
      assert In(s[i], k);
      SkipIs(s, i + 1, j, k);
    }
  }

  /** The first occurrence of `lit` at or after `i`, known to be at `j`, is what `Find` finds. */
  lemma {:induction false} FindIs(s: string, i: nat, j: nat, lit: string)
    requires i <= j <= |s|
    requires StartsWith(s, j, lit)
    requires forall m :: i <= m < j ==> !StartsWith(s, m, lit)
    ensures Find(s, i, lit) == Some(j)
    decreases j - i
  {
    if i < j {
      assert !StartsWith(s, i, lit);
      FindIs(s, i + 1, j, lit);
    }
  }

  /** No position in `[i, j)` starts a match. */
  predicate NoMatchIn(p: Pattern, s: string, i: nat, j: nat)
    requires j <= |s|
  {
    forall m :: i <= m < j ==> MatchAt(p, s, m).None?
  }

  /** A stretch in which no position starts a match is copied through unchanged. */
  lemma {:induction false} ReplaceCopies(p: Pattern, s: string, i: nat, j: nat)
    requires i <= j <= |s|
    requires NoMatchIn(p, s, i, j)
    ensures ReplaceFrom(p, s, i) == s[i..j] + ReplaceFrom(p, s, j)
    decreases j - i
  {
    if i < j {
      var k := i + 1;
      ReplaceSkipIn(p, s, i, k, j);
      ReplaceCopies(p, s, k, j);
      CopyCons(s, i, j, ReplaceFrom(p, s, i), ReplaceFrom(p, s, k), ReplaceFrom(p, s, j));
    } else {
      assert s[i..j] == [];
    }
  }

  /** The first position of a stretch without matches is copied. */
  lemma ReplaceSkipIn(p: Pattern, s: string, i: nat, k: nat, j: nat)
    requires i < j <= |s| && k == i + 1 && NoMatchIn(p, s, i, j)
    ensures NoMatchIn(p, s, k, j)
    ensures ReplaceFrom(p, s, i) == [s[i]] + ReplaceFrom(p, s, k)
  {
    ReplaceSkipChar(p, s, i);
  }

  /** One copied character in front of a copied stretch. */
  lemma CopyCons(s: string, i: nat, j: nat, a: string, b: string, c: string)
    requires i < j <= |s|
    requires a == [s[i]] + b && b == s[i + 1..j] + c
    ensures a == s[i..j] + c
  {
    assert s[i..j] == [s[i]] + s[i + 1..j];
  }

  /** An occurrence of `a + b` is an occurrence of `a` followed by one of `b`. */
  lemma StartsWithSplit(s: string, i: nat, a: string, b: string)
    requires StartsWith(s, i, a + b)
    ensures StartsWith(s, i, a) && StartsWith(s, i + |a|, b)
  {
    assert s[i..i + |a|] == (a + b)[..|a|];
    assert s[i + |a|..i + |a| + |b|] == (a + b)[|a|..];
  }

  /** `StartsWithSplit` with the position of the second part given. */
  lemma StartsWithSplitAt(s: string, i: nat, a: string, b: string, k: nat)
    requires StartsWith(s, i, a + b) && k == i + |a|
    ensures StartsWith(s, i, a) && StartsWith(s, k, b)
  {
    StartsWithSplit(s, i, a, b);
  }

  /** The characters of an occurrence of `lit`. */
  lemma StartsWithChars(s: string, i: nat, lit: string)
    requires StartsWith(s, i, lit)
    ensures forall k :: 0 <= k < |lit| ==> s[i + k] == lit[k]
  {
    forall k | 0 <= k < |lit| ensures s[i + k] == lit[k] {
      assert s[i..i + |lit|][k] == s[i + k];
    }
  }

  /** Whether `lit` occurs at a position inside the middle part `y` depends on `y` alone. */
  lemma StartsWithInside(x: string, y: string, z: string, m: nat, lit: string)
    requires m + |lit| <= |y|
    ensures StartsWith(x + y + z, |x| + m, lit) == StartsWith(y, m, lit)
  {
    assert (x + y + z)[|x| + m..|x| + m + |lit|] == y[m..m + |lit|];
  }

  /** A name without a trailing `*` is matched literally. */
  predicate PlainName(name: string)
  {
    !(|name| >= 2 && name[|name| - 1] == '*')
  }

  /** The literal tag `\KEYWORD{NAME}`. */
  function Tag(keyword: string, name: string): string
  {
    "\\" + keyword + "{" + name + "}"
  }

  /** For a plain name, the tag pattern matches exactly where the literal tag occurs. */
  lemma {:induction false} PlainTag(s: string, i: nat, keyword: string, name: string)
    requires i <= |s|
    requires PlainName(name)
    ensures TagAt(s, i, keyword, name).Some? <==> StartsWith(s, i, Tag(keyword, name))
    ensures TagAt(s, i, keyword, name).Some? ==>
      TagAt(s, i, keyword, name).value == i + |Tag(keyword, name)|
  {
    var open := "\\" + keyword + "{";
    assert Tag(keyword, name) == open + name + "}";
    if StartsWith(s, i, Tag(keyword, name)) {
      StartsWithSplit(s, i, open + name, "}");
      StartsWithSplit(s, i, open, name);
    }
    if StartsWith(s, i, open) && StartsWith(s, i + |open|, name) {
      var j := i + |open| + |name|;
      if j < |s| && s[j] == '}' {
        assert s[i..j + 1] == s[i..i + |open|] + s[i + |open|..j] + [s[j]];
      }
    }
  }

  /** The first closing tag at or after `j`, known to start at `k` and end at `e`. */
  lemma {:induction false} FindEndTagIs(s: string, j: nat, k: nat, e: nat, name: string)
    requires j <= k <= |s|
    requires TagAt(s, k, "end", name) == Some(e)
    requires forall m :: j <= m < k ==> TagAt(s, m, "end", name).None?
    ensures FindEndTag(s, j, name) == Some((k, e))
    decreases k - j
  {
    if j < k {
      assert TagAt(s, j, "end", name).None?;
      FindEndTagIs(s, j + 1, k, e, name);
    }
  }

  /** A single-character literal occurs exactly where that character is. */
  lemma StartsWithOne(s: string, m: nat, c: char)
    requires m < |s|
    ensures StartsWith(s, m, [c]) == (s[m] == c)
  {
    assert s[m..m + 1] == [s[m]];
  }

  /** One differing character rules an occurrence out. */
  lemma NotStartsWith(s: string, m: nat, lit: string, k: nat)
    requires k < |lit| && m + k < |s|
    requires s[m + k] != lit[k]
    ensures !StartsWith(s, m, lit)
  {
    if m + |lit| <= |s| {
      assert s[m..m + |lit|][k] == s[m + k];
    }
  }

  /** At a match, the replace emits the substitute and resumes after the match. */
  lemma ReplaceAtHit(p: Pattern, s: string, i: nat, h: Hit)
    requires i < |s| && MatchAt(p, s, i) == Some(h)
    ensures ReplaceFrom(p, s, i) == Substitute(p, h) + ReplaceFrom(p, s, h.end)
  {
  }

  /** The middle part of a concatenation occurs where it was put. */
  lemma StartsWithMiddle(x: string, y: string, z: string)
    ensures StartsWith(x + y + z, |x|, y)
  {
    assert (x + y + z)[|x|..|x| + |y|] == y;
  }

  /** The deletion passes put one space in place of what they match. */
  lemma SubstituteSpace(p: Pattern, h: Hit)
    requires !p.Unwrap? && !p.CharReplace? && !p.AnySpace?
    ensures Substitute(p, h) == " "
  {
  }

  /** A deletion pass puts one space where a match starts and goes on after it. */
  lemma ReplaceAtSpaceHit(p: Pattern, s: string, i: nat, e: nat, capture: string)
    requires !p.Unwrap? && !p.CharReplace? && !p.AnySpace?
    requires i < |s| && MatchAt(p, s, i) == Some(Hit(e, capture))
    ensures ReplaceFrom(p, s, i) == " " + ReplaceFrom(p, s, e)
  {
    ReplaceAtHit(p, s, i, Hit(e, capture));
    SubstituteSpace(p, Hit(e, capture));
  }

  /** A replace whose first match is `h` at `n`: the prefix, the substitute, then the rest. */
  lemma ReplaceFirstHit(p: Pattern, s: string, n: nat, h: Hit)
    requires n < |s| && NoMatchIn(p, s, 0, n) && MatchAt(p, s, n) == Some(h)
    ensures Replace(p, s) == s[..n] + Substitute(p, h) + ReplaceFrom(p, s, h.end)
  {
    ReplaceAtHit(p, s, n, h);
    ReplaceAfterPrefix(p, s, n, h.end, Substitute(p, h));
  }

  /** A match that covers the whole text is the only thing a replace or a global match sees. */
  lemma WholeMatch(p: Pattern, s: string, h: Hit)
    requires 0 < |s| && MatchAt(p, s, 0) == Some(h) && h.end == |s|
    ensures Replace(p, s) == Substitute(p, h)
    ensures Hits(p, s) == [h]
  {
    ReplaceAtHit(p, s, 0, h);
    HitsAtHit(p, s, 0, h);
  }

  /** A replace with a single match, `h` at `n`: the prefix, the substitute, the suffix. */
  lemma ReplaceSingleHit(p: Pattern, s: string, n: nat, h: Hit)
    requires n < |s| && NoMatchIn(p, s, 0, n) && MatchAt(p, s, n) == Some(h)
    requires NoMatchFrom(p, s, h.end)
    ensures Replace(p, s) == s[..n] + Substitute(p, h) + s[h.end..]
  {
    ReplaceFirstHit(p, s, n, h);
    ReplaceNoMatch(p, s, h.end);
  }

  /** A replace that copies a match-free prefix and then emits `sub` up to `j`. */
  lemma ReplaceAfterPrefix(p: Pattern, s: string, i: nat, j: nat, sub: string)
    requires i <= j <= |s|
    requires NoMatchIn(p, s, 0, i)
    requires ReplaceFrom(p, s, i) == sub + ReplaceFrom(p, s, j)
    ensures Replace(p, s) == s[..i] + sub + ReplaceFrom(p, s, j)
  {
    ReplaceCopies(p, s, 0, i);
    assert s[0..i] == s[..i];
    ConcatStep(ReplaceFrom(p, s, 0), s[..i], ReplaceFrom(p, s, i), sub, ReplaceFrom(p, s, j));
  }

  /** Putting a known output in front of a known output. */
  lemma ConcatStep(whole: string, prefix: string, tail: string, sub: string, rest: string)
    requires whole == prefix + tail && tail == sub + rest
    ensures whole == prefix + sub + rest
  {
  }

  // ---------------------------------------------------------------------------------
  // Where markup matches can start

  /** The patterns of the rewrite passes: each one matches only at a `\\` or a `$`. */
  predicate MarkupPattern(p: Pattern)
  {
    p.Environment? || p.DisplayDollar? || p.InlineDollar? || p.DisplayBracket? || p.InlineParen?
    || p.MetaCommand? || p.CommandDefinition? || p.Declare? || p.Ref? || p.Cite? || p.Unwrap?
    || p.Residual?
  }

  lemma StartsWithHead(s: string, i: nat, lit: string)
    requires StartsWith(s, i, lit) && |lit| > 0
    ensures i < |s| && s[i] == lit[0]
  {
    assert s[i..i + |lit|][0] == s[i];
  }

  lemma {:induction false} DefinitionAtOpens(s: string, i: nat, names: seq<string>)
    requires i <= |s| && DefinitionAt(s, i, names).Some?
    ensures i < |s| && s[i] == '\\'
    decreases |names|
  {
    if StartsWith(s, i, "\\" + names[0]) {
      StartsWithHead(s, i, "\\" + names[0]);
    } else {
      DefinitionAtOpens(s, i, names[1..]);
    }
  }

  /** A reference command matches only where one of its names follows the backslash. */
  lemma {:induction false} RefAtOpens(s: string, i: nat, names: seq<string>) returns (k: nat)
    requires i <= |s| && RefAt(s, i, names).Some?
    ensures k < |names| && StartsWith(s, i, "\\" + names[k])
    decreases |names|
  {
    if StartsWith(s, i, "\\" + names[0]) && BraceArg(s, Skip(s, OptStar(s, i + 1 + |names[0]|), Space)).Some? {
      k := 0;
    } else {
      var j := RefAtOpens(s, i, names[1..]);
      k := j + 1;
    }
  }

  /** Every match of a rewrite pattern starts at a backslash or a dollar sign. */
  lemma MarkerNeeded(p: Pattern, s: string, i: nat)
    requires MarkupPattern(p) && i < |s| && MatchAt(p, s, i).Some?
    ensures s[i] == '\\' || s[i] == '$'
  {
    match p
    case Environment(name) => EnvironmentAtShape(s, i, name); StartsWithHead(s, i, "\\begin{");
    case DisplayDollar => StartsWithHead(s, i, "$$");
    case InlineDollar => StartsWithHead(s, i, "$");
    case DisplayBracket => StartsWithHead(s, i, "\\[");
    case InlineParen => StartsWithHead(s, i, "\\(");
    case MetaCommand(command, _) => StartsWithHead(s, i, "\\" + command);
    case CommandDefinition(names) => DefinitionAtOpens(s, i, names);
    case Declare => StartsWithHead(s, i, "\\Declare");
    case Ref(names) => var k := RefAtOpens(s, i, names); StartsWithHead(s, i, "\\" + names[k]);
    case Cite => StartsWithHead(s, i, "\\cite");
    case Unwrap =>
    case Residual =>
  }

  /** Text without a backslash or a dollar sign passes through every rewrite pattern unchanged. */
  lemma NoMarkerUnchanged(p: Pattern, s: string)
    requires MarkupPattern(p)
    requires '\\' !in s && '$' !in s
    ensures Replace(p, s) == s
  {
    forall m | 0 <= m < |s| ensures MatchAt(p, s, m).None? {
      if MatchAt(p, s, m).Some? {
        MarkerNeeded(p, s, m);
      }
    }
    ReplaceNoMatch(p, s, 0);
    assert s[0..] == s;
  }

  /** A whole sequence of rewrite passes leaves such text unchanged too. */
  lemma NoMarkerPassesUnchanged(ps: seq<Pattern>, s: string)
    requires forall k :: 0 <= k < |ps| ==> MarkupPattern(ps[k])
    requires '\\' !in s && '$' !in s
    ensures ReplaceEach(ps, s) == s
  {
    forall k | 0 <= k < |ps| ensures Replace(ps[k], s) == s {
      NoMarkerUnchanged(ps[k], s);
    }
    ReplaceEachUnchanged(ps, s);
  }
}
