/**
  The rewrite passes that turn LaTeX source into countable prose. Every pass is one global,
  left-to-right, non-overlapping replace, or a fixed sequence of them:
  excluded environments, math, preamble and metadata commands, references and citations,
  the unwrapping of one-argument commands, and the deletion of whatever commands remain.
 */
module Passes {
  import opened Wrappers
  import opened Chars
  import opened Scanner

  /** The environments whose whole span is dropped, in the order the passes run. */
  const EnvironmentsToExclude: seq<string> := [
    "figure", "table", "tabular", "tikzpicture", "lstlisting", "verbatim", "minted",
    "equation", "equation*", "align", "align*", "gather", "gather*", "displaymath", "math",
    "eqnarray"
  ]

  /** `removeEnvironment(content, env)` */
  function RemoveEnvironment(content: string, env: string): string
  {
    Replace(Environment(env), content)
  }

  /** One environment pass per name, in list order. */
  function EnvironmentPasses(names: seq<string>): (ps: seq<Pattern>)
    ensures |ps| == |names|
    ensures forall k :: 0 <= k < |names| ==> ps[k] == Environment(names[k])
  {
    seq(|names|, k requires 0 <= k < |names| => Environment(names[k]))
  }

  /** `$$...$$` first, then `$...$`, then `\[...\]`, then `\(...\)`. */
  const MathPasses: seq<Pattern> := [DisplayDollar, InlineDollar, DisplayBracket, InlineParen]

  /** `removeMath` */
  function RemoveMath(content: string): string
  {
    ReplaceEach(MathPasses, content)
  }

  /** The metadata commands removed with their argument, in the order of the source's list. */
  const MetaRemoveList: seq<Pattern> := [
    MetaCommand("documentclass", true), MetaCommand("usepackage", true),
    MetaCommand("bibliography", false), MetaCommand("bibliographystyle", false),
    MetaCommand("title", false), MetaCommand("author", false), MetaCommand("date", false),
    MetaCommand("affil", false), MetaCommand("hypersetup", false),
    MetaCommand("graphicspath", false)
  ]

  /** The macro definitions removed after the metadata commands. */
  const DefinitionPasses: seq<Pattern> := [
    CommandDefinition(["renewcommand", "newcommand"]), CommandDefinition(["providecommand"]),
    Declare
  ]

  /** One run of `removePreambleAndMetaCommands`, as a list of passes. */
  const PreambleRound: seq<Pattern> := MetaRemoveList + DefinitionPasses

  /** `removePreambleAndMetaCommands`: the loop over the remove list, then the definitions. */
  method RemovePreambleAndMetaCommands(content: string) returns (out: string)
    ensures out == ReplaceEach(PreambleRound, content)
  {
    out := content;
    for k := 0 to |MetaRemoveList|
      invariant out == ReplaceEach(MetaRemoveList[..k], content)
    {
      assert MetaRemoveList[..k + 1][..k] == MetaRemoveList[..k];
      out := Replace(MetaRemoveList[k], out);
    }
    assert MetaRemoveList[..|MetaRemoveList|] == MetaRemoveList;
    var middle := out;
    out := Replace(CommandDefinition(["renewcommand", "newcommand"]), out);
    out := Replace(CommandDefinition(["providecommand"]), out);
    out := Replace(Declare, out);
    var d := DefinitionPasses;
    calc {
      ReplaceEach(d, middle);
      Replace(d[2], ReplaceEach(d[..2], middle));
      { assert d[..2][..1] == d[..1]; assert d[..2][1] == d[1]; }
      Replace(d[2], Replace(d[1], ReplaceEach(d[..1], middle)));
      { assert d[..1][..0] == []; assert d[..1][0] == d[0]; }
      Replace(d[2], Replace(d[1], Replace(d[0], middle)));
    }
    ReplaceEachAppend(MetaRemoveList, DefinitionPasses, content);
  }

  /** Reference commands, then citations: each is replaced by a space. */
  const ReferencePasses: seq<Pattern> := [LabelRef, Cite]

  /** `keepArgumentTextWhereApplicable` */
  function KeepArgumentText(content: string): string
  {
    Replace(Unwrap, content)
  }

  /** `removeRemainingCommands` */
  function RemoveRemainingCommands(content: string): string
  {
    Replace(Residual, content)
  }

  // ---------------------------------------------------------------------------------
  // Environments

  /** `\\begin{ENV}BODY\\end{ENV}` */
  function EnvironmentText(env: string, body: string): string
  {
    Tag("begin", env) + body + Tag("end", env)
  }

  /** Text without any `\\begin{` is left as it is by every environment pass. */
  lemma RemoveEnvironmentNoBegin(content: string, env: string)
    requires forall m :: 0 <= m < |content| ==> !StartsWith(content, m, "\\begin{")
    ensures RemoveEnvironment(content, env) == content
  {
    forall m | 0 <= m < |content| ensures MatchAt(Environment(env), content, m).None? {
      EnvironmentAtShape(content, m, env);
    }
    ReplaceNoMatch(Environment(env), content, 0);
    assert content[0..] == content;
  }

  /** The environment pattern, given where its opening tag ends and its closing tag starts. */
  lemma EnvironmentAtIs(s: string, i: nat, env: string, b: nat, k: nat, e: nat)
    requires PlainName(env)
    requires StartsWith(s, i, Tag("begin", env)) && b == i + |Tag("begin", env)| && b <= k
    requires StartsWith(s, k, Tag("end", env)) && e == k + |Tag("end", env)|
    requires forall m :: b <= m < k ==> !StartsWith(s, m, Tag("end", env))
    ensures EnvironmentAt(s, i, env) == Some(Hit(e, s[b..k]))
  {
    PlainTag(s, i, "begin", env);
    PlainTag(s, k, "end", env);
    forall m | b <= m < k ensures TagAt(s, m, "end", env).None? {
      PlainTag(s, m, "end", env);
    }
    FindEndTagIs(s, b, k, e, env);
  }

  /** Which positions of `EnvironmentText(env, body)` start its closing tag. */
  predicate CloseOnlyAtEnd(env: string, body: string)
  {
    forall m :: 0 <= m < |body| ==> !StartsWith(body + Tag("end", env), m, Tag("end", env))
  }

  /** The dispatcher's environment case. */
  lemma MatchEnvironment(s: string, i: nat, env: string)
    requires i < |s|
    ensures MatchAt(Environment(env), s, i) == EnvironmentAt(s, i, env)
  {
  }

  /** The environment pattern matches a whole environment whose body holds no closing tag. */
  lemma EnvironmentMatch(s: string, i: nat, env: string, body: string, e: nat)
    requires PlainName(env)
    requires CloseOnlyAtEnd(env, body)
    requires StartsWith(s, i, EnvironmentText(env, body)) && e == i + |EnvironmentText(env, body)|
    ensures EnvironmentAt(s, i, env) == Some(Hit(e, body))
  {
    var open, close := Tag("begin", env), Tag("end", env);
    StartsWithSplit(s, i, open + body, close);
    StartsWithSplit(s, i, open, body);
    var b := i + |open|;
    var k := b + |body|;
    StartsWithSplit(s, b, body, close);
    NoCloseInBody(s, b, env, body);
    assert s[b..k] == body;
    EnvironmentAtIs(s, i, env, b, k, e);
  }

  /** An occurrence of `body + closing tag` has no closing tag inside the body. */
  lemma NoCloseInBody(s: string, b: nat, env: string, body: string)
    requires CloseOnlyAtEnd(env, body)
    requires StartsWith(s, b, body + Tag("end", env))
    ensures forall m :: b <= m < b + |body| ==> !StartsWith(s, m, Tag("end", env))
  {
    var close := Tag("end", env);
    var k := b + |body|;
    var x, y, z := s[..b], body + close, s[k + |close|..];
    assert s == x + y + z by {
      assert s == s[..b] + s[b..k + |close|] + s[k + |close|..];
    }
    forall m | b <= m < k ensures !StartsWith(s, m, close) {
      StartsWithInside(x, y, z, m - b, close);
    }
  }

  /**
    An environment is replaced by one space, from its `\\begin{ENV}` to the NEAREST
    `\\end{ENV}`: the body may hold anything except that closing tag, and the scan goes on
    right after the closing tag.
   */
  lemma RemoveEnvironmentAt(s: string, i: nat, env: string, body: string, e: nat)
    requires PlainName(env)
    requires CloseOnlyAtEnd(env, body)
    requires StartsWith(s, i, EnvironmentText(env, body)) && e == i + |EnvironmentText(env, body)|
    ensures ReplaceFrom(Environment(env), s, i) == " " + ReplaceFrom(Environment(env), s, e)
  {
    EnvironmentHit(s, i, env, body, e);
    ReplaceAtSpaceHit(Environment(env), s, i, e, body);
  }

  /** The environment pattern's match at the start of a whole environment. */
  lemma EnvironmentHit(s: string, i: nat, env: string, body: string, e: nat)
    requires PlainName(env)
    requires CloseOnlyAtEnd(env, body)
    requires StartsWith(s, i, EnvironmentText(env, body)) && e == i + |EnvironmentText(env, body)|
    ensures i < |s| && MatchAt(Environment(env), s, i) == Some(Hit(e, body))
  {
    EnvironmentMatch(s, i, env, body, e);
    MatchEnvironment(s, i, env);
  }

  /** No environment match starts at a position that does not hold a backslash. */
  lemma NoEnvironmentWithoutBackslash(s: string, m: nat, env: string)
    requires m < |s| && s[m] != '\\'
    ensures MatchAt(Environment(env), s, m).None?
  {
    NotStartsWith(s, m, "\\begin{", 0);
    NoEnvironmentUnlessBegin(s, m, env);
  }

  /** An environment match needs `\\begin{` where it starts. */
  lemma NoEnvironmentUnlessBegin(s: string, m: nat, env: string)
    requires m < |s| && !StartsWith(s, m, "\\begin{")
    ensures MatchAt(Environment(env), s, m).None?
  {
    EnvironmentAtShape(s, m, env);
    MatchEnvironment(s, m, env);
  }

  /** An environment between two backslash-free texts becomes one space; the texts stay. */
  lemma RemoveEnvironmentSpan(pre: string, body: string, post: string, env: string)
    requires PlainName(env)
    requires '\\' !in pre && '\\' !in post
    requires CloseOnlyAtEnd(env, body)
    ensures RemoveEnvironment(pre + EnvironmentText(env, body) + post, env) == pre + " " + post
  {
    var t := EnvironmentText(env, body);
    var s := pre + t + post;
    var n, e := |pre|, |pre| + |t|;
    StartsWithMiddle(pre, t, post);
    assert s[..n] == pre;
    assert s[e..] == post;
    NoEnvironmentInPrefix(s, n, env);
    NoEnvironmentInSuffix(s, e, env);
    EnvironmentHit(s, n, env, body, e);
    var h := Hit(e, body);
    ReplaceSingleHit(Environment(env), s, n, h);
    SubstituteSpace(Environment(env), h);
  }

  /** No environment starts in a suffix free of backslashes. */
  lemma NoEnvironmentInSuffix(s: string, e: nat, env: string)
    requires e <= |s| && '\\' !in s[e..]
    ensures NoMatchFrom(Environment(env), s, e)
  {
    forall m | e <= m < |s| ensures MatchAt(Environment(env), s, m).None? {
      assert s[m] == s[e..][m - e];
      NoEnvironmentWithoutBackslash(s, m, env);
    }
  }

  /** No environment starts in a prefix free of backslashes. */
  lemma NoEnvironmentInPrefix(s: string, n: nat, env: string)
    requires n <= |s| && '\\' !in s[..n]
    ensures NoMatchIn(Environment(env), s, 0, n)
  {
    forall m | 0 <= m < n ensures MatchAt(Environment(env), s, m).None? {
      assert s[m] == s[..n][m];
      NoEnvironmentWithoutBackslash(s, m, env);
    }
  }

  /**
    Environments of the same name are not balanced: in `\\begin{E} a \\begin{E} b \\end{E}
    c \\end{E}` the match stops at the first `\\end{E}`, and the text `c \\end{E}` stays.
   */
  lemma NestedNotBalanced(a: string, b: string, c: string, env: string)
    requires PlainName(env)
    requires '\\' !in a && '\\' !in b && '\\' !in c && '\\' !in env
    ensures RemoveEnvironment(EnvironmentText(env, a + Tag("begin", env) + b) + c + Tag("end", env), env)
      == " " + c + Tag("end", env)
  {
    var body := a + Tag("begin", env) + b;
    var text := EnvironmentText(env, body);
    var tail := c + Tag("end", env);
    NestedCloseOnlyAtEnd(a, b, env);
    var s := text + tail;
    assert s == text + c + Tag("end", env);
    assert StartsWith(s, 0, text) && s[|text|..] == tail by {
      assert s[..|text|] == text;
    }
    TailWithoutEnvironment(s, |text|, c, env);
    RemoveLeadingEnvironment(s, env, body, tail);
  }

  /** In `a \\begin{E} b`, with no other backslash, no `\\end{E}` starts before the end. */
  lemma NestedCloseOnlyAtEnd(a: string, b: string, env: string)
    requires '\\' !in a && '\\' !in b && '\\' !in env
    ensures CloseOnlyAtEnd(env, a + Tag("begin", env) + b)
  {
    var open, close := Tag("begin", env), Tag("end", env);
    TagShape("begin", env);
    TagShape("end", env);
    var body := a + open + b;
    var t := a + open + (b + close);
    assert body + close == t;
    forall m | 0 <= m < |body| ensures !StartsWith(t, m, close) {
      if m < |a| {
        assert t[m] == a[m];
        NotStartsWith(t, m, close, 0);
      } else if m == |a| {
        assert t[m + 1] == open[1];
        NotStartsWith(t, m, close, 1);
      } else if m < |a| + |open| {
        assert t[m] == open[m - |a|];
        NotStartsWith(t, m, close, 0);
      } else {
        assert t[m] == b[m - |a| - |open|];
        NotStartsWith(t, m, close, 0);
      }
    }
  }

  /** After `k`, a backslash-free `c` and one closing tag: no environment starts there. */
  lemma TailWithoutEnvironment(s: string, k: nat, c: string, env: string)
    requires k <= |s| && s[k..] == c + Tag("end", env)
    requires '\\' !in c && '\\' !in env
    ensures NoMatchFrom(Environment(env), s, k)
  {
    var close := Tag("end", env);
    TagShape("end", env);
    forall m | k <= m < |s| ensures MatchAt(Environment(env), s, m).None? {
      assert s[m] == s[k..][m - k];
      if m < k + |c| {
        assert s[m] == c[m - k];
        NoEnvironmentWithoutBackslash(s, m, env);
      } else if m == k + |c| {
        assert s[m + 1] == s[k..][m + 1 - k];
        assert s[m + 1] == close[1];
        NoEnvironmentAtOtherTag(s, m, env);
      } else {
        assert s[m] == close[m - k - |c|];
        NoEnvironmentWithoutBackslash(s, m, env);
      }
    }
  }

  /** A text that opens with a whole environment and has no other one after it. */
  lemma RemoveLeadingEnvironment(s: string, env: string, body: string, tail: string)
    requires PlainName(env)
    requires CloseOnlyAtEnd(env, body)
    requires StartsWith(s, 0, EnvironmentText(env, body))
    requires s[|EnvironmentText(env, body)|..] == tail
    requires NoMatchFrom(Environment(env), s, |EnvironmentText(env, body)|)
    ensures RemoveEnvironment(s, env) == " " + tail
  {
    var k := |EnvironmentText(env, body)|;
    RemoveEnvironmentAt(s, 0, env, body, k);
    ReplaceNoMatch(Environment(env), s, k);
  }

  /** The shape of a tag: one backslash, at its start. */
  lemma TagShape(keyword: string, name: string)
    requires '\\' !in keyword && '\\' !in name
    ensures Tag(keyword, name)[0] == '\\'
    ensures |keyword| > 0 ==> Tag(keyword, name)[1] == keyword[0]
    ensures forall q :: 1 <= q < |Tag(keyword, name)| ==> Tag(keyword, name)[q] != '\\'
  {
    var rest := keyword + "{" + name + "}";
    assert Tag(keyword, name) == "\\" + rest;
    forall q | 1 <= q < |Tag(keyword, name)| ensures Tag(keyword, name)[q] != '\\' {
      assert Tag(keyword, name)[q] == rest[q - 1];
    }
  }

  /** No environment starts at a backslash that is not followed by `b`. */
  lemma NoEnvironmentAtOtherTag(s: string, m: nat, env: string)
    requires m + 1 < |s| && s[m + 1] != 'b'
    ensures MatchAt(Environment(env), s, m).None?
  {
    NotStartsWith(s, m, "\\begin{", 1);
    NoEnvironmentUnlessBegin(s, m, env);
  }

  /**
    The name `equation*` is spliced into the pattern as regular-expression source, so the
    star repeats the `n`: a literal `\\begin{equation*}` is matched neither by the
    `equation*` pass nor by the `equation` pass.
   */
  lemma StarredTagNotMatched(s: string, i: nat)
    requires StartsWith(s, i, "\\begin{equation*}")
    ensures MatchAt(Environment("equation*"), s, i).None?
    ensures MatchAt(Environment("equation"), s, i).None?
  {
    StarredTagNoTag(s, i);
    MatchEnvironment(s, i, "equation*");
    MatchEnvironment(s, i, "equation");
  }

  /** The pieces of a literal `\\begin{equation*}`. */
  lemma StarredTagPieces(s: string, i: nat)
    requires StartsWith(s, i, "\\begin{equation*}")
    ensures StartsWith(s, i, "\\begin{") && StartsWith(s, i + 7, "equatio")
    ensures StartsWith(s, i + 7, "equation")
    ensures i + 16 < |s| && s[i + 14] == 'n' && s[i + 15] == '*'
  {
    assert "\\begin{equation*}" == "\\begin{" + "equatio" + "n*}";
    StartsWithSplit(s, i, "\\begin{" + "equatio", "n*}");
    StartsWithSplit(s, i, "\\begin{", "equatio");
    StartsWithChars(s, i + 14, "n*}");
    assert "\\begin{equation*}" == "\\begin{" + "equation" + "*}";
    StartsWithSplit(s, i, "\\begin{" + "equation", "*}");
  }

  /** Neither tag pattern gets past the `*` of a literal `\\begin{equation*}`. */
  lemma StarredTagNoTag(s: string, i: nat)
    requires StartsWith(s, i, "\\begin{equation*}")
    ensures TagAt(s, i, "begin", "equation*").None?
    ensures TagAt(s, i, "begin", "equation").None?
  {
    StarredTagPieces(s, i);
    StarredNameEnds(s, i);
  }

  lemma StarredNameEnds(s: string, i: nat)
    requires i + 16 < |s| && s[i + 14] == 'n' && s[i + 15] == '*'
    requires StartsWith(s, i + 7, "equatio") && StartsWith(s, i + 7, "equation")
    ensures NameEnd(s, i + 7, "equation*") == Some(i + 15)
    ensures NameEnd(s, i + 7, "equation") == Some(i + 15)
  {
    SkipIs(s, i + 14, i + 15, Exactly('n'));
    assert "equation*"[..|"equation*"| - 2] == "equatio";
  }

  /** ... while the `equation*` pattern does match the unstarred opening tag. */
  lemma StarredPatternMatchesUnstarred(s: string, i: nat)
    requires StartsWith(s, i, "\\begin{equation}")
    ensures TagAt(s, i, "begin", "equation*") == Some(i + 16)
  {
    assert "\\begin{equation}" == "\\begin{" + "equatio" + "n}";
    StartsWithSplit(s, i, "\\begin{" + "equatio", "n}");
    StartsWithSplit(s, i, "\\begin{", "equatio");
    StartsWithChars(s, i + 14, "n}");
    SkipIs(s, i + 14, i + 15, Exactly('n'));
    assert "equation*"[..|"equation*"| - 2] == "equatio";
  }

  // ---------------------------------------------------------------------------------
  // Building blocks of commands

  /** An optional bracket argument `[...]` as written in the source text. */
  function Optional(opt: Option<string>): string
  {
    match opt
    case None => ""
    case Some(o) => "[" + o + "]"
  }

  /** A bracket argument the pattern `\[[^\]]*\]` can read: it holds no `]`. */
  predicate OptionalOk(opt: Option<string>)
  {
    opt.Some? ==> ']' !in opt.value
  }

  /** A command name that `[a-zA-Z]+` reads completely. */
  predicate IsCommandName(name: string)
  {
    |name| > 0 && forall k :: 0 <= k < |name| ==> IsAsciiLetter(name[k])
  }

  /** `\{[^}]*\}` reads a brace argument that holds no `}`, and captures it. */
  lemma BraceArgIs(s: string, b: nat, arg: string)
    requires '}' !in arg
    requires StartsWith(s, b, "{" + arg + "}")
    ensures BraceArg(s, b) == Some(Hit(b + |arg| + 2, arg))
  {
    StartsWithSplit(s, b, "{" + arg, "}");
    StartsWithSplit(s, b, "{", arg);
    StartsWithChars(s, b, "{");
    StartsWithChars(s, b + 1, arg);
    var e := b + 1 + |arg|;
    forall m | b + 1 <= m < e ensures !StartsWith(s, m, "}") {
      assert s[m] == arg[m - b - 1];
      StartsWithOne(s, m, '}');
    }
    FindIs(s, b + 1, e, "}");
  }

  /** `\{([^{}]*)\}` reads a brace argument that holds no brace, and captures it. */
  lemma FlatBraceArgIs(s: string, b: nat, text: string)
    requires '{' !in text && '}' !in text
    requires StartsWith(s, b, "{" + text + "}")
    ensures FlatBraceArg(s, b) == Some(Hit(b + |text| + 2, text))
  {
    StartsWithSplit(s, b, "{" + text, "}");
    StartsWithSplit(s, b, "{", text);
    StartsWithChars(s, b, "{");
    StartsWithChars(s, b + 1, text);
    StartsWithChars(s, b + 1 + |text|, "}");
    SkipIs(s, b + 1, b + 1 + |text|, NotBrace);
  }

  /** `\s*(?:\[[^\]]*\])?\s*` reads exactly the optional argument when a `{` follows it. */
  lemma AfterOptionalIs(s: string, j: nat, opt: Option<string>)
    requires OptionalOk(opt)
    requires StartsWith(s, j, Optional(opt))
    requires j + |Optional(opt)| < |s| && s[j + |Optional(opt)|] == '{'
    ensures AfterOptional(s, j) == j + |Optional(opt)|
  {
    AfterOptionalAt(s, j, opt, j + |Optional(opt)|);
  }

  lemma AfterOptionalAt(s: string, j: nat, opt: Option<string>, e: nat)
    requires OptionalOk(opt)
    requires StartsWith(s, j, Optional(opt))
    requires e == j + |Optional(opt)|
    requires e < |s| && s[e] == '{'
    ensures AfterOptional(s, j) == e
  {
    match opt
    case None =>
      SkipIs(s, j, j, Space);
      SkipIs(s, e, e, Space);
    case Some(v) =>
      BracketArgFound(s, j, v, e - 1);
      SkipIs(s, j, j, Space);
      assert OptBracket(s, j) == e;
      SkipIs(s, e, e, Space);
  }

  /** `\[[^\]]*\]` at `j` closes at the `]` just past the argument. */
  lemma BracketArgFound(s: string, j: nat, v: string, k: nat)
    requires ']' !in v
    requires StartsWith(s, j, "[" + v + "]")
    requires k == j + 1 + |v|
    ensures k < |s| && s[j] == '[' && Find(s, j + 1, "]") == Some(k)
  {
    StartsWithSplit(s, j, "[" + v, "]");
    StartsWithSplit(s, j, "[", v);
    StartsWithChars(s, j, "[");
    StartsWithChars(s, j + 1, v);
    forall m | j + 1 <= m < k ensures !StartsWith(s, m, "]") {
      assert s[m] == v[m - j - 1];
      StartsWithOne(s, m, ']');
    }
    FindIs(s, j + 1, k, "]");
  }

  // ---------------------------------------------------------------------------------
  // Unwrapping

  /** `\NAME[OPT]{TEXT}` */
  function CommandCall(name: string, opt: Option<string>, text: string): string
  {
    "\\" + name + Optional(opt) + ("{" + text + "}")
  }

  /** Where `\NAME[OPT]{TEXT}` occurs at `i`, its three parts occur one after the other. */
  lemma CommandCallLayout(s: string, i: nat, name: string, opt: Option<string>, text: string, j: nat, b: nat, e: nat)
    requires StartsWith(s, i, CommandCall(name, opt, text)) && e == i + |CommandCall(name, opt, text)|
    requires j == i + 1 + |name| && b == j + |Optional(opt)|
    ensures StartsWith(s, i, "\\" + name) && StartsWith(s, j, Optional(opt))
    ensures StartsWith(s, b, "{" + text + "}") && e == b + |text| + 2
  {
    var head, o, arg := "\\" + name, Optional(opt), "{" + text + "}";
    assert CommandCall(name, opt, text) == head + o + arg;
    StartsWithSplitAt(s, i, head + o, arg, b);
    StartsWithSplitAt(s, i, head, o, j);
  }

  /** The unwrap scanner reads `\NAME[OPT]{TEXT}` whole when TEXT holds no brace. */
  lemma UnwrapAtIs(s: string, i: nat, name: string, opt: Option<string>, text: string, e: nat)
    requires IsCommandName(name) && OptionalOk(opt)
    requires '{' !in text && '}' !in text
    requires StartsWith(s, i, CommandCall(name, opt, text)) && e == i + |CommandCall(name, opt, text)|
    ensures i < |s|
    ensures UnwrapAt(s, i) == Some(Hit(e, text))
  {
    var j := i + 1 + |name|;
    var b := j + |Optional(opt)|;
    CommandCallLayout(s, i, name, opt, text, j, b, e);
    UnwrapAtParts(s, i, name, opt, text, j, b, e);
  }

  lemma UnwrapAtParts(s: string, i: nat, name: string, opt: Option<string>, text: string, j: nat, b: nat, e: nat)
    requires IsCommandName(name) && OptionalOk(opt)
    requires '{' !in text && '}' !in text
    requires StartsWith(s, i, "\\" + name) && j == i + 1 + |name|
    requires StartsWith(s, j, Optional(opt)) && b == j + |Optional(opt)|
    requires StartsWith(s, b, "{" + text + "}") && e == b + |text| + 2
    ensures i < |s|
    ensures UnwrapAt(s, i) == Some(Hit(e, text))
  {
    UnwrapScanSteps(s, i, name, opt, text, j, b);
    UnwrapAtSteps(s, i, j, b, Hit(e, text));
  }

  /** Where each step of the unwrap scanner arrives on `\\NAME[OPT]{TEXT}`. */
  lemma UnwrapScanSteps(s: string, i: nat, name: string, opt: Option<string>, text: string, j: nat, b: nat)
    requires IsCommandName(name) && OptionalOk(opt)
    requires '{' !in text && '}' !in text
    requires StartsWith(s, i, "\\" + name) && j == i + 1 + |name|
    requires StartsWith(s, j, Optional(opt)) && b == j + |Optional(opt)|
    requires StartsWith(s, b, "{" + text + "}")
    ensures i < |s| && s[i] == '\\'
    ensures i + 1 < j <= |s| && Skip(s, i + 1, Letter) == j
    ensures OptStar(s, j) == j && AfterOptional(s, j) == b
    ensures FlatBraceArg(s, b) == Some(Hit(b + |text| + 2, text))
  {
    BraceOpens(s, b, "{" + text + "}");
    OptionalOpens(s, j, opt);
    CommandHead(s, i, name);
    AfterOptionalIs(s, j, opt);
    FlatBraceArgIs(s, b, text);
  }

  /** `\\[a-zA-Z]+` reads exactly the backslash and the name. */
  lemma CommandHead(s: string, i: nat, name: string)
    requires IsCommandName(name)
    requires StartsWith(s, i, "\\" + name)
    ensures i < |s| && s[i] == '\\'
    ensures i + 1 + |name| <= |s|
    ensures (i + 1 + |name| == |s| || !IsAsciiLetter(s[i + 1 + |name|])) ==>
              Skip(s, i + 1, Letter) == i + 1 + |name|
  {
    StartsWithSplit(s, i, "\\", name);
    StartsWithChars(s, i, "\\");
    StartsWithChars(s, i + 1, name);
    if i + 1 + |name| == |s| || !IsAsciiLetter(s[i + 1 + |name|]) {
      SkipIs(s, i + 1, i + 1 + |name|, Letter);
    }
  }

  /** A text that starts with `{` at `b`. */
  lemma BraceOpens(s: string, b: nat, lit: string)
    requires |lit| > 0 && lit[0] == '{'
    requires StartsWith(s, b, lit)
    ensures b < |s| && s[b] == '{'
  {
    StartsWithChars(s, b, lit);
  }

  /** Where the optional argument, if any, is followed by `{`, no star follows the name. */
  lemma OptionalOpens(s: string, j: nat, opt: Option<string>)
    requires StartsWith(s, j, Optional(opt))
    requires j + |Optional(opt)| < |s| && s[j + |Optional(opt)|] == '{'
    ensures j < |s| && (s[j] == '[' || s[j] == '{')
    ensures OptStar(s, j) == j
  {
    if opt.Some? {
      StartsWithChars(s, j, Optional(opt));
    }
  }

  /** The unwrap scanner, step by step. */
  lemma UnwrapAtSteps(s: string, i: nat, j: nat, b: nat, h: Hit)
    requires i < |s| && s[i] == '\\'
    requires i + 1 < j <= |s| && Skip(s, i + 1, Letter) == j
    requires OptStar(s, j) == j && AfterOptional(s, j) == b
    requires FlatBraceArg(s, b) == Some(h)
    ensures UnwrapAt(s, i) == Some(h)
  {
  }

  lemma MatchUnwrap(s: string, i: nat)
    requires i < |s|
    ensures MatchAt(Unwrap, s, i) == UnwrapAt(s, i)
  {
  }

  /**
    The unwrap pass turns `\NAME[OPT]{TEXT}` at `i`, with a brace-free TEXT, into exactly TEXT
    and goes on at `e`, right after the closing brace. The call is given part by part.
   */
  lemma UnwrapCommand(s: string, i: nat, name: string, opt: Option<string>, text: string, j: nat, b: nat, e: nat)
    requires IsCommandName(name) && OptionalOk(opt)
    requires '{' !in text && '}' !in text
    requires StartsWith(s, i, "\\" + name) && j == i + 1 + |name|
    requires StartsWith(s, j, Optional(opt)) && b == j + |Optional(opt)|
    requires StartsWith(s, b, "{" + text + "}") && e == b + |text| + 2
    ensures e <= |s|
    ensures ReplaceFrom(Unwrap, s, i) == text + ReplaceFrom(Unwrap, s, e)
  {
    UnwrapAtParts(s, i, name, opt, text, j, b, e);
    UnwrapReplace(s, i, Hit(e, text));
  }

  /** Where the unwrap scanner matches, the pass puts the capture in place of the match. */
  lemma UnwrapReplace(s: string, i: nat, h: Hit)
    requires i < |s| && UnwrapAt(s, i) == Some(h)
    ensures ReplaceFrom(Unwrap, s, i) == h.capture + ReplaceFrom(Unwrap, s, h.end)
  {
    MatchUnwrap(s, i);
    ReplaceAtHit(Unwrap, s, i, h);
  }

  /** A command on its own comes out of the unwrap pass as its argument. */
  lemma UnwrapWhole(name: string, opt: Option<string>, text: string)
    requires IsCommandName(name) && OptionalOk(opt)
    requires '{' !in text && '}' !in text
    ensures KeepArgumentText(CommandCall(name, opt, text)) == text
  {
    var c := CommandCall(name, opt, text);
    assert StartsWith(c, 0, c);
    UnwrapWholeText(c, name, opt, text);
  }

  lemma UnwrapWholeText(c: string, name: string, opt: Option<string>, text: string)
    requires IsCommandName(name) && OptionalOk(opt)
    requires '{' !in text && '}' !in text
    requires StartsWith(c, 0, CommandCall(name, opt, text)) && |c| == |CommandCall(name, opt, text)|
    ensures KeepArgumentText(c) == text
  {
    var j := 1 + |name|;
    var b := j + |Optional(opt)|;
    CommandCallLayout(c, 0, name, opt, text, j, b, |c|);
    UnwrapFromParts(c, name, opt, text, j, b);
  }

  lemma UnwrapFromParts(c: string, name: string, opt: Option<string>, text: string, j: nat, b: nat)
    requires IsCommandName(name) && OptionalOk(opt)
    requires '{' !in text && '}' !in text
    requires StartsWith(c, 0, "\\" + name) && j == 1 + |name|
    requires StartsWith(c, j, Optional(opt)) && b == j + |Optional(opt)|
    requires StartsWith(c, b, "{" + text + "}") && |c| == b + |text| + 2
    ensures KeepArgumentText(c) == text
  {
    UnwrapCommand(c, 0, name, opt, text, j, b, |c|);
    UnwrapAllOf(c, text);
  }

  lemma UnwrapAllOf(c: string, text: string)
    requires ReplaceFrom(Unwrap, c, 0) == text + ReplaceFrom(Unwrap, c, |c|)
    ensures KeepArgumentText(c) == text
  {
    assert ReplaceFrom(Unwrap, c, |c|) == "";
  }

  /** `\textbf{Hello}` becomes `Hello`. */
  lemma UnwrapTextbf(s: string)
    requires s == "\\textbf{Hello}"
    ensures KeepArgumentText(s) == "Hello"
  {
    assert s == CommandCall("textbf", None, "Hello");
    UnwrapWhole("textbf", None, "Hello");
  }

  /** An environment tag that no pass removed becomes its name: `\begin{abstract}` becomes `abstract`. */
  lemma UnwrapBeginAbstract(s: string)
    requires s == "\\begin{abstract}"
    ensures KeepArgumentText(s) == "abstract"
  {
    assert s == CommandCall("begin", None, "abstract");
    UnwrapWhole("begin", None, "abstract");
  }

  /** The starred tag that the environment passes miss becomes the word `equation*`. */
  lemma UnwrapBeginStarred(s: string)
    requires s == "\\begin{equation*}"
    ensures KeepArgumentText(s) == "equation*"
  {
    assert s == CommandCall("begin", None, "equation*");
    UnwrapWhole("begin", None, "equation*");
  }

  /** Without a preamble pass, `\usepackage{amsmath}` becomes the word `amsmath`. */
  lemma UnwrapUsePackage(s: string)
    requires s == "\\usepackage{amsmath}"
    ensures KeepArgumentText(s) == "amsmath"
  {
    assert s == CommandCall("usepackage", None, "amsmath");
    UnwrapWhole("usepackage", None, "amsmath");
  }

  /** An argument that holds a nested brace group is not unwrapped. */
  lemma NestedBracesNotUnwrapped(s: string, i: nat, name: string, a: string)
    requires IsCommandName(name)
    requires '{' !in a && '}' !in a
    requires StartsWith(s, i, "\\" + name + ("{" + a + "{"))
    ensures i < |s| && MatchAt(Unwrap, s, i).None?
  {
    StartsWithSplit(s, i, "\\" + name, "{" + a + "{");
    NestedBraceParts(s, i, name, a);
  }

  lemma NestedBraceParts(s: string, i: nat, name: string, a: string)
    requires IsCommandName(name)
    requires '{' !in a && '}' !in a
    requires StartsWith(s, i, "\\" + name)
    requires StartsWith(s, i + 1 + |name|, "{" + a + "{")
    ensures i < |s| && MatchAt(Unwrap, s, i).None?
  {
    var b := i + 1 + |name|;
    BraceOpens(s, b, "{" + a + "{");
    assert StartsWith(s, b, Optional(None));
    OptionalOpens(s, b, None);
    CommandHead(s, i, name);
    AfterOptionalIs(s, b, None);
    FlatBraceArgNested(s, b, a);
    UnwrapAtNone(s, i, b);
    MatchUnwrap(s, i);
  }

  /** `\{([^{}]*)\}` fails on a brace group that opens another one before it closes. */
  lemma FlatBraceArgNested(s: string, b: nat, a: string)
    requires '{' !in a && '}' !in a
    requires StartsWith(s, b, "{" + a + "{")
    ensures FlatBraceArg(s, b).None?
  {
    StartsWithSplit(s, b, "{" + a, "{");
    StartsWithSplit(s, b, "{", a);
    StartsWithChars(s, b + 1, a);
    StartsWithChars(s, b + 1 + |a|, "{");
    SkipIs(s, b + 1, b + 1 + |a|, NotBrace);
  }

  /** The unwrap scanner fails when the brace argument after the name does. */
  lemma UnwrapAtNone(s: string, i: nat, j: nat)
    requires i < |s| && s[i] == '\\'
    requires i + 1 < j <= |s| && Skip(s, i + 1, Letter) == j
    requires OptStar(s, j) == j && AfterOptional(s, j) == j
    requires FlatBraceArg(s, j).None?
    ensures UnwrapAt(s, i).None?
  {
  }

  // ---------------------------------------------------------------------------------
  // Math

  /** Text that holds no `$` and no `\\[` or `\\(` is a fixed point of every math pass. */
  lemma MathPassesKeep(content: string)
    requires '$' !in content
    requires forall m :: 0 <= m < |content| ==> !StartsWith(content, m, "\\[") && !StartsWith(content, m, "\\(")
    ensures forall k :: 0 <= k < |MathPasses| ==> Replace(MathPasses[k], content) == content
  {
    forall k | 0 <= k < |MathPasses| ensures Replace(MathPasses[k], content) == content {
      var p := MathPasses[k];
      forall m | 0 <= m < |content| ensures MatchAt(p, content, m).None? {
        NotStartsWith(content, m, "$$", 0);
        NotStartsWith(content, m, "$", 0);
      }
      ReplaceNoMatch(p, content, 0);
      assert content[0..] == content;
    }
  }

  /** `removeMath` returns text without math delimiters unchanged. */
  lemma RemoveMathNoDelimiters(content: string)
    requires '$' !in content
    requires forall m :: 0 <= m < |content| ==> !StartsWith(content, m, "\\[") && !StartsWith(content, m, "\\(")
    ensures RemoveMath(content) == content
  {
    MathPassesKeep(content);
    ReplaceEachUnchanged(MathPasses, content);
  }

  /** The layout of `$$X$$` when X holds no `$`. */
  lemma DisplaySpanParts(s: string, x: string)
    requires '$' !in x
    requires s == "$$" + x + "$$"
    ensures |s| == |x| + 4 && s[2..2 + |x|] == x
    ensures StartsWith(s, 0, "$$") && StartsWith(s, 0, "$") && StartsWith(s, 1, "$")
    ensures StartsWith(s, 2 + |x|, "$$") && StartsWith(s, 2 + |x|, "$")
    ensures forall m :: 2 <= m < 2 + |x| ==> s[m] != '$'
  {
    assert s[2 + |x|..] == "$$";
    forall m | 2 <= m < 2 + |x| ensures s[m] != '$' {
      assert s[m] == x[m - 2];
    }
  }

  /** With the layout of `$$X$$`, the display pass takes the whole text as one span. */
  lemma DisplayDollarWhole(s: string, n: nat)
    requires |s| == n + 4
    requires StartsWith(s, 0, "$$") && StartsWith(s, 2 + n, "$$")
    requires forall m :: 2 <= m < 2 + n ==> s[m] != '$'
    ensures Replace(DisplayDollar, s) == " "
  {
    forall m | 2 <= m < 2 + n ensures !StartsWith(s, m, "$$") {
      NotStartsWith(s, m, "$$", 0);
    }
    FindIs(s, 2, 2 + n, "$$");
    ReplaceAtHit(DisplayDollar, s, 0, Hit(|s|, s[2..2 + n]));
  }

  /** ... while the inline pass alone would read `$$` as an empty inline span, twice. */
  lemma InlineDollarPairs(s: string, n: nat)
    requires |s| == n + 4
    requires StartsWith(s, 0, "$") && StartsWith(s, 1, "$")
    requires StartsWith(s, 2 + n, "$") && StartsWith(s, 3 + n, "$")
    requires forall m :: 2 <= m < 2 + n ==> s[m] != '$'
    ensures Replace(InlineDollar, s) == " " + s[2..2 + n] + " "
  {
    FindIs(s, 1, 1, "$");
    ReplaceAtHit(InlineDollar, s, 0, Hit(2, s[1..1]));
    forall m | 2 <= m < 2 + n ensures MatchAt(InlineDollar, s, m).None? {
      NotStartsWith(s, m, "$", 0);
    }
    ReplaceCopies(InlineDollar, s, 2, 2 + n);
    FindIs(s, 3 + n, 3 + n, "$");
    ReplaceAtHit(InlineDollar, s, 2 + n, Hit(4 + n, s[3 + n..3 + n]));
  }

  /**
    `$$` spans go before `$` spans: `removeMath` turns `$$X$$` into one space, where the
    `$` pass on its own would have kept X between two spaces.
   */
  lemma DisplayBeforeInline(s: string, x: string)
    requires '$' !in x
    requires s == "$$" + x + "$$"
    ensures RemoveMath(s) == " "
    ensures Replace(InlineDollar, s) == " " + x + " "
  {
    DisplaySpanParts(s, x);
    StartsWithSplit(s, 2 + |x|, "$", "$");
    DisplayDollarWhole(s, |x|);
    InlineDollarPairs(s, |x|);
    ReplaceEachFirst(MathPasses, s);
    var rest := MathPasses[1..];
    forall m | 0 <= m < |" "| ensures !StartsWith(" ", m, "\\[") && !StartsWith(" ", m, "\\(") {
      NotStartsWith(" ", m, "\\[", 0);
      NotStartsWith(" ", m, "\\(", 0);
    }
    MathPassesKeep(" ");
    assert forall k :: 0 <= k < |rest| ==> rest[k] == MathPasses[k + 1];
    ReplaceEachUnchanged(rest, " ");
  }

  /** `OPEN[\s\S]*?CLOSE` at `i`, when the nearest CLOSE after the opening delimiter is at `j`. */
  lemma DelimitedIs(s: string, i: nat, j: nat, open: string, close: string)
    requires |open| > 0 && |close| > 0
    requires StartsWith(s, i, open) && i + |open| <= j
    requires StartsWith(s, j, close)
    requires forall m :: i + |open| <= m < j ==> !StartsWith(s, m, close)
    ensures i < |s| && j + |close| <= |s|
    ensures DelimitedAt(s, i, open, close) == Some(Hit(j + |close|, s[i + |open|..j]))
  {
    FindIs(s, i + |open|, j, close);
  }

  /**
    The `$$` pass puts one space in place of `$$...$$` at `i`, up to the nearest `$$` after
    the opening one (at `j`), and goes on after it.
   */
  lemma DisplayDollarAt(s: string, i: nat, j: nat)
    requires StartsWith(s, i, "$$") && i + 2 <= j
    requires StartsWith(s, j, "$$")
    requires forall m :: i + 2 <= m < j ==> !StartsWith(s, m, "$$")
    ensures j + 2 <= |s|
    ensures ReplaceFrom(DisplayDollar, s, i) == " " + ReplaceFrom(DisplayDollar, s, j + 2)
  {
    DelimitedIs(s, i, j, "$$", "$$");
    assert MatchAt(DisplayDollar, s, i) == DelimitedAt(s, i, "$$", "$$");
    ReplaceAtSpaceHit(DisplayDollar, s, i, j + 2, s[i + 2..j]);
  }

  /** The `$` pass puts one space in place of `$...$` at `i`, whose inside holds no `$`. */
  lemma InlineDollarAt(s: string, i: nat, j: nat)
    requires StartsWith(s, i, "$") && i + 1 <= j
    requires j < |s| && s[j] == '$'
    requires forall m :: i + 1 <= m < j ==> s[m] != '$'
    ensures ReplaceFrom(InlineDollar, s, i) == " " + ReplaceFrom(InlineDollar, s, j + 1)
  {
    StartsWithOne(s, j, '$');
    forall m | i + 1 <= m < j ensures !StartsWith(s, m, "$") {
      StartsWithOne(s, m, '$');
    }
    DelimitedIs(s, i, j, "$", "$");
    assert MatchAt(InlineDollar, s, i) == DelimitedAt(s, i, "$", "$");
    ReplaceAtSpaceHit(InlineDollar, s, i, j + 1, s[i + 1..j]);
  }

  /** The `\\[` pass puts one space in place of `\\[...\\]` at `i`, up to the nearest `\\]` (at `j`). */
  lemma DisplayBracketAt(s: string, i: nat, j: nat)
    requires StartsWith(s, i, "\\[") && i + 2 <= j
    requires StartsWith(s, j, "\\]")
    requires forall m :: i + 2 <= m < j ==> !StartsWith(s, m, "\\]")
    ensures j + 2 <= |s|
    ensures ReplaceFrom(DisplayBracket, s, i) == " " + ReplaceFrom(DisplayBracket, s, j + 2)
  {
    DelimitedIs(s, i, j, "\\[", "\\]");
    assert MatchAt(DisplayBracket, s, i) == DelimitedAt(s, i, "\\[", "\\]");
    ReplaceAtSpaceHit(DisplayBracket, s, i, j + 2, s[i + 2..j]);
  }

  /** The `\\(` pass puts one space in place of `\\(...\\)` at `i`, up to the nearest `\\)` (at `j`). */
  lemma InlineParenAt(s: string, i: nat, j: nat)
    requires StartsWith(s, i, "\\(") && i + 2 <= j
    requires StartsWith(s, j, "\\)")
    requires forall m :: i + 2 <= m < j ==> !StartsWith(s, m, "\\)")
    ensures j + 2 <= |s|
    ensures ReplaceFrom(InlineParen, s, i) == " " + ReplaceFrom(InlineParen, s, j + 2)
  {
    DelimitedIs(s, i, j, "\\(", "\\)");
    assert MatchAt(InlineParen, s, i) == DelimitedAt(s, i, "\\(", "\\)");
    ReplaceAtSpaceHit(InlineParen, s, i, j + 2, s[i + 2..j]);
  }

  /** `removeMath`, pass by pass. */
  lemma RemoveMathSteps(s: string)
    ensures RemoveMath(s) ==
      Replace(InlineParen, Replace(DisplayBracket, Replace(InlineDollar, Replace(DisplayDollar, s))))
  {
    var p1, p2, p3 := [DisplayDollar], [DisplayDollar, InlineDollar], MathPasses[..3];
    assert p1[..0] == [] && p2[..1] == p1 && p3[..2] == p2;
    var a := Replace(DisplayDollar, s);
    assert ReplaceEach(p1, s) == a;
    var b := Replace(InlineDollar, a);
    assert ReplaceEach(p2, s) == b;
    var c := Replace(DisplayBracket, b);
    assert ReplaceEach(p3, s) == c;
  }

  /** A text without `$` passes both dollar passes unchanged. */
  lemma NoDollarKept(s: string)
    requires '$' !in s
    ensures Replace(DisplayDollar, s) == s && Replace(InlineDollar, s) == s
  {
    forall m | 0 <= m < |s| ensures MatchAt(DisplayDollar, s, m).None? && MatchAt(InlineDollar, s, m).None? {
      NotStartsWith(s, m, "$$", 0);
      NotStartsWith(s, m, "$", 0);
    }
    ReplaceNoMatch(DisplayDollar, s, 0);
    ReplaceNoMatch(InlineDollar, s, 0);
    assert s[0..] == s;
  }

  /** A single space passes every math pass unchanged. */
  lemma SpaceKeptByMath(p: Pattern)
    requires p in MathPasses
    ensures Replace(p, " ") == " "
  {
    NotStartsWith(" ", 0, "$$", 0);
    NotStartsWith(" ", 0, "$", 0);
    NotStartsWith(" ", 0, "\\[", 0);
    NotStartsWith(" ", 0, "\\(", 0);
    assert NoMatchFrom(p, " ", 0);
    ReplaceNoMatch(p, " ", 0);
  }

  /** `removeMath` turns a text that is one `\\[...\\]` span, with no `$`, into one space. */
  lemma RemoveMathDisplayBracket(s: string, n: nat)
    requires '$' !in s && |s| == n + 4
    requires StartsWith(s, 0, "\\[") && StartsWith(s, 2 + n, "\\]")
    requires forall m :: 2 <= m < 2 + n ==> !StartsWith(s, m, "\\]")
    ensures RemoveMath(s) == " "
  {
    RemoveMathSteps(s);
    NoDollarKept(s);
    DisplayBracketAt(s, 0, 2 + n);
    SpaceKeptByMath(InlineParen);
  }

  /**
    `removeMath` turns a text that is one `\\(...\\)` span, with no `$` and no `\\[`, into one
    space.
   */
  lemma RemoveMathInlineParen(s: string, n: nat)
    requires '$' !in s && |s| == n + 4
    requires forall m :: 0 <= m < |s| ==> !StartsWith(s, m, "\\[")
    requires StartsWith(s, 0, "\\(") && StartsWith(s, 2 + n, "\\)")
    requires forall m :: 2 <= m < 2 + n ==> !StartsWith(s, m, "\\)")
    ensures RemoveMath(s) == " "
  {
    RemoveMathSteps(s);
    NoDollarKept(s);
    assert NoMatchFrom(DisplayBracket, s, 0);
    ReplaceNoMatch(DisplayBracket, s, 0);
    assert s[0..] == s;
    InlineParenAt(s, 0, 2 + n);
  }

  // ---------------------------------------------------------------------------------
  // Leftover commands

  /** No backslash in `t` is followed by a letter or `@`. */
  predicate NoCommandLeft(t: string)
  {
    forall m :: 0 <= m < |t| - 1 ==> !(t[m] == '\\' && In(t[m + 1], CommandChar))
  }

  lemma MatchResidual(s: string, i: nat)
    requires i < |s|
    ensures MatchAt(Residual, s, i) == ResidualAt(s, i)
  {
  }

  /** A space in front keeps a text free of commands. */
  lemma SpaceNoCommand(u: string)
    requires NoCommandLeft(u)
    ensures NoCommandLeft(" " + u)
  {
    var t := " " + u;
    forall m | 0 < m < |t| - 1 ensures !(t[m] == '\\' && In(t[m + 1], CommandChar)) {
      assert t[m] == u[m - 1] && t[m + 1] == u[m];
    }
  }

  /** A character in front keeps a text free of commands unless it is a backslash that meets one. */
  lemma ConsNoCommand(c: char, u: string)
    requires NoCommandLeft(u)
    requires c == '\\' && |u| > 0 ==> !In(u[0], CommandChar)
    ensures NoCommandLeft([c] + u)
  {
    var t := [c] + u;
    forall m | 0 < m < |t| - 1 ensures !(t[m] == '\\' && In(t[m + 1], CommandChar)) {
      assert t[m] == u[m - 1] && t[m + 1] == u[m];
    }
  }

  /**
    What the leftover-command pass produces from `i` on holds no command, and starts with a
    space or with the character at `i`.
   */
  lemma {:induction false} ResidualTail(s: string, i: nat)
    requires i <= |s|
    ensures NoCommandLeft(ReplaceFrom(Residual, s, i))
    ensures i < |s| ==>
      |ReplaceFrom(Residual, s, i)| > 0 &&
      (ReplaceFrom(Residual, s, i)[0] == ' ' || ReplaceFrom(Residual, s, i)[0] == s[i])
    decreases |s| - i
  {
    if i < |s| {
      MatchResidual(s, i);
      match ResidualAt(s, i)
      case Some(h) =>
        ResidualTail(s, h.end);
        ReplaceAtHit(Residual, s, i, h);
        SpaceNoCommand(ReplaceFrom(Residual, s, h.end));
      case None =>
        ResidualTail(s, i + 1);
        ReplaceSkipChar(Residual, s, i);
        ConsNoCommand(s[i], ReplaceFrom(Residual, s, i + 1));
    }
  }

  /** After `removeRemainingCommands` no backslash is followed by an ASCII letter or `@`. */
  lemma ResidualLeavesNoCommand(content: string)
    ensures NoCommandLeft(RemoveRemainingCommands(content))
  {
    ResidualTail(content, 0);
  }

  /** ... and text without such a command comes through unchanged, so the pass is idempotent. */
  lemma ResidualKeepsPlain(content: string)
    requires NoCommandLeft(content)
    ensures RemoveRemainingCommands(content) == content
  {
    forall m | 0 <= m < |content| ensures MatchAt(Residual, content, m).None? {
      MatchResidual(content, m);
    }
    ReplaceNoMatch(Residual, content, 0);
    assert content[0..] == content;
  }

  lemma ResidualIdempotent(content: string)
    ensures RemoveRemainingCommands(RemoveRemainingCommands(content)) == RemoveRemainingCommands(content)
  {
    ResidualLeavesNoCommand(content);
    ResidualKeepsPlain(RemoveRemainingCommands(content));
  }

  // ---------------------------------------------------------------------------------
  // Metadata commands

  /**
    The metadata scanner reads `\\CMD[OPT]{ARG}` whole when ARG holds no `}` (it may hold
    `{`); the bracket argument is only allowed for the commands that take one.
   */
  lemma MetaCommandAtIs(s: string, i: nat, command: string, optional: bool, opt: Option<string>, arg: string,
                        j: nat, b: nat)
    requires OptionalOk(opt) && (optional || opt.None?)
    requires '}' !in arg
    requires StartsWith(s, i, "\\" + command) && j == i + 1 + |command|
    requires StartsWith(s, j, Optional(opt)) && b == j + |Optional(opt)|
    requires StartsWith(s, b, "{" + arg + "}")
    ensures MetaCommandAt(s, i, command, optional) == Some(Hit(b + |arg| + 2, arg))
  {
    BraceArgAt(s, b, arg);
    OptionalSkipped(s, j, optional, opt);
    MetaCommandAtBrace(s, i, command, optional, b, Hit(b + |arg| + 2, arg));
  }

  /** A brace argument, its opening brace included. */
  lemma BraceArgAt(s: string, b: nat, arg: string)
    requires '}' !in arg
    requires StartsWith(s, b, "{" + arg + "}")
    ensures b < |s| && s[b] == '{'
    ensures BraceArg(s, b) == Some(Hit(b + |arg| + 2, arg))
  {
    BraceOpens(s, b, "{" + arg + "}");
    BraceArgIs(s, b, arg);
  }

  /** Past the name, the scanner arrives at the `{` that follows the optional argument. */
  lemma OptionalSkipped(s: string, j: nat, optional: bool, opt: Option<string>)
    requires OptionalOk(opt) && (optional || opt.None?)
    requires StartsWith(s, j, Optional(opt))
    requires j + |Optional(opt)| < |s| && s[j + |Optional(opt)|] == '{'
    ensures (if optional then AfterOptional(s, j) else Skip(s, j, Space)) == j + |Optional(opt)|
  {
    if optional {
      AfterOptionalIs(s, j, opt);
    } else {
      SkipIs(s, j, j, Space);
    }
  }

  /** Once the name is matched, the metadata scanner's result is the brace argument's. */
  lemma MetaCommandAtBrace(s: string, i: nat, command: string, optional: bool, b: nat, h: Hit)
    requires StartsWith(s, i, "\\" + command) && b <= |s|
    requires (if optional then AfterOptional(s, i + 1 + |command|) else Skip(s, i + 1 + |command|, Space)) == b
    requires BraceArg(s, b) == Some(h)
    ensures MetaCommandAt(s, i, command, optional) == Some(h)
  {
  }

  lemma MatchMeta(s: string, i: nat, command: string, optional: bool)
    requires i < |s|
    ensures MatchAt(MetaCommand(command, optional), s, i) == MetaCommandAt(s, i, command, optional)
  {
  }

  /** A metadata pass puts one space in place of `\\CMD[OPT]{ARG}` and goes on after it. */
  lemma MetaCommandRemoved(s: string, i: nat, command: string, optional: bool, opt: Option<string>, arg: string,
                           j: nat, b: nat, e: nat)
    requires OptionalOk(opt) && (optional || opt.None?)
    requires '}' !in arg
    requires StartsWith(s, i, "\\" + command) && j == i + 1 + |command|
    requires StartsWith(s, j, Optional(opt)) && b == j + |Optional(opt)|
    requires StartsWith(s, b, "{" + arg + "}") && e == b + |arg| + 2
    ensures e <= |s|
    ensures ReplaceFrom(MetaCommand(command, optional), s, i) ==
      " " + ReplaceFrom(MetaCommand(command, optional), s, e)
  {
    MetaCommandAtIs(s, i, command, optional, opt, arg, j, b);
    MatchMeta(s, i, command, optional);
    ReplaceAtSpaceHit(MetaCommand(command, optional), s, i, e, arg);
  }

  /**
    Each pass of the metadata list turns its own command, written on its own, into one space:
    `\\documentclass` and `\\usepackage` with or without `[OPT]`, the others without it. The
    argument ends at the first `}`.
   */
  lemma MetaCommandWhole(k: nat, opt: Option<string>, arg: string)
    requires k < |MetaRemoveList|
    requires OptionalOk(opt) && (MetaRemoveList[k].optional || opt.None?)
    requires '}' !in arg
    ensures Replace(MetaRemoveList[k], CommandCall(MetaRemoveList[k].command, opt, arg)) == " "
  {
    var p := MetaRemoveList[k];
    var c := CommandCall(p.command, opt, arg);
    assert StartsWith(c, 0, c);
    var j := 1 + |p.command|;
    var b := j + |Optional(opt)|;
    CommandCallLayout(c, 0, p.command, opt, arg, j, b, |c|);
    MetaCommandRemoved(c, 0, p.command, p.optional, opt, arg, j, b, |c|);
  }

  /** The commands that take `[OPT]` are exactly `\\documentclass` and `\\usepackage`. */
  lemma MetaOptionalCommands(k: nat)
    requires k < |MetaRemoveList|
    ensures MetaRemoveList[k].optional <==> k < 2
    ensures MetaRemoveList[k].optional <==>
      MetaRemoveList[k].command == "documentclass" || MetaRemoveList[k].command == "usepackage"
  {
  }

  // ---------------------------------------------------------------------------------
  // Macro definitions

  /** `\\COMMAND{\\NAME}[OPT]{BODY}` */
  function DefinitionText(command: string, name: string, opt: Option<string>, body: string): string
  {
    "\\" + command + ("{\\" + name + "}") + Optional(opt) + ("{" + body + "}")
  }

  /** A definition the pattern reads whole: a `}`-free name, a `]`-free option, a `}`-free body. */
  predicate DefinitionOk(name: string, opt: Option<string>, body: string)
  {
    |name| > 0 && '}' !in name && OptionalOk(opt) && '}' !in body
  }

  /** Where `\\COMMAND{\\NAME}[OPT]{BODY}` occurs at `i`, its parts occur one after the other. */
  lemma DefinitionLayout(s: string, i: nat, command: string, name: string, opt: Option<string>, body: string,
                         p: nat, q: nat, b: nat)
    requires StartsWith(s, i, DefinitionText(command, name, opt, body))
    requires p == i + 1 + |command| && q == p + |name| + 3 && b == q + |Optional(opt)|
    ensures StartsWith(s, i, "\\" + command) && StartsWith(s, p, "{\\" + name + "}")
    ensures StartsWith(s, q, Optional(opt)) && StartsWith(s, b, "{" + body + "}")
    ensures i + |DefinitionText(command, name, opt, body)| == b + |body| + 2
  {
    var head, nm, o, arg := "\\" + command, "{\\" + name + "}", Optional(opt), "{" + body + "}";
    assert DefinitionText(command, name, opt, body) == head + nm + o + arg;
    StartsWithSplitAt(s, i, head + nm + o, arg, b);
    StartsWithSplitAt(s, i, head + nm, o, q);
    StartsWithSplitAt(s, i, head, nm, p);
  }

  /** `\\{?\\\\[^}]+\\}?`: the braced name `{\\NAME}` at `p`, its name from `c` up to its `}` at `m`. */
  lemma BracedNameAt(s: string, p: nat, name: string, c: nat, m: nat)
    requires |name| > 0 && '}' !in name
    requires StartsWith(s, p, "{\\" + name + "}") && c == p + 2 && m == c + |name|
    ensures m < |s| && s[p] == '{' && s[p + 1] == '\\' && s[m] == '}'
    ensures Find(s, c, "}") == Some(m)
  {
    var lit := "{\\" + name + "}";
    StartsWithChars(s, p, lit);
    assert lit[0] == '{' && lit[1] == '\\' && lit[2 + |name|] == '}';
    forall x | c <= x < m ensures !StartsWith(s, x, "}") {
      assert s[x] == lit[x - p] == name[x - p - 2];
      StartsWithOne(s, x, '}');
    }
    StartsWithOne(s, m, '}');
    FindIs(s, c, m, "}");
  }

  /** The tail of a definition after the command word, read on `{\\NAME}[OPT]{BODY}`. */
  lemma DefinitionTailIs(s: string, p: nat, name: string, opt: Option<string>, body: string, q: nat, b: nat, e: nat)
    requires DefinitionOk(name, opt, body)
    requires StartsWith(s, p, "{\\" + name + "}") && q == p + |name| + 3
    requires StartsWith(s, q, Optional(opt)) && b == q + |Optional(opt)|
    requires StartsWith(s, b, "{" + body + "}") && e == b + |body| + 2
    ensures DefinitionTail(s, p) == Some(e)
  {
    var c := p + 2;
    var m := c + |name|;
    BracedNameAt(s, p, name, c, m);
    NameStartAt(s, p, c);
    DefinitionBodyIs(s, q, opt, body, b, e);
    DefinitionTailFrom(s, p, c, m, q, e);
  }

  /** `\s*(?:\[[^\]]*\])?\s*\{[\s\S]*?\}` reads `[OPT]{BODY}` at `q`. */
  lemma DefinitionBodyIs(s: string, q: nat, opt: Option<string>, body: string, b: nat, e: nat)
    requires OptionalOk(opt) && '}' !in body
    requires StartsWith(s, q, Optional(opt)) && b == q + |Optional(opt)|
    requires StartsWith(s, b, "{" + body + "}") && e == b + |body| + 2
    ensures DefinitionBody(s, q) == Some(e)
  {
    BraceOpens(s, b, "{" + body + "}");
    AfterOptionalIs(s, q, opt);
    BraceArgIs(s, b, body);
  }

  /**
    Past `{\\`, the name is tried from the first `}` on, first with that `}` taken: the tail
    is the definition body after it.
   */
  lemma DefinitionTailFrom(s: string, p: nat, c: nat, m: nat, q: nat, r: nat)
    requires p <= |s| && NameStart(s, p) == Some(c)
    requires c < m < |s| && Find(s, c, "}") == Some(m) && s[m] == '}'
    requires q == m + 1 && DefinitionBody(s, q) == Some(r)
    ensures DefinitionTail(s, p) == Some(r)
  {
    DefinitionNameFirst(s, c, m, q, r);
    assert NameLimit(s, c) == m;
  }

  /** The longest name, up to `m`, with its closing `}` taken, is tried first. */
  lemma DefinitionNameFirst(s: string, n: nat, m: nat, q: nat, r: nat)
    requires n < m < |s| && s[m] == '}'
    requires q == m + 1 && DefinitionBody(s, q) == Some(r)
    ensures DefinitionName(s, n, m) == Some(r)
  {
  }

  /** Past `{\\`, the macro name starts. */
  lemma NameStartAt(s: string, p: nat, c: nat)
    requires p + 1 < |s| && s[p] == '{' && s[p + 1] == '\\' && c == p + 2
    ensures NameStart(s, p) == Some(c)
  {
    BraceNoStarNoSpace(s, p);
  }

  /** At a `{`, neither `\*?` nor `\s*` moves. */
  lemma BraceNoStarNoSpace(s: string, p: nat)
    requires p < |s| && s[p] == '{'
    ensures Skip(s, OptStar(s, p), Space) == p
  {
    assert OptStar(s, p) == p;
    assert !In(s[p], Space);
    SkipIs(s, p, p, Space);
  }

  /** An alternation whose earlier names start with other letters reaches the name at `k`. */
  lemma {:induction false} DefinitionAtPick(s: string, i: nat, names: seq<string>, k: nat)
    requires i <= |s| && k < |names|
    requires forall j :: 0 <= j < |names| ==> |names[j]| > 0
    requires forall j :: 0 <= j < k ==> names[j][0] != names[k][0]
    requires StartsWith(s, i, "\\" + names[k])
    ensures DefinitionAt(s, i, names) == DefinitionAt(s, i, names[k..])
    decreases k
  {
    if k > 0 {
      StartsWithChars(s, i, "\\" + names[k]);
      assert ("\\" + names[k])[1] == names[k][0];
      NotStartsWith(s, i, "\\" + names[0], 1);
      var rest := names[1..];
      assert rest[k - 1..] == names[k..];
      DefinitionAtPick(s, i, rest, k - 1);
    } else {
      assert names[0..] == names;
    }
  }

  /**
    A definition pass puts one space in place of `\\NAME{\\MACRO}[OPT]{BODY}`, for each NAME of
    its alternation, and goes on after it.
   */
  lemma DefinitionRemoved(s: string, i: nat, names: seq<string>, k: nat, name: string, opt: Option<string>,
                          body: string, e: nat)
    requires DistinctInitials(names) && k < |names|
    requires DefinitionOk(name, opt, body)
    requires StartsWith(s, i, DefinitionText(names[k], name, opt, body))
    requires e == i + |DefinitionText(names[k], name, opt, body)|
    ensures i < e <= |s|
    ensures ReplaceFrom(CommandDefinition(names), s, i) == " " + ReplaceFrom(CommandDefinition(names), s, e)
  {
    var p := i + 1 + |names[k]|;
    var q := p + |name| + 3;
    var b := q + |Optional(opt)|;
    DefinitionLayout(s, i, names[k], name, opt, body, p, q, b);
    DefinitionTailIs(s, p, name, opt, body, q, b, e);
    DefinitionAtNamed(s, i, names, k, p, e);
    MatchDefinition(s, i, names);
    ReplaceAtSpaceHit(CommandDefinition(names), s, i, e, "");
  }

  /** The definition scanner reaches the alternative at `k` and reads its tail. */
  lemma DefinitionAtNamed(s: string, i: nat, names: seq<string>, k: nat, p: nat, e: nat)
    requires i <= |s| && DistinctInitials(names) && k < |names|
    requires StartsWith(s, i, "\\" + names[k])
    requires p == i + 1 + |names[k]| && DefinitionTail(s, p) == Some(e)
    ensures DefinitionAt(s, i, names) == Some(Hit(e, ""))
  {
    DefinitionAtPick(s, i, names, k);
    var rest := names[k..];
    assert rest[0] == names[k];
    DefinitionAtFirst(s, i, rest, p, e);
  }

  /** The first alternative of a definition scanner, when its tail matches. */
  lemma DefinitionAtFirst(s: string, i: nat, names: seq<string>, p: nat, e: nat)
    requires i <= |s| && |names| > 0 && StartsWith(s, i, "\\" + names[0])
    requires p == i + 1 + |names[0]| && DefinitionTail(s, p) == Some(e)
    ensures DefinitionAt(s, i, names) == Some(Hit(e, ""))
  {
    var first := if StartsWith(s, i, "\\" + names[0]) then DefinitionTail(s, i + 1 + |names[0]|) else None;
    assert first == Some(e);
  }

  lemma MatchDefinition(s: string, i: nat, names: seq<string>)
    requires i < |s|
    ensures MatchAt(CommandDefinition(names), s, i) == DefinitionAt(s, i, names)
  {
  }

  /** `renewcommand` and `newcommand`, and `providecommand`, start with different letters. */
  lemma DefinitionNamesDistinct(k: nat)
    requires k < 2
    ensures DistinctInitials(DefinitionPasses[k].names)
  {
  }

  /**
    Each of the two definition passes turns a definition by one of its commands, written on its
    own, into one space: `\\newcommand` and `\\renewcommand` in the first, `\\providecommand` in
    the second.
   */
  lemma DefinitionWhole(k: nat, c: nat, name: string, opt: Option<string>, body: string)
    requires k < 2 && c < |DefinitionPasses[k].names|
    requires DefinitionOk(name, opt, body)
    ensures Replace(DefinitionPasses[k], DefinitionText(DefinitionPasses[k].names[c], name, opt, body)) == " "
  {
    var names := DefinitionPasses[k].names;
    var t := DefinitionText(names[c], name, opt, body);
    assert StartsWith(t, 0, t);
    DefinitionNamesDistinct(k);
    DefinitionRemoved(t, 0, names, c, name, opt, body, |t|);
  }

  /** `{G1}{G2}...{Gn}` */
  function Groups(gs: seq<string>): string
  {
    if gs == [] then "" else "{" + gs[0] + "}" + Groups(gs[1..])
  }

  /** `\\DeclareSUFFIX[OPT]{ARG}{G1}...{Gn}` */
  function DeclareText(suffix: string, opt: Option<string>, arg: string, gs: seq<string>): string
  {
    "\\Declare" + suffix + Optional(opt) + ("{" + arg + "}") + Groups(gs)
  }

  /** A `\\Declare...` command the pattern reads whole. */
  predicate DeclareOk(suffix: string, opt: Option<string>, arg: string, gs: seq<string>)
  {
    (forall k :: 0 <= k < |suffix| ==> In(suffix[k], CommandChar)) &&
    OptionalOk(opt) && '}' !in arg && forall k :: 0 <= k < |gs| ==> '}' !in gs[k]
  }

  /** Where neither the end of the text nor a space run leads to a further `{`. */
  predicate NoGroupAfter(s: string, e: nat)
    requires e <= |s|
  {
    Skip(s, e, Space) == |s| || s[Skip(s, e, Space)] != '{'
  }

  /** `(?:\\s*\\{[\\s\\S]*?\\})*` reads exactly the groups `{G1}...{Gn}` when no further group follows. */
  lemma {:induction false} MoreGroupsIs(s: string, p: nat, gs: seq<string>, e: nat)
    requires forall k :: 0 <= k < |gs| ==> '}' !in gs[k]
    requires StartsWith(s, p, Groups(gs)) && e == p + |Groups(gs)|
    requires NoGroupAfter(s, e)
    ensures MoreGroups(s, p) == e
    decreases |gs|
  {
    if gs == [] {
      MoreGroupsStop(s, p);
    } else {
      var h := p + |gs[0]| + 2;
      GroupsLayout(s, p, gs, h);
      MoreGroupsStep(s, p, gs[0], h);
      MoreGroupsIs(s, h, gs[1..], e);
    }
  }

  /** The first group of `{G1}{G2}...` at `p`, and the rest after it. */
  lemma GroupsLayout(s: string, p: nat, gs: seq<string>, h: nat)
    requires gs != [] && StartsWith(s, p, Groups(gs)) && h == p + |gs[0]| + 2
    ensures StartsWith(s, p, "{" + gs[0] + "}") && StartsWith(s, h, Groups(gs[1..]))
    ensures p + |Groups(gs)| == h + |Groups(gs[1..])|
  {
    var g := "{" + gs[0] + "}";
    assert Groups(gs) == g + Groups(gs[1..]);
    StartsWithSplitAt(s, p, g, Groups(gs[1..]), h);
  }

  /** Where no group follows, `(?:\s*\{[\s\S]*?\})*` reads nothing. */
  lemma MoreGroupsStop(s: string, p: nat)
    requires p <= |s| && NoGroupAfter(s, p)
    ensures MoreGroups(s, p) == p
  {
  }

  /** A group `{G}` at `p` is read, and the groups after it are read on. */
  lemma MoreGroupsStep(s: string, p: nat, g: string, h: nat)
    requires '}' !in g && StartsWith(s, p, "{" + g + "}") && h == p + |g| + 2
    ensures h <= |s| && MoreGroups(s, p) == MoreGroups(s, h)
  {
    BraceOpens(s, p, "{" + g + "}");
    SkipIs(s, p, p, Space);
    BraceArgIs(s, p, g);
  }

  /** Where `\\DeclareSUFFIX[OPT]{ARG}...` occurs at `i`, its parts occur one after the other. */
  lemma DeclareLayout(s: string, i: nat, suffix: string, opt: Option<string>, arg: string, gs: seq<string>,
                      j: nat, b: nat, h: nat)
    requires StartsWith(s, i, DeclareText(suffix, opt, arg, gs))
    requires j == i + 8 + |suffix| && b == j + |Optional(opt)| && h == b + |arg| + 2
    ensures StartsWith(s, i, "\\Declare") && StartsWith(s, i + 8, suffix)
    ensures StartsWith(s, j, Optional(opt)) && StartsWith(s, b, "{" + arg + "}")
    ensures StartsWith(s, h, Groups(gs)) && i + |DeclareText(suffix, opt, arg, gs)| == h + |Groups(gs)|
  {
    var d, o, a, g := "\\Declare", Optional(opt), "{" + arg + "}", Groups(gs);
    assert DeclareText(suffix, opt, arg, gs) == d + suffix + o + a + g;
    StartsWithSplitAt(s, i, d + suffix + o + a, g, h);
    StartsWithSplitAt(s, i, d + suffix + o, a, b);
    StartsWithSplitAt(s, i, d + suffix, o, j);
    StartsWithSplitAt(s, i, d, suffix, i + 8);
  }

  /** The scanner reads the name, the option and the first argument of a `\\Declare...` command. */
  lemma DeclareHead(s: string, i: nat, suffix: string, opt: Option<string>, arg: string, j: nat, b: nat, h: nat)
    requires (forall k :: 0 <= k < |suffix| ==> In(suffix[k], CommandChar)) && OptionalOk(opt) && '}' !in arg
    requires StartsWith(s, i + 8, suffix) && j == i + 8 + |suffix|
    requires StartsWith(s, j, Optional(opt)) && b == j + |Optional(opt)|
    requires StartsWith(s, b, "{" + arg + "}") && h == b + |arg| + 2
    ensures j <= |s| && Skip(s, i + 8, CommandChar) == j
    ensures Skip(s, OptBracket(s, OptStar(s, j)), Space) == b
    ensures BraceArg(s, b) == Some(Hit(h, arg))
  {
    BraceOpens(s, b, "{" + arg + "}");
    OptionalOpens(s, j, opt);
    DeclareSuffix(s, i + 8, suffix, j);
    DeclareArgument(s, j, opt, arg, b, h);
  }

  /** `[a-zA-Z@]*` reads the whole suffix of `\\Declare`. */
  lemma DeclareSuffix(s: string, n: nat, suffix: string, j: nat)
    requires forall k :: 0 <= k < |suffix| ==> In(suffix[k], CommandChar)
    requires StartsWith(s, n, suffix) && j == n + |suffix|
    requires j == |s| || !In(s[j], CommandChar)
    ensures j <= |s| && Skip(s, n, CommandChar) == j
  {
    StartsWithChars(s, n, suffix);
    SkipIs(s, n, j, CommandChar);
  }

  /** `\\*?(?:\\[[^\\]]*\\])?\\s*\\{[^}]*\\}` reads `[OPT]{ARG}` at `j`. */
  lemma DeclareArgument(s: string, j: nat, opt: Option<string>, arg: string, b: nat, h: nat)
    requires OptionalOk(opt) && '}' !in arg
    requires StartsWith(s, j, Optional(opt)) && b == j + |Optional(opt)|
    requires StartsWith(s, b, "{" + arg + "}") && h == b + |arg| + 2
    ensures Skip(s, OptBracket(s, OptStar(s, j)), Space) == b
    ensures BraceArg(s, b) == Some(Hit(h, arg))
  {
    BraceOpens(s, b, "{" + arg + "}");
    OptionalOpens(s, j, opt);
    AfterOptionalIs(s, j, opt);
    SkipIs(s, j, j, Space);
    BraceArgIs(s, b, arg);
  }

  /**
    The `\\Declare...` pass puts one space in place of `\\DeclareSUFFIX[OPT]{ARG}{G1}...{Gn}`
    and goes on after it, when no further brace group follows.
   */
  lemma DeclareRemoved(s: string, i: nat, suffix: string, opt: Option<string>, arg: string, gs: seq<string>,
                       e: nat)
    requires DeclareOk(suffix, opt, arg, gs)
    requires StartsWith(s, i, DeclareText(suffix, opt, arg, gs)) && e == i + |DeclareText(suffix, opt, arg, gs)|
    requires NoGroupAfter(s, e)
    ensures i < e
    ensures ReplaceFrom(Declare, s, i) == " " + ReplaceFrom(Declare, s, e)
  {
    var j := i + 8 + |suffix|;
    var b := j + |Optional(opt)|;
    var h := b + |arg| + 2;
    DeclareLayout(s, i, suffix, opt, arg, gs, j, b, h);
    DeclareHead(s, i, suffix, opt, arg, j, b, h);
    MoreGroupsIs(s, h, gs, e);
    DeclareAtIs(s, i, j, b, h, arg, e);
    MatchDeclare(s, i);
    ReplaceAtSpaceHit(Declare, s, i, e, "");
  }

  /** The `\Declare...` scanner, once its name, option, argument and groups are read. */
  lemma DeclareAtIs(s: string, i: nat, j: nat, b: nat, h: nat, arg: string, e: nat)
    requires i <= |s| && StartsWith(s, i, "\\Declare")
    requires j <= |s| && Skip(s, i + 8, CommandChar) == j
    requires b <= |s| && Skip(s, OptBracket(s, OptStar(s, j)), Space) == b
    requires BraceArg(s, b) == Some(Hit(h, arg)) && MoreGroups(s, h) == e
    ensures DeclareAt(s, i) == Some(Hit(e, ""))
  {
    var k := OptBracket(s, OptStar(s, Skip(s, i + 8, CommandChar)));
    assert Skip(s, k, Space) == b;
  }

  lemma MatchDeclare(s: string, i: nat)
    requires i < |s|
    ensures MatchAt(Declare, s, i) == DeclareAt(s, i)
  {
  }

  /** A `\\Declare...` command written on its own becomes one space. */
  lemma DeclareWhole(suffix: string, opt: Option<string>, arg: string, gs: seq<string>)
    requires DeclareOk(suffix, opt, arg, gs)
    ensures Replace(Declare, DeclareText(suffix, opt, arg, gs)) == " "
  {
    var t := DeclareText(suffix, opt, arg, gs);
    assert StartsWith(t, 0, t);
    SkipIs(t, |t|, |t|, Space);
    DeclareRemoved(t, 0, suffix, opt, arg, gs, |t|);
  }

  // ---------------------------------------------------------------------------------
  // References and citations

  /** An alternation whose earlier names start with other letters reaches the name at `k`. */
  lemma {:induction false} RefAtPick(s: string, i: nat, names: seq<string>, k: nat)
    requires i <= |s| && k < |names|
    requires forall j :: 0 <= j < |names| ==> |names[j]| > 0
    requires forall j :: 0 <= j < k ==> names[j][0] != names[k][0]
    requires StartsWith(s, i, "\\" + names[k])
    ensures RefAt(s, i, names) == RefAt(s, i, names[k..])
    decreases k
  {
    if k > 0 {
      StartsWithChars(s, i, "\\" + names[k]);
      assert ("\\" + names[k])[1] == names[k][0];
      NotStartsWith(s, i, "\\" + names[0], 1);
      var rest := names[1..];
      assert rest[k - 1..] == names[k..];
      RefAtPick(s, i, rest, k - 1);
    } else {
      assert names[0..] == names;
    }
  }

  /** Names that are non-empty and start with pairwise different letters. */
  predicate DistinctInitials(names: seq<string>)
  {
    (forall j :: 0 <= j < |names| ==> |names[j]| > 0) &&
    forall j, l :: 0 <= j < l < |names| ==> names[j][0] != names[l][0]
  }

  /** `label`, `ref`, `pageref`, `eqref` and `autoref` start with five different letters. */
  lemma RefCommandsDistinct()
    ensures DistinctInitials(RefCommands)
  {
  }

  lemma MatchRef(s: string, i: nat, names: seq<string>)
    requires i < |s|
    ensures MatchAt(Ref(names), s, i) == RefAt(s, i, names)
  {
  }

  /**
    The reference scanner reads `\\NAME{ARG}` when ARG holds no `}` and the names before NAME
    in the alternation start with other letters.
   */
  lemma RefAtNamed(s: string, i: nat, names: seq<string>, k: nat, arg: string)
    requires k < |names|
    requires forall j :: 0 <= j < |names| ==> |names[j]| > 0
    requires forall j :: 0 <= j < k ==> names[j][0] != names[k][0]
    requires '}' !in arg
    requires StartsWith(s, i, "\\" + names[k])
    requires StartsWith(s, i + 1 + |names[k]|, "{" + arg + "}")
    ensures i < |s|
    ensures RefAt(s, i, names) == Some(Hit(i + 1 + |names[k]| + |arg| + 2, arg))
  {
    var b := i + 1 + |names[k]|;
    BraceOpens(s, b, "{" + arg + "}");
    RefAtPick(s, i, names, k);
    BraceArgIs(s, b, arg);
    RefAtFirst(s, i, names[k..], b);
  }

  /** The first alternative of the reference scanner, when it matches. */
  lemma RefAtFirst(s: string, i: nat, names: seq<string>, b: nat)
    requires |names| > 0 && b == i + 1 + |names[0]|
    requires StartsWith(s, i, "\\" + names[0])
    requires b < |s| && s[b] == '{'
    requires BraceArg(s, b).Some?
    ensures RefAt(s, i, names) == BraceArg(s, b)
  {
    assert OptStar(s, b) == b;
    SkipIs(s, b, b, Space);
  }

  /**
    The reference pass puts one space in place of `\\NAME{ARG}`, for each NAME of its list, and
    goes on after it; with `LabelRef` the names are `label`, `ref`, `pageref`, `eqref` and
    `autoref` (see `RefCommandsDistinct`).
   */
  lemma RefRemoved(s: string, i: nat, names: seq<string>, k: nat, arg: string, e: nat)
    requires DistinctInitials(names) && k < |names|
    requires '}' !in arg
    requires StartsWith(s, i, "\\" + names[k])
    requires StartsWith(s, i + 1 + |names[k]|, "{" + arg + "}")
    requires e == i + 1 + |names[k]| + |arg| + 2
    ensures e <= |s|
    ensures ReplaceFrom(Ref(names), s, i) == " " + ReplaceFrom(Ref(names), s, e)
  {
    RefAtNamed(s, i, names, k, arg);
    MatchRef(s, i, names);
    ReplaceAtHit(Ref(names), s, i, Hit(e, arg));
  }

  /** `\\citeSUFFIX[OPT]{KEYS}`, for a suffix of word characters such as `p`, `t` or `alp`. */
  function CiteCall(suffix: string, opt: Option<string>, keys: string): string
  {
    "\\cite" + suffix + Optional(opt) + ("{" + keys + "}")
  }

  /** A run of word characters, as `\\w*` reads it. */
  predicate IsWordRun(suffix: string)
  {
    forall k :: 0 <= k < |suffix| ==> IsWordChar(suffix[k])
  }

  /** The citation scanner reads `\\citeSUFFIX[OPT]{KEYS}` whole and captures KEYS. */
  lemma CiteAtIs(s: string, i: nat, suffix: string, opt: Option<string>, keys: string, j: nat, b: nat, e: nat)
    requires IsWordRun(suffix) && OptionalOk(opt)
    requires '}' !in keys
    requires StartsWith(s, i, "\\cite" + suffix) && j == i + 5 + |suffix|
    requires StartsWith(s, j, Optional(opt)) && b == j + |Optional(opt)|
    requires StartsWith(s, b, "{" + keys + "}") && e == b + |keys| + 2
    ensures i < |s|
    ensures MatchAt(Cite, s, i) == Some(Hit(e, keys))
  {
    CiteScanSteps(s, i, suffix, opt, keys, j, b);
    CiteAtSteps(s, i, j, b, Hit(e, keys));
  }

  /** Where each step of the citation scanner arrives on `\\citeSUFFIX[OPT]{KEYS}`. */
  lemma CiteScanSteps(s: string, i: nat, suffix: string, opt: Option<string>, keys: string, j: nat, b: nat)
    requires IsWordRun(suffix) && OptionalOk(opt)
    requires '}' !in keys
    requires StartsWith(s, i, "\\cite" + suffix) && j == i + 5 + |suffix|
    requires StartsWith(s, j, Optional(opt)) && b == j + |Optional(opt)|
    requires StartsWith(s, b, "{" + keys + "}")
    ensures i < |s| && StartsWith(s, i, "\\cite")
    ensures i + 5 <= j <= |s| && Skip(s, i + 5, WordChar) == j
    ensures OptStar(s, j) == j && AfterOptional(s, j) == b
    ensures BraceArg(s, b) == Some(Hit(b + |keys| + 2, keys))
  {
    StartsWithSplit(s, i, "\\cite", suffix);
    StartsWithChars(s, i + 5, suffix);
    BraceArgAt(s, b, keys);
    OptionalOpens(s, j, opt);
    SkipIs(s, i + 5, j, WordChar);
    AfterOptionalIs(s, j, opt);
  }

  lemma CiteAtSteps(s: string, i: nat, j: nat, b: nat, h: Hit)
    requires i < |s| && StartsWith(s, i, "\\cite")
    requires i + 5 <= j <= |s| && Skip(s, i + 5, WordChar) == j
    requires OptStar(s, j) == j && AfterOptional(s, j) == b
    requires BraceArg(s, b) == Some(h)
    ensures MatchAt(Cite, s, i) == Some(h)
  {
  }

  /** The citation layout, part by part. */
  lemma CiteCallParts(s: string, i: nat, suffix: string, opt: Option<string>, keys: string)
    requires StartsWith(s, i, CiteCall(suffix, opt, keys))
    ensures StartsWith(s, i, "\\cite" + suffix)
    ensures StartsWith(s, i + 5 + |suffix|, Optional(opt))
    ensures StartsWith(s, i + 5 + |suffix| + |Optional(opt)|, "{" + keys + "}")
    ensures |CiteCall(suffix, opt, keys)| == 5 + |suffix| + |Optional(opt)| + |keys| + 2
  {
    StartsWithSplit(s, i, "\\cite" + suffix + Optional(opt), "{" + keys + "}");
    StartsWithSplit(s, i, "\\cite" + suffix, Optional(opt));
  }

  /** The citation pass puts one space in place of a citation and goes on after it. */
  lemma CiteRemoved(s: string, i: nat, suffix: string, opt: Option<string>, keys: string, j: nat, b: nat, e: nat)
    requires IsWordRun(suffix) && OptionalOk(opt)
    requires '}' !in keys
    requires StartsWith(s, i, "\\cite" + suffix) && j == i + 5 + |suffix|
    requires StartsWith(s, j, Optional(opt)) && b == j + |Optional(opt)|
    requires StartsWith(s, b, "{" + keys + "}") && e == b + |keys| + 2
    ensures e <= |s|
    ensures ReplaceFrom(Cite, s, i) == " " + ReplaceFrom(Cite, s, e)
  {
    CiteAtIs(s, i, suffix, opt, keys, j, b, e);
    ReplaceAtSpaceHit(Cite, s, i, e, keys);
  }

  /**
    A citation on its own: the citation pass turns it into one space, and the global match
    that collects cite keys finds it once, with KEYS as its capture.
   */
  lemma CiteWhole(suffix: string, opt: Option<string>, keys: string)
    requires IsWordRun(suffix) && OptionalOk(opt)
    requires '}' !in keys
    ensures Replace(Cite, CiteCall(suffix, opt, keys)) == " "
    ensures Hits(Cite, CiteCall(suffix, opt, keys)) == [Hit(|CiteCall(suffix, opt, keys)|, keys)]
  {
    var c := CiteCall(suffix, opt, keys);
    assert StartsWith(c, 0, c);
    CiteWholeText(c, suffix, opt, keys);
  }

  lemma CiteWholeText(c: string, suffix: string, opt: Option<string>, keys: string)
    requires IsWordRun(suffix) && OptionalOk(opt)
    requires '}' !in keys
    requires StartsWith(c, 0, CiteCall(suffix, opt, keys)) && |c| == |CiteCall(suffix, opt, keys)|
    ensures Replace(Cite, c) == " "
    ensures Hits(Cite, c) == [Hit(|c|, keys)]
  {
    CiteMatchAt(c, 0, suffix, opt, keys, |c|);
    var h := Hit(|c|, keys);
    WholeMatch(Cite, c, h);
    SubstituteSpace(Cite, h);
  }

  /** A citation call where the text has one is matched whole, with KEYS as its capture. */
  lemma CiteMatchAt(s: string, i: nat, suffix: string, opt: Option<string>, keys: string, e: nat)
    requires IsWordRun(suffix) && OptionalOk(opt)
    requires '}' !in keys
    requires StartsWith(s, i, CiteCall(suffix, opt, keys)) && e == i + |CiteCall(suffix, opt, keys)|
    ensures i < |s| && MatchAt(Cite, s, i) == Some(Hit(e, keys))
  {
    CiteCallParts(s, i, suffix, opt, keys);
    var j := i + 5 + |suffix|;
    CiteAtIs(s, i, suffix, opt, keys, j, j + |Optional(opt)|, e);
  }
}
