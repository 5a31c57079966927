/** The optional value the model uses for "no match" and "absent". */
module Wrappers {
  datatype Option<T> = None | Some(value: T)
}

/**
  Character classes used by the analyzer's regular expressions.

  `IsSpace` is JavaScript's `\s` (its WhiteSpace and LineTerminator code points), which is
  also the set that `String.prototype.trim` removes. `IsLetterOrDigit` stands for the Unicode
  class `[\p{L}\p{N}]`: it is exact for code points below U+0100 and approximate above it.
 */
module Chars {

  /** `\s`: tab to carriage return and the space, then the wider Unicode spaces. */
  predicate IsSpace(c: char)
  {
    if c <= ' ' then
      c == ' ' || '\t' <= c <= '\r'
    else
      '\U{00A0}' <= c &&
      (c == '\U{00A0}' || c == '\U{1680}' || ('\U{2000}' <= c <= '\U{200A}') ||
       c == '\U{2028}' || c == '\U{2029}' || c == '\U{202F}' || c == '\U{205F}' ||
       c == '\U{3000}' || c == '\U{FEFF}')
  }

  /** `[\t\f\v]` */
  predicate IsFormatSpace(c: char)
  {
    c == '\t' || c == '\U{000C}' || c == '\U{000B}'
  }

  /** `[a-zA-Z]` */
  predicate IsAsciiLetter(c: char)
  {
    ('a' <= c <= 'z') || ('A' <= c <= 'Z')
  }

  predicate IsAsciiDigit(c: char)
  {
    '0' <= c <= '9'
  }

  /** `\w`, that is `[A-Za-z0-9_]` */
  predicate IsWordChar(c: char)
  {
    IsAsciiLetter(c) || IsAsciiDigit(c) || c == '_'
  }

  /** Letters and numbers of the Latin-1 Supplement block (U+0080 to U+00FF). */
  predicate IsLatin1LetterOrDigit(c: char)
  {
    c == '\U{00AA}' || c == '\U{00B2}' || c == '\U{00B3}' || c == '\U{00B5}' ||
    c == '\U{00B9}' || c == '\U{00BA}' || ('\U{00BC}' <= c <= '\U{00BE}') ||
    ('\U{00C0}' <= c <= '\U{00D6}') || ('\U{00D8}' <= c <= '\U{00F6}') ||
    ('\U{00F8}' <= c <= '\U{00FF}')
  }

  /**
    `[\p{L}\p{N}]`. Above U+00FF every code point that is neither whitespace nor in the
    General Punctuation block (U+2000 to U+206F) is taken to be a letter or digit.
   */
  predicate IsLetterOrDigit(c: char)
    ensures IsLetterOrDigit(c) ==> !IsSpace(c)
  {
    if c < '\U{0080}' then IsAsciiLetter(c) || IsAsciiDigit(c)
    else if c <= '\U{00FF}' then IsLatin1LetterOrDigit(c)
    else !IsSpace(c) && !('\U{2000}' <= c <= '\U{206F}')
  }
}
