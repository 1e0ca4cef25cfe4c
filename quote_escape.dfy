/**
 * The history list's view button carries the item's content inside a
 * single-quoted JavaScript string literal: `onclick="viewItem('<text>')"`
 * (static/js/script.js:124). This module models the escape applied to that
 * text, its inverse, the part of the JavaScript lexer that reads the literal
 * back, and an escape that survives that lexer.
 */
module QuoteEscape {

  import opened Wrappers

  const Quote: char := '\''
  const Backslash: char := '\\'

  /** Number of occurrences of `c` in `s`. */
  function Count(s: string, c: char): nat {
    if s == [] then 0 else (if s[0] == c then 1 else 0) + Count(s[1..], c)
  }

  /**
   * `s.replace(/'/g, "\\'")`: every quote gets a backslash in front of it;
   * nothing else changes.
   */
  function EscapeQuotes(s: string): (r: string)
    ensures |r| == |s| + Count(s, Quote)
    ensures forall k :: 0 <= k < |r| && r[k] == Quote ==> 0 < k && r[k - 1] == Backslash
  {
    if s == [] then []
    else
      var head := if s[0] == Quote then [Backslash, Quote] else [s[0]];
      var rest := EscapeQuotes(s[1..]);
      assert forall k :: |head| <= k < |head| + |rest| ==> (head + rest)[k] == rest[k - |head|];
      head + rest
  }

  /** Drops the backslash in front of each quote. */
  function UnescapeQuotes(e: string): string {
    if e == [] then []
    else if |e| >= 2 && e[0] == Backslash && e[1] == Quote then [Quote] + UnescapeQuotes(e[2..])
    else [e[0]] + UnescapeQuotes(e[1..])
  }

  /** Deleting the inserted backslashes gives back the input. */
  lemma {:induction false} UnescapeEscapeQuotes(s: string)
    ensures UnescapeQuotes(EscapeQuotes(s)) == s
  {
    if s != [] {
      var rest := EscapeQuotes(s[1..]);
      UnescapeEscapeQuotes(s[1..]);
      if s[0] == Quote {
        assert EscapeQuotes(s) == [Backslash, Quote] + rest;
        assert (([Backslash, Quote] + rest)[2..]) == rest;
      } else {
        assert EscapeQuotes(s) == [s[0]] + rest;
        assert rest != [] ==> rest[0] != Quote;
        assert ([s[0]] + rest)[1..] == rest;
      }
    }
  }

  /** No two inputs escape to the same text. */
  lemma EscapeQuotesInjective(s: string, t: string)
    requires EscapeQuotes(s) == EscapeQuotes(t)
    ensures s == t
  {
    UnescapeEscapeQuotes(s);
    UnescapeEscapeQuotes(t);
  }

  /** What the lexer makes of the characters of a single-quoted literal. */
  datatype Lexed =
    | Literal(value: string, rest: string)  // the literal's value, and the text after its closing quote
    | SyntaxError                           // an unterminated literal or a raw line break inside it
    | Unsupported                           // an escape this model does not decode (see EscapeValue)

  /**
   * The character an escape sequence `\c` stands for (section 12.9.4 of
   * ECMA-262): the single escape characters, and any other character
   * standing for itself. Legacy octal, `\0`, the non-octal digit escapes
   * `\8` and `\9`, `\x`, `\u` and line continuations are not decoded here.
   */
  function EscapeValue(c: char): Option<char> {
    if c == 'n' then Some('\n')
    else if c == 'r' then Some('\r')
    else if c == 't' then Some('\t')
    else if c == 'b' then Some('\U{8}')
    else if c == 'f' then Some('\U{C}')
    else if c == 'v' then Some('\U{B}')
    else if '0' <= c <= '9' || c == 'x' || c == 'u' || IsLineTerminator(c) then None
    else Some(c)
  }

  predicate IsLineTerminator(c: char) {
    c == '\n' || c == '\r' || c == '\U{2028}' || c == '\U{2029}'
  }

  /**
   * Reads the body of a single-quoted literal whose opening quote has been
   * consumed: up to and including the first unescaped quote.
   */
  function LexQuoted(t: string): Lexed
    decreases |t|
  {
    if t == [] then SyntaxError
    else if t[0] == Quote then Literal([], t[1..])
    else if t[0] == '\n' || t[0] == '\r' then SyntaxError
    else if t[0] == Backslash then
      if |t| < 2 then SyntaxError
      else match EscapeValue(t[1])
        case None => Unsupported
        case Some(c) => Prepend(c, LexQuoted(t[2..]))
    else Prepend(t[0], LexQuoted(t[1..]))
  }

  function Prepend(c: char, l: Lexed): Lexed {
    match l
    case Literal(v, rest) => Literal([c] + v, rest)
    case other => other
  }

  /** The text after `viewItem('` in the handler, read back by the lexer. */
  function LexViewArgument(escaped: string): Lexed {
    LexQuoted(escaped + "')")
  }

  /**
   * As written, the escape loses the content's backslashes: the text `\n`
   * (backslash, letter n) reaches `viewItem` as a line break.
   */
  lemma EscapeQuotesCorruptsBackslash()
    ensures EscapeQuotes("\\n") == "\\n"
    ensures LexViewArgument(EscapeQuotes("\\n")) == Literal("\n", ")")
  {
    assert EscapeQuotes("\\n") == "\\" + EscapeQuotes("n");
    assert LexQuoted("')") == Literal([], ")");
  }

  /**
   * As written, the content `\` (a single backslash) leaves the literal
   * unterminated: its backslash escapes the closing quote.
   */
  lemma EscapeQuotesBreaksTrailingBackslash()
    ensures LexViewArgument(EscapeQuotes("\\")) == SyntaxError
  {
    assert EscapeQuotes("\\") == "\\";
    assert ")"[1..] == [] && LexQuoted(")") == SyntaxError;
    var t := "\\')";
    assert t[0] == Backslash && t[1] == Quote && t[2..] == ")";
    assert EscapeValue(Quote) == Some(Quote);
    assert LexQuoted(t) == Prepend(Quote, LexQuoted(")"));
    assert EscapeQuotes("\\") + "')" == t;
  }

  /** The escape of one character inside a single-quoted literal. */
  function EscapeChar(c: char): string {
    if c == Backslash then [Backslash, Backslash]
    else if c == Quote then [Backslash, Quote]
    else if c == '\n' then [Backslash, 'n']
    else if c == '\r' then [Backslash, 'r']
    else [c]
  }

  /**
   * As written, a backslash before a quote in the content cancels the
   * inserted one: the content `\'` closes the literal after one backslash,
   * leaving `')` behind it, so the handler text is not a single call.
   */
  lemma EscapeQuotesClosesEarly()
    ensures LexViewArgument(EscapeQuotes("\\'")) == Literal("\\", "')")
  {
    assert EscapeQuotes("\\'") == [Backslash, Backslash, Quote] by {
      assert EscapeQuotes("'") == [Backslash, Quote];
    }
    var t := [Backslash, Backslash, Quote, Quote, ')'];
    assert EscapeQuotes("\\'") + "')" == t;
    assert t[2..] == "'')" && "'')"[1..] == "')";
    assert LexQuoted("'')") == Literal([], "')");
  }

  /**
   * The escape the view button needs: backslashes, quotes and raw line
   * breaks are escaped, everything else is kept.
   */
  function EscapeForLiteral(s: string): (r: string)
    ensures |r| == |s| + Count(s, Backslash) + Count(s, Quote) + Count(s, '\n') + Count(s, '\r')
  {
    if s == [] then [] else EscapeChar(s[0]) + EscapeForLiteral(s[1..])
  }

  /** The lexer reads one escaped character back as that character. */
  lemma LexEscapeChar(c: char, tail: string)
    ensures LexQuoted(EscapeChar(c) + tail) == Prepend(c, LexQuoted(tail))
  {
    var t := EscapeChar(c) + tail;
    if |EscapeChar(c)| == 2 {
      assert t[2..] == tail;
    } else {
      assert t[1..] == tail;
    }
  }

  /** Any content survives the escape and the lexer, whatever follows the literal. */
  lemma {:induction false} LexEscapeForLiteral(s: string, after: string)
    ensures LexQuoted(EscapeForLiteral(s) + [Quote] + after) == Literal(s, after)
  {
    if s == [] {
      assert EscapeForLiteral(s) + [Quote] + after == [Quote] + after;
    } else {
      var tail := EscapeForLiteral(s[1..]) + [Quote] + after;
      LexEscapeForLiteral(s[1..], after);
      assert EscapeForLiteral(s) + [Quote] + after == EscapeChar(s[0]) + tail;
      LexEscapeChar(s[0], tail);
      assert [s[0]] + s[1..] == s;
    }
  }

  /** The view button with the corrected escape hands `viewItem` exactly the content. */
  lemma ViewArgumentRoundTrip(s: string)
    ensures LexViewArgument(EscapeForLiteral(s)) == Literal(s, ")")
  {
    assert EscapeForLiteral(s) + "')" == EscapeForLiteral(s) + [Quote] + ")";
    LexEscapeForLiteral(s, ")");
  }

  /** Content the escape as written carries into the literal intact: no backslash and no raw line break. */
  predicate PlainForLiteral(s: string) {
    forall k :: 0 <= k < |s| ==> s[k] != Backslash && s[k] != '\n' && s[k] != '\r'
  }

  /** On such content the view button as written hands `viewItem` exactly the content. */
  lemma PlainViewArgumentRoundTrip(s: string)
    requires PlainForLiteral(s)
    ensures LexViewArgument(EscapeQuotes(s)) == Literal(s, ")")
  {
    EscapeQuotesAgreesWithoutBackslash(s);
    ViewArgumentRoundTrip(s);
  }

  /**
   * On content without backslashes and raw line breaks the escape as written
   * agrees with the corrected one, so such content reaches `viewItem` intact.
   */
  lemma {:induction false} EscapeQuotesAgreesWithoutBackslash(s: string)
    requires PlainForLiteral(s)
    ensures EscapeQuotes(s) == EscapeForLiteral(s)
  {
    if s != [] {
      EscapeQuotesAgreesWithoutBackslash(s[1..]);
    }
  }
}
