/**
 * Quote resolution of one token: Parser.evalQuotes (Parser.java lines 108-121).
 *
 * The regex `'([^']*)'|"((?:\\.|[^"])*?)"` is applied with replaceAll: a
 * closed single-quoted span is replaced by its content, a closed
 * double-quoted span by its content after escape processing, and every
 * other character (including a quote that closes nothing) is kept.
 */
module Quotes {
  import opened Wrappers
  import opened Lexical

  /**
   * `replaceAll("\\\\x", y)`: every two-character sequence `\x` becomes the
   * single character `y`, scanning left to right without overlaps.
   */
  function ReplaceEscape(c: string, x: char, y: char): (r: string)
    ensures |r| <= |c|
    decreases |c|
  {
    if c == [] then []
    else if |c| >= 2 && c[0] == '\\' && c[1] == x then [y] + ReplaceEscape(c[2..], x, y)
    else [c[0]] + ReplaceEscape(c[1..], x, y)
  }

  /**
   * How Matcher.replaceAll reads its replacement string: a backslash makes
   * the next character literal. A `$` is kept literally here because line 117
   * escapes every `$` before the content becomes a replacement string.
   */
  function Unescape(c: string): (r: string)
    ensures |r| <= |c|
    decreases |c|
  {
    if c == [] then []
    else if c[0] == '\\' && |c| >= 2 then [c[1]] + Unescape(c[2..])
    else [c[0]] + Unescape(c[1..])
  }

  /** Weak quoting: the content of a `"…"` span as line 117 rewrites it. */
  function Weak(c: string): string
  {
    Unescape(ReplaceEscape(ReplaceEscape(c, 'n', '\n'), 't', '\t'))
  }

  predicate HasQuote(t: string)
  {
    '"' in t || '\'' in t
  }

  /**
   * Resolves the quotes of a token. The result is never longer than the
   * token, and a token without quote characters is returned unchanged.
   */
  function EvalQuotes(t: string): (r: string)
    ensures |r| <= |t|
    ensures !HasQuote(t) ==> r == t
    decreases |t|
  {
    if t == [] then []
    else if t[0] == '\'' && SingleQuotedLen(t[1..]).Some? then
      var n := SingleQuotedLen(t[1..]).value;
      t[1..n] + EvalQuotes(t[n + 1..])
    else if t[0] == '"' && DoubleQuotedLen(t[1..]).Some? then
      var n := DoubleQuotedLen(t[1..]).value;
      Weak(t[1..n]) + EvalQuotes(t[n + 1..])
    else
      assert !HasQuote(t) ==> !HasQuote(t[1..]) by {
        assert forall ch :: ch in t[1..] ==> ch in t;
      }
      [t[0]] + EvalQuotes(t[1..])
  }

  /** A character that is not a quote is copied. */
  lemma EvalPlainChar(t: string)
    requires t != [] && !IsQuote(t[0])
    ensures EvalQuotes(t) == [t[0]] + EvalQuotes(t[1..])
  {
  }

  /** A closed double-quoted span at the front is replaced by its weak reading. */
  lemma EvalDoubleStep(t: string)
    requires t != [] && t[0] == '"' && DoubleQuotedLen(t[1..]).Some?
    ensures var n := DoubleQuotedLen(t[1..]).value;
      EvalQuotes(t) == Weak(t[1..n]) + EvalQuotes(t[n + 1..])
  {
    assert t[0] != '\'';
  }

  /** Unquoted text in front of the rest passes through unchanged. */
  lemma {:induction false} EvalPlainPrefix(a: string, rest: string)
    requires !HasQuote(a)
    ensures EvalQuotes(a + rest) == a + EvalQuotes(rest)
  {
    if a == [] {
      assert a + rest == rest;
    } else {
      assert a[0] in a;
      assert forall ch :: ch in a[1..] ==> ch in a;
      EvalPlainPrefix(a[1..], rest);
      EvalPlainStep(a[0], a[1..], rest);
      assert a == [a[0]] + a[1..];
    }
  }

  /** One step of EvalPlainPrefix: a character that is not a quote, in front. */
  lemma EvalPlainStep(c: char, a: string, rest: string)
    requires !IsQuote(c)
    requires EvalQuotes(a + rest) == a + EvalQuotes(rest)
    ensures EvalQuotes([c] + a + rest) == [c] + a + EvalQuotes(rest)
  {
    ConsSplit(c, a, rest);
    EvalPlainChar([c] + a + rest);
    ConsAppend(c, a, EvalQuotes(rest));
  }

  /**
   * Proof helpers: taking apart and regrouping a character in front of two
   * strings, kept apart so that the sequence equalities are not proved next
   * to the terms of the recursive functions, where they are costly.
   */
  lemma ConsSplit(c: char, a: string, rest: string)
    ensures ([c] + a + rest)[0] == c && ([c] + a + rest)[1..] == a + rest
  {
  }

  lemma ConsAppend(c: char, a: string, e: string)
    ensures [c] + (a + e) == [c] + a + e
  {
  }

  /**
   * Strong quoting: a single-quoted span loses its delimiters and keeps
   * its content verbatim, `$` and backslashes included.
   */
  lemma {:induction false} EvalSingleQuoted(x: string, rest: string)
    requires '\'' !in x
    ensures EvalQuotes(['\''] + x + ['\''] + rest) == x + EvalQuotes(rest)
  {
    var t := ['\''] + x + ['\''] + rest;
    assert t[1..] == x + ['\''] + rest;
    assert x + ['\''] + rest == x + (['\''] + rest);
    SingleQuotedFirst(x, rest);
    assert t[1..|x| + 1] == x;
    assert t[|x| + 2..] == rest;
  }

  /** Single quoting is undone by quote resolution. */
  lemma SingleQuoteRoundTrip(x: string)
    requires '\'' !in x
    ensures EvalQuotes(['\''] + x + ['\'']) == x
  {
    EvalSingleQuoted(x, []);
    assert ['\''] + x + ['\''] + [] == ['\''] + x + ['\''];
  }

  lemma {:induction false} ReplaceEscapeQuotes(x: string, e: char, y: char)
    requires '\\' !in x && e != '"'
    ensures ReplaceEscape(EscapeQuotes(x), e, y) == EscapeQuotes(x)
  {
    if x != [] {
      assert x[0] in x;
      assert '\\' !in x[1..] by {
        assert forall c :: c in x[1..] ==> c in x;
      }
      ReplaceEscapeQuotes(x[1..], e, y);
      if x[0] == '"' {
        ReplaceEscapeQuoteStep(EscapeQuotes(x[1..]), e, y);
      } else {
        ReplaceEscapePlainStep(x[0], EscapeQuotes(x[1..]), e, y);
      }
    }
  }

  /** An escaped `"` is not an escape the `\n`/`\t` rewriting touches. */
  lemma ReplaceEscapeQuoteStep(q: string, e: char, y: char)
    requires e != '"' && ReplaceEscape(q, e, y) == q
    ensures ReplaceEscape(['\\', '"'] + q, e, y) == ['\\', '"'] + q
  {
    var p := ['"'] + q;
    assert ['\\', '"'] + q == ['\\'] + p;
    assert p[1..] == q;
    assert (['\\'] + p)[1..] == p;
  }

  /** A character other than a backslash is copied by the rewriting. */
  lemma ReplaceEscapePlainStep(c: char, q: string, e: char, y: char)
    requires c != '\\' && ReplaceEscape(q, e, y) == q
    ensures ReplaceEscape([c] + q, e, y) == [c] + q
  {
    assert ([c] + q)[1..] == q;
  }

  lemma {:induction false} UnescapeQuotes(x: string)
    requires '\\' !in x
    ensures Unescape(EscapeQuotes(x)) == x
  {
    if x != [] {
      assert forall c :: c in x[1..] ==> c in x;
      assert x[0] in x;
      UnescapeQuotes(x[1..]);
      var q := EscapeQuotes(x);
      if x[0] == '"' {
        assert q[2..] == EscapeQuotes(x[1..]);
      } else {
        assert q[1..] == EscapeQuotes(x[1..]);
      }
    }
  }

  /**
   * Weak quoting round trip: for text without backslashes, escaping its
   * double quotes and wrapping it in `"…"` is undone by quote resolution.
   */
  lemma EvalDoubleQuoted(x: string, rest: string)
    requires '\\' !in x
    ensures EvalQuotes(['"'] + EscapeQuotes(x) + ['"'] + rest) == x + EvalQuotes(rest)
  {
    var c := EscapeQuotes(x);
    assert Weak(c) == x by {
      WeakEscaped(x);
    }
    assert DoubleQuotedLen(c + ['"'] + rest) == Some(|c| + 1) by {
      DoubleQuotedEscaped(x, rest);
    }
    EvalDoubleSpan(c, rest);
  }

  /** A double-quoted span that closes where it should is replaced by its weak reading. */
  lemma EvalDoubleSpan(c: string, rest: string)
    requires DoubleQuotedLen(c + ['"'] + rest) == Some(|c| + 1)
    ensures EvalQuotes(['"'] + c + ['"'] + rest) == Weak(c) + EvalQuotes(rest)
  {
    var t := ['"'] + c + ['"'] + rest;
    assert t[1..] == c + ['"'] + rest;
    EvalDoubleStep(t);
    assert t[1..|c| + 1] == c;
    assert t[|c| + 2..] == rest;
  }

  /** Weak quoting's escape handling undoes EscapeQuotes on backslash-free text. */
  lemma WeakEscaped(x: string)
    requires '\\' !in x
    ensures Weak(EscapeQuotes(x)) == x
  {
    ReplaceEscapeQuotes(x, 'n', '\n');
    ReplaceEscapeQuotes(x, 't', '\t');
    UnescapeQuotes(x);
  }

  lemma {:induction false} ReplacePlainPrefix(a: string, rest: string, x: char, y: char)
    requires '\\' !in a
    ensures ReplaceEscape(a + rest, x, y) == a + ReplaceEscape(rest, x, y)
  {
    if a == [] {
      assert a + rest == rest;
    } else {
      assert a[0] in a;
      assert forall c :: c in a[1..] ==> c in a;
      ReplacePlainPrefix(a[1..], rest, x, y);
      ReplacePlainStep(a[0], a[1..], rest, x, y);
      assert a == [a[0]] + a[1..];
    }
  }

  /** One step of ReplacePlainPrefix: a character other than a backslash, in front. */
  lemma ReplacePlainStep(c: char, a: string, rest: string, x: char, y: char)
    requires c != '\\'
    requires ReplaceEscape(a + rest, x, y) == a + ReplaceEscape(rest, x, y)
    ensures ReplaceEscape([c] + a + rest, x, y) == [c] + a + ReplaceEscape(rest, x, y)
  {
    ConsSplit(c, a, rest);
    ConsAppend(c, a, ReplaceEscape(rest, x, y));
  }

  lemma {:induction false} UnescapePlainPrefix(a: string, rest: string)
    requires '\\' !in a
    ensures Unescape(a + rest) == a + Unescape(rest)
  {
    if a == [] {
      assert a + rest == rest;
    } else {
      assert a[0] in a;
      assert forall c :: c in a[1..] ==> c in a;
      UnescapePlainPrefix(a[1..], rest);
      UnescapePlainStep(a[0], a[1..], rest);
      assert a == [a[0]] + a[1..];
    }
  }

  /** One step of UnescapePlainPrefix: a character other than a backslash, in front. */
  lemma UnescapePlainStep(c: char, a: string, rest: string)
    requires c != '\\'
    requires Unescape(a + rest) == a + Unescape(rest)
    ensures Unescape([c] + a + rest) == [c] + a + Unescape(rest)
  {
    ConsSplit(c, a, rest);
    ConsAppend(c, a, Unescape(rest));
  }

  /** Double-quoted content without backslashes is kept as written, `$` included. */
  lemma WeakPlain(c: string)
    requires '\\' !in c
    ensures Weak(c) == c
  {
    ReplacePlainPrefix(c, [], 'n', '\n');
    ReplacePlainPrefix(c, [], 't', '\t');
    UnescapePlainPrefix(c, []);
    assert c + [] == c;
  }

  /** Inside double quotes the two characters `\n` become a newline. */
  lemma WeakNewline(a: string, b: string)
    requires '\\' !in a
    ensures Weak(a + ['\\', 'n'] + b) == a + ['\n'] + Weak(b)
  {
    var n1 := ReplaceEscape(b, 'n', '\n');
    var t1 := ReplaceEscape(n1, 't', '\t');
    var a1 := a + ['\n'];
    assert '\\' !in a1 by {
      assert forall c :: c in a1 ==> c in a || c == '\n';
    }
    assert ReplaceEscape(a + ['\\', 'n'] + b, 'n', '\n') == a1 + n1 by {
      var u := ['\\', 'n'] + b;
      assert a + ['\\', 'n'] + b == a + u;
      ReplacePlainPrefix(a, u, 'n', '\n');
      assert u[2..] == b;
      assert ReplaceEscape(u, 'n', '\n') == ['\n'] + n1;
      assert a + (['\n'] + n1) == a1 + n1;
    }
    assert ReplaceEscape(a1 + n1, 't', '\t') == a1 + t1 by {
      ReplacePlainPrefix(a1, n1, 't', '\t');
    }
    assert Unescape(a1 + t1) == a1 + Unescape(t1) by {
      UnescapePlainPrefix(a1, t1);
    }
  }

  /** Inside double quotes the two characters `\t` become a tab. */
  lemma WeakTab(a: string, b: string)
    requires '\\' !in a
    ensures Weak(a + ['\\', 't'] + b) == a + ['\t'] + Weak(b)
  {
    var n1 := ReplaceEscape(b, 'n', '\n');
    var t1 := ReplaceEscape(n1, 't', '\t');
    var a1 := a + ['\t'];
    assert '\\' !in a1 by {
      assert forall c :: c in a1 ==> c in a || c == '\t';
    }
    assert ReplaceEscape(a + ['\\', 't'] + b, 'n', '\n') == a + (['\\', 't'] + n1) by {
      var u := ['\\', 't'] + b;
      assert a + ['\\', 't'] + b == a + u;
      ReplacePlainPrefix(a, u, 'n', '\n');
      assert u[1..] == ['t'] + b && (['t'] + b)[1..] == b;
      assert ReplaceEscape(u, 'n', '\n') == ['\\', 't'] + n1;
    }
    assert ReplaceEscape(a + (['\\', 't'] + n1), 't', '\t') == a1 + t1 by {
      var v := ['\\', 't'] + n1;
      ReplacePlainPrefix(a, v, 't', '\t');
      assert v[2..] == n1;
      assert ReplaceEscape(v, 't', '\t') == ['\t'] + t1;
      assert a + (['\t'] + t1) == a1 + t1;
    }
    assert Unescape(a1 + t1) == a1 + Unescape(t1) by {
      UnescapePlainPrefix(a1, t1);
    }
  }
}
