/**
 * Character classes and the two quoted-span matchers shared by the
 * parser's regular expressions (Parser.java lines 109 and 135).
 *
 * Every matcher here works on the text that FOLLOWS an opening quote and
 * returns the length of the span up to and including the closing quote,
 * the way java.util.regex would match it at that position.
 */
module Lexical {
  import opened Wrappers

  /** Java's `\s`: space, tab, newline, vertical tab, form feed, carriage return. */
  predicate IsSpace(c: char)
  {
    c == ' ' || c == '\t' || c == '\n' || c == '\U{000B}' || c == '\U{000C}' || c == '\r'
  }

  /** The characters Java's `.` refuses to match (no DOTALL flag). */
  predicate IsLineTerminator(c: char)
  {
    c == '\n' || c == '\r' || c == '\U{0085}' || c == '\U{2028}' || c == '\U{2029}'
  }

  predicate IsQuote(c: char)
  {
    c == '"' || c == '\''
  }

  /** The class `[^|\s"']` of the tokenizer: a character of an unquoted word. */
  predicate IsWordChar(c: char)
  {
    c != '|' && !IsSpace(c) && !IsQuote(c)
  }

  /** Number of occurrences of `c` in `s`. */
  function Count(s: string, c: char): nat
  {
    if s == [] then 0 else (if s[0] == c then 1 else 0) + Count(s[1..], c)
  }

  lemma {:induction false} CountAppend(a: string, b: string, c: char)
    ensures Count(a + b, c) == Count(a, c) + Count(b, c)
  {
    if a == [] {
      assert a + b == b;
    } else {
      assert (a + b)[1..] == a[1..] + b;
      CountAppend(a[1..], b, c);
    }
  }

  lemma {:induction false} CountAbsent(s: string, c: char)
    requires c !in s
    ensures Count(s, c) == 0
  {
    if s != [] {
      assert s[0] != c;
      assert forall x :: x in s[1..] ==> x in s;
      CountAbsent(s[1..], c);
    }
  }

  /** Splitting at the first occurrence of `c`: the count after it is one less. */
  lemma CountAtFirst(s: string, c: char, i: nat)
    requires i < |s| && s[i] == c && c !in s[..i]
    ensures Count(s, c) == 1 + Count(s[i + 1..], c)
  {
    assert s == s[..i] + ([s[i]] + s[i + 1..]);
    CountAppend(s[..i], [s[i]] + s[i + 1..], c);
    CountAbsent(s[..i], c);
    assert ([s[i]] + s[i + 1..])[1..] == s[i + 1..];
  }

  /**
   * `'[^']*'` after its opening quote: the span ends at the first `'`.
   */
  function SingleQuotedLen(u: string): (r: Option<nat>)
    ensures r.Some? ==> 0 < r.value <= |u|
    decreases |u|
  {
    if u == [] then None
    else if u[0] == '\'' then Some(1)
    else Shift(SingleQuotedLen(u[1..]), 1)
  }

  /** The span closes at the first `'`: it ends on one, and none comes before it. */
  lemma {:induction false} SingleQuotedSpan(u: string)
    requires SingleQuotedLen(u).Some?
    ensures u[SingleQuotedLen(u).value - 1] == '\''
    ensures '\'' !in u[..SingleQuotedLen(u).value - 1]
    decreases |u|
  {
    if u[0] != '\'' {
      var n := SingleQuotedLen(u).value;
      SingleQuotedSpan(u[1..]);
      assert u[..n - 1] == [u[0]] + u[1..][..n - 2];
    }
  }

  /**
   * `"((?:\\.|[^"])*?)"` after its opening quote. The lazy loop first tries
   * to close; otherwise it takes `\\.` (a backslash and any character except
   * a line terminator) before `[^"]`, and backtracks into `[^"]` for that
   * backslash when no closing quote can be reached the first way. So an
   * escaped quote is skipped, unless nothing after it can close the span.
   */
  function DoubleQuotedLen(u: string): (r: Option<nat>)
    ensures r.Some? ==> 0 < r.value <= |u|
    decreases |u|
  {
    if u == [] then None
    else if u[0] == '"' then Some(1)
    else if u[0] == '\\' && |u| >= 2 && !IsLineTerminator(u[1]) && DoubleQuotedLen(u[2..]).Some? then
      Shift(DoubleQuotedLen(u[2..]), 2)
    else Shift(DoubleQuotedLen(u[1..]), 1)
  }

  /** A `'…'` span fails to close exactly when no `'` follows. */
  lemma {:induction false} SingleQuotedNone(u: string)
    ensures SingleQuotedLen(u).None? <==> '\'' !in u
    decreases |u|
  {
    if u != [] && u[0] != '\'' {
      SingleQuotedNone(u[1..]);
      assert u == [u[0]] + u[1..];
    }
  }

  /**
   * A `"…"` span fails to close exactly when no `"` follows: backtracking
   * always falls back to the first quote.
   */
  lemma {:induction false} DoubleQuotedNone(u: string)
    ensures DoubleQuotedLen(u).None? <==> '"' !in u
    decreases |u|
  {
    if u != [] && u[0] != '"' {
      assert u == [u[0]] + u[1..];
      DoubleQuotedNone(u[1..]);
      if u[0] == '\\' && |u| >= 2 && !IsLineTerminator(u[1]) {
        DoubleQuotedNone(u[2..]);
        assert u[1..] == [u[1]] + u[2..];
      }
    }
  }

  /** A `"…"` span that closes ends on a `"`. */
  lemma {:induction false} DoubleQuotedCloses(u: string)
    requires DoubleQuotedLen(u).Some?
    ensures u[DoubleQuotedLen(u).value - 1] == '"'
    decreases |u|
  {
    if u[0] != '"' {
      if u[0] == '\\' && |u| >= 2 && !IsLineTerminator(u[1]) && DoubleQuotedLen(u[2..]).Some? {
        DoubleQuotedCloses(u[2..]);
      } else {
        DoubleQuotedCloses(u[1..]);
      }
    }
  }

  /**
   * A quote inside the matched content is always one escaped by the
   * backslash before it.
   */
  lemma {:induction false} DoubleQuotedContent(u: string, k: nat)
    requires DoubleQuotedLen(u).Some? && k < DoubleQuotedLen(u).value - 1 && u[k] == '"'
    ensures 0 < k && u[k - 1] == '\\'
    decreases |u|
  {
    assert u[0] != '"';
    if u[0] == '\\' && |u| >= 2 && !IsLineTerminator(u[1]) && DoubleQuotedLen(u[2..]).Some? {
      if k >= 2 {
        DoubleQuotedContent(u[2..], k - 2);
      }
    } else {
      DoubleQuotedContent(u[1..], k - 1);
    }
  }

  /**
   * The lazy match closes at the first `"` when no backslash stands right
   * before it (a backslash there would escape it).
   */
  lemma {:induction false} DoubleQuotedFirst(x: string, rest: string)
    requires '"' !in x && (x == [] || x[|x| - 1] != '\\')
    ensures DoubleQuotedLen(x + ['"'] + rest) == Some(|x| + 1)
    decreases |x|
  {
    var u := x + ['"'] + rest;
    if x != [] {
      assert x[0] in x;
      assert u[0] == x[0];
      if x[0] == '\\' && !IsLineTerminator(x[1]) {
        var x' := x[2..];
        assert forall c :: c in x' ==> c in x;
        assert u[1] == x[1];
        assert u[2..] == x' + ['"'] + rest;
        DoubleQuotedFirst(x', rest);
      } else {
        var x' := x[1..];
        assert forall c :: c in x' ==> c in x;
        assert u[1..] == x' + ['"'] + rest;
        DoubleQuotedFirst(x', rest);
      }
    }
  }

  /** Puts a backslash before every `"`: the inverse of the escape `\"`. */
  function EscapeQuotes(x: string): (r: string)
    ensures |r| == |x| + Count(x, '"')
  {
    if x == [] then []
    else if x[0] == '"' then ['\\', '"'] + EscapeQuotes(x[1..])
    else [x[0]] + EscapeQuotes(x[1..])
  }

  /**
   * A quote escaped with a backslash never closes a span that a later
   * unescaped quote can close: `"` + EscapeQuotes(x) + `"` is one span.
   */
  lemma {:induction false} DoubleQuotedEscaped(x: string, rest: string)
    requires '\\' !in x
    ensures DoubleQuotedLen(EscapeQuotes(x) + ['"'] + rest) == Some(|EscapeQuotes(x)| + 1)
  {
    if x == [] {
      assert (EscapeQuotes(x) + ['"'] + rest)[0] == '"';
    } else {
      assert x[0] in x;
      assert '\\' !in x[1..] by {
        assert forall c :: c in x[1..] ==> c in x;
      }
      DoubleQuotedEscaped(x[1..], rest);
      if x[0] == '"' {
        EscapedQuoteStep(x, rest);
      } else {
        EscapedPlainStep(x, rest);
      }
    }
  }

  /** One step of DoubleQuotedEscaped: a `"` of `x`, escaped as `\\"`. */
  lemma EscapedQuoteStep(x: string, rest: string)
    requires x != [] && x[0] == '"'
    requires DoubleQuotedLen(EscapeQuotes(x[1..]) + ['"'] + rest) == Some(|EscapeQuotes(x[1..])| + 1)
    ensures DoubleQuotedLen(EscapeQuotes(x) + ['"'] + rest) == Some(|EscapeQuotes(x)| + 1)
  {
    var e := EscapeQuotes(x[1..]);
    var v := e + ['"'] + rest;
    var u := ['\\', '"'] + v;
    assert EscapeQuotes(x) == ['\\', '"'] + e;
    assert EscapeQuotes(x) + ['"'] + rest == u;
    assert u[2..] == v;
    DoubleQuotedEscapeStep(u, |e| + 1);
  }

  /** One step of DoubleQuotedEscaped: any other character of `x`, kept as it is. */
  lemma EscapedPlainStep(x: string, rest: string)
    requires x != [] && x[0] != '"' && x[0] != '\\'
    requires DoubleQuotedLen(EscapeQuotes(x[1..]) + ['"'] + rest) == Some(|EscapeQuotes(x[1..])| + 1)
    ensures DoubleQuotedLen(EscapeQuotes(x) + ['"'] + rest) == Some(|EscapeQuotes(x)| + 1)
  {
    var e := EscapeQuotes(x[1..]);
    var v := e + ['"'] + rest;
    var u := [x[0]] + v;
    assert EscapeQuotes(x) == [x[0]] + e;
    assert EscapeQuotes(x) + ['"'] + rest == u;
    assert u[1..] == v;
    DoubleQuotedPlainStep(u, |e| + 1);
  }

  /** `\\.` inside a span: the escape is skipped when the span still closes after it. */
  lemma DoubleQuotedEscapeStep(u: string, n: nat)
    requires |u| >= 2 && u[0] == '\\' && !IsLineTerminator(u[1]) && DoubleQuotedLen(u[2..]) == Some(n)
    ensures DoubleQuotedLen(u) == Some(n + 2)
  {
  }

  /** Any other character than `"` and `\\` is skipped. */
  lemma DoubleQuotedPlainStep(u: string, n: nat)
    requires u != [] && u[0] != '"' && u[0] != '\\' && DoubleQuotedLen(u[1..]) == Some(n)
    ensures DoubleQuotedLen(u) == Some(n + 1)
  {
  }

  /** A `'…'` span closes at the first `'`. */
  lemma {:induction false} SingleQuotedFirst(x: string, rest: string)
    requires '\'' !in x
    ensures SingleQuotedLen(x + ['\''] + rest) == Some(|x| + 1)
  {
    if x != [] {
      assert (x + ['\''] + rest)[1..] == x[1..] + ['\''] + rest;
      assert forall c :: c in x[1..] ==> c in x;
      SingleQuotedFirst(x[1..], rest);
    }
  }

  /**
   * Matching inside a prefix of the text gives the same span whenever the
   * span fits in the prefix (backtracking never looked past it).
   */
  lemma {:induction false} DoubleQuotedPrefix(u: string, m: nat)
    requires DoubleQuotedLen(u).Some? && DoubleQuotedLen(u).value <= m <= |u|
    ensures DoubleQuotedLen(u[..m]) == DoubleQuotedLen(u)
    decreases |u|
  {
    var v := u[..m];
    assert v[0] == u[0];
    if u[0] != '"' {
      assert v[1..] == u[1..][..m - 1];
      if u[0] == '\\' && |u| >= 2 && !IsLineTerminator(u[1]) {
        assert m >= 2;
        assert v[1] == u[1];
        assert v[2..] == u[2..][..m - 2];
        match DoubleQuotedLen(u[2..])
        case Some(n) =>
          DoubleQuotedPrefix(u[2..], m - 2);
        case None =>
          DoubleQuotedNone(u[2..]);
          DoubleQuotedNone(v[2..]);
          assert forall c :: c in v[2..] ==> c in u[2..];
          DoubleQuotedPrefix(u[1..], m - 1);
      } else {
        DoubleQuotedPrefix(u[1..], m - 1);
      }
    }
  }

  lemma {:induction false} SingleQuotedPrefix(u: string, m: nat)
    requires SingleQuotedLen(u).Some? && SingleQuotedLen(u).value <= m <= |u|
    ensures SingleQuotedLen(u[..m]) == SingleQuotedLen(u)
    decreases |u|
  {
    if u[0] != '\'' {
      assert u[..m][1..] == u[1..][..m - 1];
      SingleQuotedPrefix(u[1..], m - 1);
    }
  }
}
