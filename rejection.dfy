/**
 * The two checks Parser.parse makes before it tokenizes (Parser.java lines
 * 21-32): a blank line, and a line the "unclosed quotes" regex
 *   ([^']*'([^']*('[^']*')*)*)|((\\"|[^"])*"((\\"|[^"\\])*("(\\"|[^"])*")*)*)
 * matches as a whole. Each half of the regex is written out as a predicate
 * with the regex's own structure, then characterised by counting quotes.
 */
module Rejection {
  import opened Lexical

  /** `line.trim().isEmpty()`: `trim` strips every character up to U+0020. */
  predicate IsBlank(line: string)
  {
    forall k :: 0 <= k < |line| ==> line[k] <= ' '
  }

  /** `([^']*('[^']*')*)*`: text whose single quotes form closed pairs. */
  predicate PairedSingles(y: string)
    decreases |y|
  {
    y == [] ||
    (y[0] != '\'' && PairedSingles(y[1..])) ||
    (y[0] == '\'' && SingleQuotedLen(y[1..]).Some? && PairedSingles(y[SingleQuotedLen(y[1..]).value + 1..]))
  }

  /** The first half: `[^']*'` and then closed pairs only. */
  predicate SingleUnclosed(s: string)
    decreases |s|
  {
    s != [] &&
    ((s[0] == '\'' && PairedSingles(s[1..])) || (s[0] != '\'' && SingleUnclosed(s[1..])))
  }

  /**
   * `(\\"|[^"])*"` followed by the rest of the second half: escaped quotes
   * and other characters (a backslash among them), up to a `"`.
   */
  predicate Leading(u: string)
    decreases |u|
  {
    u != [] &&
    ((u[0] == '"' && Rest(u[1..])) ||
     (|u| >= 2 && u[0] == '\\' && u[1] == '"' && Leading(u[2..])) ||
     (u[0] != '"' && Leading(u[1..])))
  }

  /**
   * `((\\"|[^"\\])*("(\\"|[^"])*")*)*`: a sequence of `\"`, characters
   * other than `"` and `\`, and `"…"` spans whose content is read as in
   * Leading. A backslash before anything but `"` cannot be read here.
   */
  predicate Rest(r: string)
    decreases |r|
  {
    r == [] ||
    (r[0] != '"' && r[0] != '\\' && Rest(r[1..])) ||
    (|r| >= 2 && r[0] == '\\' && r[1] == '"' && Rest(r[2..])) ||
    (r[0] == '"' && Leading(r[1..]))
  }

  /** The second half of the regex. */
  predicate DoubleUnclosed(s: string)
  {
    Leading(s)
  }

  /** `matchNotClosed.matches()`. */
  predicate UnclosedQuotes(s: string)
  {
    SingleUnclosed(s) || DoubleUnclosed(s)
  }

  /** Closed pairs are exactly an even number of single quotes. */
  lemma {:induction false} PairedSinglesEven(y: string)
    ensures PairedSingles(y) <==> Count(y, '\'') % 2 == 0
    decreases |y|
  {
    if y != [] {
      if y[0] != '\'' {
        PairedSinglesEven(y[1..]);
      } else {
        SingleQuotedNone(y[1..]);
        if SingleQuotedLen(y[1..]).Some? {
          var n := SingleQuotedLen(y[1..]).value;
          SingleQuotedSpan(y[1..]);
          CountAtFirst(y[1..], '\'', n - 1);
          assert y[1..][n..] == y[n + 1..];
          PairedSinglesEven(y[n + 1..]);
        } else {
          CountAbsent(y[1..], '\'');
        }
      }
    }
  }

  /** The single-quote half rejects exactly the lines with an odd number of `'`. */
  lemma {:induction false} SingleUnclosedOdd(s: string)
    ensures SingleUnclosed(s) <==> Count(s, '\'') % 2 == 1
    decreases |s|
  {
    if s != [] {
      if s[0] == '\'' {
        PairedSinglesEven(s[1..]);
      } else {
        SingleUnclosedOdd(s[1..]);
      }
    }
  }

  /** Without backslashes, Leading holds exactly for an odd number of `"`. */
  lemma {:induction false} LeadingOdd(u: string)
    requires '\\' !in u
    ensures Leading(u) <==> Count(u, '"') % 2 == 1
    decreases |u|, 1
  {
    if u != [] {
      assert u[0] in u;
      assert forall c :: c in u[1..] ==> c in u;
      if u[0] == '"' {
        RestEven(u[1..]);
      } else {
        LeadingOdd(u[1..]);
      }
    }
  }

  /** Without backslashes, Rest holds exactly for an even number of `"`. */
  lemma {:induction false} RestEven(r: string)
    requires '\\' !in r
    ensures Rest(r) <==> Count(r, '"') % 2 == 0
    decreases |r|, 0
  {
    if r != [] {
      assert r[0] in r;
      assert forall c :: c in r[1..] ==> c in r;
      if r[0] == '"' {
        LeadingOdd(r[1..]);
      } else {
        RestEven(r[1..]);
      }
    }
  }

  /** Without backslashes, the double-quote half rejects exactly an odd number of `"`. */
  lemma DoubleUnclosedOdd(s: string)
    requires '\\' !in s
    ensures DoubleUnclosed(s) <==> Count(s, '"') % 2 == 1
  {
    LeadingOdd(s);
  }

  /**
   * A line without backslashes is rejected exactly when it holds an odd
   * number of `'` or an odd number of `"`, counted over the whole line:
   * quotes inside the other kind of quotes count too, so `echo "it's"` is
   * rejected.
   */
  lemma UnclosedByParity(s: string)
    requires '\\' !in s
    ensures UnclosedQuotes(s) <==> Count(s, '\'') % 2 == 1 || Count(s, '"') % 2 == 1
  {
    SingleUnclosedOdd(s);
    DoubleUnclosedOdd(s);
  }

  /** Text without `"` can be read by Rest exactly when it has no backslash. */
  lemma {:induction false} RestNoQuote(r: string)
    requires '"' !in r
    ensures Rest(r) <==> '\\' !in r
    decreases |r|
  {
    if r != [] {
      assert r[0] in r;
      assert forall c :: c in r[1..] ==> c in r;
      RestNoQuote(r[1..]);
      assert r == [r[0]] + r[1..];
    }
  }

  /** Text without `"` is never read by Leading: it needs a `"`. */
  lemma {:induction false} LeadingNeedsQuote(u: string)
    requires '"' !in u
    ensures !Leading(u)
    decreases |u|
  {
    if u != [] {
      assert u[0] in u;
      assert forall c :: c in u[1..] ==> c in u;
      LeadingNeedsQuote(u[1..]);
    }
  }

  /** Leading skips text without quotes and backslashes. */
  lemma {:induction false} LeadingPlainPrefix(a: string, rest: string)
    requires '"' !in a && '\\' !in a
    ensures Leading(a + rest) <==> Leading(rest)
    decreases |a|
  {
    if a != [] {
      assert a[0] in a;
      assert forall c :: c in a[1..] ==> c in a;
      assert (a + rest)[1..] == a[1..] + rest;
      LeadingPlainPrefix(a[1..], rest);
    } else {
      assert a + rest == rest;
    }
  }

  /**
   * A `"` that is never closed goes unreported when a backslash follows it:
   * the regex cannot read the backslash, so the line is not rejected.
   */
  lemma UnclosedMissedAfterBackslash(a: string, b: string)
    requires '"' !in a && '\'' !in a && '\\' !in a && '"' !in b && '\'' !in b
    requires '\\' in b
    ensures !UnclosedQuotes(a + ['"'] + b)
  {
    var s := a + ['"'] + b;
    LeadingPlainPrefix(a, ['"'] + b);
    assert s == a + (['"'] + b);
    assert (['"'] + b)[1..] == b;
    RestNoQuote(b);
    assert !DoubleUnclosed(s);
    assert forall c :: c in s ==> c in a || c == '"' || c in b;
    CountAbsent(s, '\'');
    SingleUnclosedOdd(s);
  }
}
