/**
 * Parser.tokenize (Parser.java lines 128-141): the regex
 *   \||([^|\s"']*("((?:\\.|[^"])*?)"|'([^']*)')[^|\s"']*)+|[^|\s"']+
 * is applied with `while (matcher.find())`, each match becoming a token.
 *
 * Every function here works on a suffix of the line and returns lengths,
 * because a match at one position depends only on the text from there on.
 */
module Tokenizer {
  import opened Wrappers
  import opened Lexical

  /** Length of the maximal run of word characters `[^|\s"']*` at the front. */
  function WordLen(u: string): (n: nat)
    ensures n <= |u|
    decreases |u|
  {
    if u != [] && IsWordChar(u[0]) then 1 + WordLen(u[1..]) else 0
  }

  /** The run is maximal: all word characters, then a non-word one or the end. */
  lemma {:induction false} WordLenRun(u: string)
    ensures forall k :: 0 <= k < WordLen(u) ==> IsWordChar(u[k])
    ensures WordLen(u) == |u| || !IsWordChar(u[WordLen(u)])
    decreases |u|
  {
    if u != [] && IsWordChar(u[0]) {
      WordLenRun(u[1..]);
      assert forall k :: 1 <= k < |u| ==> u[k] == u[1..][k - 1];
    }
  }

  /** A run of word characters followed by a non-word one has exactly that length. */
  lemma {:induction false} WordLenOf(w: string, rest: string)
    requires forall k :: 0 <= k < |w| ==> IsWordChar(w[k])
    requires rest == [] || !IsWordChar(rest[0])
    ensures WordLen(w + rest) == |w|
    decreases |w|
  {
    if w == [] {
      assert w + rest == rest;
    } else {
      assert (w + rest)[1..] == w[1..] + rest;
      WordLenOf(w[1..], rest);
    }
  }

  /** Length of a closed `"…"` or `'…'` span at the front, if there is one. */
  function QuotedLen(u: string): (r: Option<nat>)
    ensures r.Some? ==> 2 <= r.value <= |u| && IsQuote(u[0])
  {
    if u == [] then None
    else if u[0] == '"' then Shift(DoubleQuotedLen(u[1..]), 1)
    else if u[0] == '\'' then Shift(SingleQuotedLen(u[1..]), 1)
    else None
  }

  /**
   * The greedy repetition of `("…"|'…')[^|\s"']*`: a closed quoted span
   * glued to the word run after it, as often as possible. In the regex
   * every repetition of the group may also start with a word run, but
   * after the first one that run is empty, because the previous run was
   * maximal.
   */
  function GroupsLen(u: string): (n: nat)
    ensures n <= |u|
    decreases |u|
  {
    var q := QuotedLen(u);
    if q.None? then 0
    else
      var w := q.value + WordLen(u[q.value..]);
      w + GroupsLen(u[w..])
  }

  /**
   * Length of the token regex's match at the front of `u`: a lone `|`; else
   * a word run followed by the quoted groups (the second and third
   * alternatives of the regex together: the second when a quoted span
   * follows the run, the third when none does); else no match here.
   */
  function MatchLen(u: string): (r: Option<nat>)
    requires u != []
    ensures r.Some? ==> 0 < r.value <= |u|
  {
    if u[0] == '|' then Some(1)
    else
      var w := WordLen(u);
      var n := w + GroupsLen(u[w..]);
      if n > 0 then Some(n) else None
  }

  /**
   * The tokens `find()` produces: at each position the match there becomes a
   * token and scanning resumes after it; where nothing matches (whitespace,
   * a quote that closes nothing) one character is skipped.
   */
  function Tokens(u: string): (r: seq<string>)
    decreases |u|
  {
    if u == [] then []
    else
      match MatchLen(u)
      case Some(n) => [u[..n]] + Tokens(u[n..])
      case None => Tokens(u[1..])
  }

  /** A successful `find()` at the front of the remaining text. */
  lemma TokensMatch(u: string)
    requires u != [] && MatchLen(u).Some?
    ensures Tokens(u) == [u[..MatchLen(u).value]] + Tokens(u[MatchLen(u).value..])
  {
  }

  /** A front position where nothing matches is skipped. */
  lemma TokensSkip(u: string)
    requires u != [] && MatchLen(u).None?
    ensures Tokens(u) == Tokens(u[1..])
  {
  }

  /** The `while (matcher.find())` loop of Parser.tokenize. */
  method Tokenize(line: string) returns (tokens: seq<string>)
    ensures tokens == Tokens(line)
  {
    tokens := [];
    var rest := line;
    while rest != []
      invariant tokens + Tokens(rest) == Tokens(line)
      decreases |rest|
    {
      var m := MatchLen(rest);
      if m.Some? {
        TokensMatch(rest);
        tokens := tokens + [rest[..m.value]];
        rest := rest[m.value..];
      } else {
        TokensSkip(rest);
        rest := rest[1..];
      }
    }
  }

  /** Every token is non-empty: a match never has length zero. */
  lemma {:induction false} TokensNonEmpty(u: string)
    ensures forall k :: 0 <= k < |Tokens(u)| ==> Tokens(u)[k] != []
    decreases |u|
  {
    if u != [] {
      match MatchLen(u)
      case Some(n) =>
        TokensNonEmpty(u[n..]);
      case None =>
        TokensNonEmpty(u[1..]);
    }
  }

  lemma {:induction false} WordLenPrefix(u: string, m: nat)
    requires WordLen(u) <= m <= |u|
    ensures WordLen(u[..m]) == WordLen(u)
    decreases |u|
  {
    if u != [] && IsWordChar(u[0]) {
      assert m > 0;
      assert u[..m][1..] == u[1..][..m - 1];
      WordLenPrefix(u[1..], m - 1);
    } else if m > 0 {
      assert u[..m][0] == u[0];
    }
  }

  lemma QuotedLenPrefix(u: string, m: nat)
    requires QuotedLen(u).Some? && QuotedLen(u).value <= m <= |u|
    ensures QuotedLen(u[..m]) == QuotedLen(u)
  {
    assert u[..m][0] == u[0];
    assert u[..m][1..] == u[1..][..m - 1];
    if u[0] == '"' {
      DoubleQuotedPrefix(u[1..], m - 1);
    } else {
      SingleQuotedPrefix(u[1..], m - 1);
    }
  }

  /** One repetition of the group, read off a closed quoted span. */
  lemma GroupsStep(u: string, q: nat, w: nat)
    requires QuotedLen(u) == Some(q) && w == q + WordLen(u[q..])
    ensures GroupsLen(u) == w + GroupsLen(u[w..])
  {
  }

  /** Proof helper: a quoted span and the word run after it lie within the text. */
  lemma GroupWithin(u: string, q: nat, w: nat)
    requires QuotedLen(u) == Some(q) && w == q + WordLen(u[q..])
    ensures w <= |u|
  {
    assert |u[q..]| == |u| - q;
  }

  /** The word run after a quoted span is unchanged in a prefix that holds it. */
  lemma WordsAfterPrefix(u: string, q: nat, m: nat)
    requires q <= |u| && q + WordLen(u[q..]) <= m <= |u|
    ensures WordLen(u[..m][q..]) == WordLen(u[q..])
  {
    assert u[..m][q..] == u[q..][..m - q];
    WordLenPrefix(u[q..], m - q);
  }

  /** Proof helper: a slice of a prefix is a prefix of a slice. */
  lemma DropOfTake(u: string, w: nat, g: nat)
    requires w <= g <= |u|
    ensures u[..g][w..] == u[w..][..g - w]
  {
  }

  /**
   * One repetition of the group survives cutting the text after the groups
   * end, given that the repetitions after it do.
   */
  lemma GroupsPrefixStep(u: string, q: nat, w: nat, g: nat)
    requires QuotedLen(u) == Some(q) && w == q + WordLen(u[q..]) && g == GroupsLen(u)
    requires GroupsLen(u[w..][..GroupsLen(u[w..])]) == GroupsLen(u[w..])
    ensures GroupsLen(u[..g]) == g
  {
    var g' := GroupsLen(u[w..]);
    GroupWithin(u, q, w);
    GroupsStep(u, q, w);
    var v := u[..g];
    QuotedLenPrefix(u, g);
    WordsAfterPrefix(u, q, g);
    DropOfTake(u, w, g);
    assert GroupsLen(v[w..]) == g';
    GroupsStep(v, q, w);
  }

  /** Without a closed quoted span at the front there are no groups, in any prefix either. */
  lemma GroupsNone(u: string)
    requires QuotedLen(u).None?
    ensures GroupsLen(u) == 0 && GroupsLen(u[..0]) == 0
  {
    assert u[..0] == [];
  }

  lemma {:induction false} GroupsPrefix(u: string)
    ensures GroupsLen(u[..GroupsLen(u)]) == GroupsLen(u)
    decreases |u|
  {
    if QuotedLen(u).None? {
      GroupsNone(u);
    } else {
      var q := QuotedLen(u).value;
      var w := q + WordLen(u[q..]);
      GroupWithin(u, q, w);
      GroupsPrefix(u[w..]);
      GroupsPrefixStep(u, q, w, GroupsLen(u));
    }
  }

  /**
   * A token matches the token regex on its own, with the same length: the
   * text after it never influenced the match.
   */
  lemma MatchPrefix(u: string)
    requires u != [] && MatchLen(u).Some?
    ensures MatchLen(u[..MatchLen(u).value]) == MatchLen(u)
  {
    if u[0] == '|' {
      assert u[..1][0] == '|';
    } else {
      var w := WordLen(u);
      var g := GroupsLen(u[w..]);
      MatchSplit(u);
      MatchOf(u, w, g);
      MatchPrefixOf(u, w, g);
    }
  }

  /** MatchPrefix for a match that is a word run and the quoted groups after it. */
  lemma MatchPrefixOf(u: string, w: nat, g: nat)
    requires u != [] && u[0] != '|' && w == WordLen(u) && g == GroupsLen(u[w..]) && w + g > 0
    ensures MatchLen(u[..w + g]) == Some(w + g)
  {
    var v := u[..w + g];
    assert v[0] == u[0];
    WordLenPrefix(u, w + g);
    DropOfTake(u, w, w + g);
    GroupsPrefix(u[w..]);
    MatchOf(v, w, g);
  }

  /** A match that is not `|` is a word run and the groups after it. */
  lemma MatchSplit(u: string)
    requires u != [] && u[0] != '|' && MatchLen(u).Some?
    ensures MatchLen(u).value == WordLen(u) + GroupsLen(u[WordLen(u)..])
  {
  }

  lemma MatchOf(v: string, w: nat, g: nat)
    requires v != [] && v[0] != '|' && w == WordLen(v) && g == GroupsLen(v[w..]) && w + g > 0
    ensures MatchLen(v) == Some(w + g)
  {
  }

  /**
   * Tokenizing is idempotent: each token, tokenized again, is exactly
   * itself. So re-tokenizing a token that substitution left unchanged
   * gives back that token.
   */
  lemma {:induction false} TokensIdempotent(u: string)
    ensures forall k :: 0 <= k < |Tokens(u)| ==> Tokens(Tokens(u)[k]) == [Tokens(u)[k]]
    decreases |u|
  {
    if u != [] {
      match MatchLen(u)
      case Some(n) =>
        var t := u[..n];
        MatchPrefix(u);
        assert t[..n] == t && t[n..] == [];
        assert Tokens(t) == [t];
        TokensIdempotent(u[n..]);
      case None =>
        TokensIdempotent(u[1..]);
    }
  }

  /**
   * The shape of a non-pipe token: word characters and closed quoted spans,
   * one after another. So whitespace, `|` and quote characters occur in a
   * token only inside a quoted span.
   */
  predicate Segments(t: string)
    decreases |t|
  {
    t == [] ||
    (IsWordChar(t[0]) && Segments(t[1..])) ||
    (QuotedLen(t).Some? && Segments(t[QuotedLen(t).value..]))
  }

  lemma {:induction false} WordsThenSegments(t: string, k: nat)
    requires k <= |t| && (forall j :: 0 <= j < k ==> IsWordChar(t[j])) && Segments(t[k..])
    ensures Segments(t)
    decreases k
  {
    if k > 0 {
      assert t[1..][k - 1..] == t[k..];
      WordsThenSegments(t[1..], k - 1);
    }
  }

  lemma {:induction false} GroupsSegments(x: string)
    requires GroupsLen(x) == |x|
    ensures Segments(x)
    decreases |x|
  {
    if x != [] {
      GroupsStart(x);
      var q := QuotedLen(x).value;
      var r := WordLen(x[q..]);
      GroupsRest(x, q, r);
      GroupsSegments(x[q + r..]);
      QuotedThenSegments(x, q, r);
    }
  }

  /** When the groups cover the text, the later groups cover the rest of it. */
  lemma GroupsRest(x: string, q: nat, r: nat)
    requires GroupsLen(x) == |x| && QuotedLen(x) == Some(q) && r == WordLen(x[q..])
    ensures q + r <= |x| && GroupsLen(x[q + r..]) == |x[q + r..]|
  {
    GroupWithin(x, q, q + r);
    GroupsStep(x, q, q + r);
  }

  /** Non-empty groups start with a closed quoted span. */
  lemma GroupsStart(x: string)
    requires GroupsLen(x) > 0
    ensures QuotedLen(x).Some?
  {
  }

  /** A quoted span, a word run and then segments make segments. */
  lemma QuotedThenSegments(x: string, q: nat, r: nat)
    requires QuotedLen(x) == Some(q) && r == WordLen(x[q..]) && Segments(x[q + r..])
    ensures Segments(x)
  {
    assert x[q..][r..] == x[q + r..];
    WordLenRun(x[q..]);
    WordsThenSegments(x[q..], r);
  }

  /** A whole-token match of the token regex has the shape above. */
  lemma MatchShape(t: string)
    requires t != [] && MatchLen(t) == Some(|t|)
    ensures t == "|" || (t[0] != '|' && Segments(t))
  {
    if t[0] != '|' {
      var w := WordLen(t);
      GroupsSegments(t[w..]);
      WordLenRun(t);
      WordsThenSegments(t, w);
    }
  }

  /** Every token is a lone `|` or is made of words and closed quoted spans. */
  lemma {:induction false} TokensShape(u: string)
    ensures forall k :: 0 <= k < |Tokens(u)| ==>
      Tokens(u)[k] == "|" || (Tokens(u)[k] != [] && Tokens(u)[k][0] != '|' && Segments(Tokens(u)[k]))
    decreases |u|
  {
    if u != [] {
      match MatchLen(u)
      case Some(n) =>
        MatchPrefix(u);
        MatchShape(u[..n]);
        TokensShape(u[n..]);
      case None =>
        TokensShape(u[1..]);
    }
  }

  /** Without quote characters a token is made of word characters only. */
  lemma {:induction false} SegmentsPlain(t: string)
    requires Segments(t) && forall k :: 0 <= k < |t| ==> !IsQuote(t[k])
    ensures forall k :: 0 <= k < |t| ==> IsWordChar(t[k])
    decreases |t|
  {
    if t != [] {
      assert !IsQuote(t[0]);
      SegmentsPlain(t[1..]);
      assert forall k :: 1 <= k < |t| ==> t[k] == t[1..][k - 1];
    }
  }

  /** Every character of a token is a character of the line. */
  lemma {:induction false} TokensChars(u: string)
    ensures forall t, c :: t in Tokens(u) && c in t ==> c in u
    decreases |u|
  {
    if u != [] {
      match MatchLen(u)
      case Some(n) =>
        TokensChars(u[n..]);
        assert u == u[..n] + u[n..];
      case None =>
        TokensChars(u[1..]);
        assert u == [u[0]] + u[1..];
    }
  }

  /**
   * In a line without quotes every token is a lone `|` or a non-empty run
   * of characters other than whitespace, `|` and quotes.
   */
  lemma TokensPlain(u: string)
    requires forall k :: 0 <= k < |u| ==> !IsQuote(u[k])
    ensures forall t :: t in Tokens(u) ==>
      t == "|" || (t != [] && forall k :: 0 <= k < |t| ==> IsWordChar(t[k]))
  {
    TokensShape(u);
    TokensChars(u);
    forall t | t in Tokens(u)
      ensures t == "|" || (t != [] && forall k :: 0 <= k < |t| ==> IsWordChar(t[k]))
    {
      if t != "|" {
        forall k | 0 <= k < |t|
          ensures !IsQuote(t[k])
        {
          assert t[k] in t;
        }
        SegmentsPlain(t);
      }
    }
  }

  /** Unquoted whitespace separates tokens and is dropped. */
  lemma TokensSpace(c: char, rest: string)
    requires IsSpace(c)
    ensures Tokens([c] + rest) == Tokens(rest)
  {
    var u := [c] + rest;
    assert WordLen(u) == 0;
    assert QuotedLen(u).None?;
    assert u[1..] == rest;
  }

  /** An unquoted `|` is a token of its own, whatever follows it. */
  lemma TokensPipe(rest: string)
    ensures Tokens(['|'] + rest) == ["|"] + Tokens(rest)
  {
    var u := ['|'] + rest;
    assert u[..1] == "|" && u[1..] == rest;
  }

  /** A non-empty run of word characters. */
  predicate Word(w: string)
  {
    w != [] && forall k :: 0 <= k < |w| ==> IsWordChar(w[k])
  }

  /** A run of word characters ended by whitespace, `|` or the end of the line is one token. */
  lemma TokensWord(w: string, rest: string)
    requires Word(w)
    requires rest == [] || IsSpace(rest[0]) || rest[0] == '|'
    ensures Tokens(w + rest) == [w] + Tokens(rest)
  {
    var u := w + rest;
    WordLenOf(w, rest);
    assert u[0] == w[0];
    assert u[|w|..] == rest;
    assert QuotedLen(rest).None?;
    assert u[..|w|] == w;
  }

  /**
   * A double-quoted span whose content has no `"` and no backslash stays one
   * token with its quotes, even when it holds whitespace or `|`.
   */
  lemma TokensDoubleQuoted(x: string, rest: string)
    requires '"' !in x && '\\' !in x
    requires rest == [] || IsSpace(rest[0]) || rest[0] == '|'
    ensures Tokens(['"'] + x + ['"'] + rest) == [['"'] + x + ['"']] + Tokens(rest)
  {
    var s := ['"'] + x + ['"'];
    QuotedDouble(x, rest);
    MatchQuotedSpan(s, rest);
    TokensFirst(s, rest);
  }

  /** A double-quoted span without inner `"` or backslash is one closed quoted span. */
  lemma QuotedDouble(x: string, rest: string)
    requires '"' !in x && '\\' !in x
    ensures QuotedLen(['"'] + x + ['"'] + rest) == Some(|['"'] + x + ['"']|)
  {
    var u := ['"'] + x + ['"'] + rest;
    assert u[0] == '"';
    assert u[1..] == x + ['"'] + rest;
    DoubleQuotedFirst(x, rest);
  }

  /**
   * A double-quoted span whose quotes inside are escaped as `\\"` stays one
   * token, escapes and quotes included.
   */
  lemma TokensEscapedDouble(x: string, rest: string)
    requires '\\' !in x
    requires rest == [] || IsSpace(rest[0]) || rest[0] == '|'
    ensures Tokens(['"'] + EscapeQuotes(x) + ['"'] + rest) == [['"'] + EscapeQuotes(x) + ['"']] + Tokens(rest)
  {
    var s := ['"'] + EscapeQuotes(x) + ['"'];
    QuotedEscaped(x, rest);
    MatchQuotedSpan(s, rest);
    TokensFirst(s, rest);
  }

  /** A double-quoted span with escaped quotes inside is one closed quoted span. */
  lemma QuotedEscaped(x: string, rest: string)
    requires '\\' !in x
    ensures QuotedLen(['"'] + EscapeQuotes(x) + ['"'] + rest) == Some(|['"'] + EscapeQuotes(x) + ['"']|)
  {
    var e := EscapeQuotes(x);
    var u := ['"'] + e + ['"'] + rest;
    assert u[0] == '"';
    assert u[1..] == e + ['"'] + rest;
    DoubleQuotedEscaped(x, rest);
  }

  /** A single-quoted span stays one token with its quotes, whatever it holds besides `'`. */
  lemma TokensSingleQuoted(x: string, rest: string)
    requires '\'' !in x
    requires rest == [] || IsSpace(rest[0]) || rest[0] == '|'
    ensures Tokens(['\''] + x + ['\''] + rest) == [['\''] + x + ['\'']] + Tokens(rest)
  {
    var s := ['\''] + x + ['\''];
    QuotedSingle(x, rest);
    MatchQuotedSpan(s, rest);
    TokensFirst(s, rest);
  }

  /** A single-quoted span without inner `'` is one closed quoted span. */
  lemma QuotedSingle(x: string, rest: string)
    requires '\'' !in x
    ensures QuotedLen(['\''] + x + ['\''] + rest) == Some(|['\''] + x + ['\'']|)
  {
    var u := ['\''] + x + ['\''] + rest;
    assert u[0] == '\'';
    assert u[1..] == x + ['\''] + rest;
    SingleQuotedFirst(x, rest);
  }

  /**
   * The escaped-quote line of the tokenizer's unit tests: a word, a space and
   * a double-quoted span with escaped quotes inside are two tokens.
   */
  lemma TokensWordAndEscaped(w: string, x: string)
    requires Word(w) && '\\' !in x
    ensures Tokens(w + (" " + (['"'] + EscapeQuotes(x) + ['"']))) == [w, ['"'] + EscapeQuotes(x) + ['"']]
  {
    var s := ['"'] + EscapeQuotes(x) + ['"'];
    assert s + [] == s;
    TokensEscapedDouble(x, []);
    TokensWordSpace(w, s);
    assert Tokens([]) == [];
  }

  /**
   * A closed quoted span followed by whitespace, `|` or the end of the line
   * is the whole match there: no word run and no further group follows it.
   */
  lemma MatchQuotedSpan(s: string, rest: string)
    requires QuotedLen(s + rest) == Some(|s|)
    requires rest == [] || IsSpace(rest[0]) || rest[0] == '|'
    ensures MatchLen(s + rest) == Some(|s|)
  {
    var u := s + rest;
    assert u[|s|..] == rest;
    assert WordLen(rest) == 0 by {
      WordLenOf([], rest);
      assert [] + rest == rest;
    }
    assert GroupsLen(rest) == 0 by {
      assert QuotedLen(rest).None?;
    }
    assert GroupsLen(u) == |s| by {
      GroupsStep(u, |s|, |s|);
    }
    assert u[0..] == u;
    MatchOf(u, 0, |s|);
  }

  /** When the match at the front is `s` exactly, `s` is the first token. */
  lemma TokensFirst(s: string, rest: string)
    requires s != [] && MatchLen(s + rest) == Some(|s|)
    ensures Tokens(s + rest) == [s] + Tokens(rest)
  {
    var u := s + rest;
    assert u[..|s|] == s;
    assert u[|s|..] == rest;
    TokensMatch(u);
  }

  /**
   * Three two-word commands separated by ` | ` give eight tokens, the pipes
   * among them, as in `ls -l | grep java | wc -l`.
   */
  lemma TokensThreeStages(a: string, b: string, c: string, d: string, e: string, f: string)
    requires Word(a) && Word(b) && Word(c) && Word(d) && Word(e) && Word(f)
    ensures Tokens(a + (" " + (b + (" | " + (c + (" " + (d + (" | " + (e + (" " + f))))))))))
      == [a, b, "|", c, d, "|", e, f]
  {
    var s1 := e + (" " + f);
    assert f + [] == f;
    TokensTwoWords(e, f, []);
    var s2 := c + (" " + (d + (" | " + s1)));
    TokensStage(c, d, s1);
    TokensStage(a, b, s2);
    assert Tokens([]) == [];
    ConsStages(a, b, c, d, e, f);
  }

  /**
   * Proof helper: regrouping the tokens of three stages, kept apart so that
   * the regrouping is not proved next to Tokens terms, where it is costly.
   */
  lemma ConsStages(a: string, b: string, c: string, d: string, e: string, f: string)
    ensures [a, b, "|"] + ([c, d, "|"] + ([e, f] + [])) == [a, b, "|", c, d, "|", e, f]
  {
  }

  /** A two-word stage followed by ` | `. */
  lemma TokensStage(x: string, y: string, rest: string)
    requires Word(x) && Word(y)
    ensures Tokens(x + (" " + (y + (" | " + rest)))) == [x, y, "|"] + Tokens(rest)
  {
    var r := " | " + rest;
    TokensStagesPipe(rest);
    assert r[0] == ' ';
    TokensTwoWords(x, y, r);
    ConsPipe(x, y, Tokens(rest));
  }

  /** Two words separated by one space are two tokens. */
  lemma TokensTwoWords(x: string, y: string, rest: string)
    requires Word(x) && Word(y)
    requires rest == [] || IsSpace(rest[0]) || rest[0] == '|'
    ensures Tokens(x + (" " + (y + rest))) == [x, y] + Tokens(rest)
  {
    TokensWord(y, rest);
    TokensWordSpace(x, y + rest);
    ConsTwo(x, y, Tokens(rest));
  }

  /**
   * Proof helper: regrouping a list of tokens, kept apart so that the
   * regrouping is not proved next to Tokens terms, where it is costly.
   */
  lemma ConsTwo(x: string, y: string, t: seq<string>)
    ensures [x] + ([y] + t) == [x, y] + t
  {
  }

  /**
   * Proof helper: regrouping a list of tokens, kept apart so that the
   * regrouping is not proved next to Tokens terms, where it is costly.
   */
  lemma ConsPipe(x: string, y: string, t: seq<string>)
    ensures [x, y] + (["|"] + t) == [x, y, "|"] + t
  {
  }

  /** A word followed by a space is one token, and the space is dropped. */
  lemma TokensWordSpace(w: string, rest: string)
    requires Word(w)
    ensures Tokens(w + (" " + rest)) == [w] + Tokens(rest)
  {
    var s := [' '] + rest;
    assert " " + rest == s;
    TokensSpace(' ', rest);
    TokensWord(w, s);
  }

  /** ` | ` between two stages is the token `|` alone. */
  lemma TokensStagesPipe(rest: string)
    ensures Tokens(" | " + rest) == ["|"] + Tokens(rest)
  {
    TokensSpace(' ', "| " + rest);
    TokensPipe(" " + rest);
    TokensSpace(' ', rest);
    assert " | " + rest == [' '] + ("| " + rest);
    assert "| " + rest == ['|'] + (" " + rest);
    assert " " + rest == [' '] + rest;
  }
}
