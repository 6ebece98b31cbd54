/**
 * The shape Parser.setVarIfNeed looks for (Parser.java lines 84-101): the
 * regex `([^="']+)=(.*)` matched against a whole token. The name runs up to
 * the first `=` and holds no quote; the value is everything after that `=`,
 * and `.` refuses line terminators.
 */
module Assignments {
  import opened Wrappers
  import opened Lexical

  /** `[^="']`: a character an assigned name may hold. */
  predicate IsAssignNameChar(c: char)
  {
    c != '=' && c != '"' && c != '\''
  }

  /** `[^="']+`. */
  predicate ValidName(n: string)
  {
    n != [] && forall k :: 0 <= k < |n| ==> IsAssignNameChar(n[k])
  }

  /** `.*`: no line terminator. */
  predicate SingleLine(v: string)
  {
    forall k :: 0 <= k < |v| ==> !IsLineTerminator(v[k])
  }

  datatype Assignment = Assignment(name: string, value: string)

  /** Length of the run of name characters at the front. */
  function NameRun(t: string): (n: nat)
    ensures n <= |t|
    decreases |t|
  {
    if t != [] && IsAssignNameChar(t[0]) then 1 + NameRun(t[1..]) else 0
  }

  lemma {:induction false} NameRunOf(name: string, rest: string)
    requires forall k :: 0 <= k < |name| ==> IsAssignNameChar(name[k])
    requires rest == [] || !IsAssignNameChar(rest[0])
    ensures NameRun(name + rest) == |name|
    decreases |name|
  {
    if name == [] {
      assert name + rest == rest;
    } else {
      assert (name + rest)[1..] == name[1..] + rest;
      NameRunOf(name[1..], rest);
    }
  }

  /** The name run stops at the first character that cannot be in a name. */
  lemma {:induction false} NameRunStops(t: string, k: nat)
    requires k < |t| && !IsAssignNameChar(t[k])
    ensures NameRun(t) <= k
    decreases k
  {
    if k > 0 && IsAssignNameChar(t[0]) {
      NameRunStops(t[1..], k - 1);
    }
  }

  /** `matcher.matches()` and its two groups. */
  function SplitAssignment(t: string): (r: Option<Assignment>)
    ensures r.Some? ==> ValidName(r.value.name) && SingleLine(r.value.value)
    ensures r.Some? ==> t == r.value.name + "=" + r.value.value
  {
    var n := NameRun(t);
    if 0 < n < |t| && t[n] == '=' && SingleLine(t[n + 1..]) then
      assert forall k :: 0 <= k < n ==> IsAssignNameChar(t[..n][k]) by {
        NameRunChars(t);
      }
      assert t == t[..n] + "=" + t[n + 1..];
      Some(Assignment(t[..n], t[n + 1..]))
    else None
  }

  /** Every character of the run is a name character. */
  lemma {:induction false} NameRunChars(t: string)
    ensures forall k :: 0 <= k < NameRun(t) ==> IsAssignNameChar(t[k])
    decreases |t|
  {
    if t != [] && IsAssignNameChar(t[0]) {
      NameRunChars(t[1..]);
      assert forall k :: 1 <= k < |t| ==> t[k] == t[1..][k - 1];
    }
  }

  /**
   * Both directions: `NAME=VALUE` with a valid name and a one-line value is
   * split there, and every token that is not split has no such reading.
   */
  lemma SplitAssignmentExact(name: string, value: string)
    requires ValidName(name) && SingleLine(value)
    ensures SplitAssignment(name + "=" + value) == Some(Assignment(name, value))
  {
    var t := name + "=" + value;
    assert t == name + (['='] + value);
    NameRunOf(name, ['='] + value);
    assert t[..|name|] == name;
    assert t[|name| + 1..] == value;
  }

  lemma SplitAssignmentNone(t: string)
    requires SplitAssignment(t).None?
    ensures forall i :: 0 <= i < |t| && t[i] == '=' ==> !(ValidName(t[..i]) && SingleLine(t[i + 1..]))
  {
    forall i | 0 <= i < |t| && t[i] == '=' && ValidName(t[..i]) && SingleLine(t[i + 1..])
      ensures false
    {
      assert t == t[..i] + "=" + t[i + 1..];
      SplitAssignmentExact(t[..i], t[i + 1..]);
    }
  }

  /** A quote before the first `=` means the token is not an assignment. */
  lemma QuoteBeforeEquals(t: string, k: nat)
    requires k < |t| && IsQuote(t[k]) && '=' !in t[..k]
    ensures SplitAssignment(t).None?
  {
    NameRunStops(t, k);
    var n := NameRun(t);
    if n < k {
      assert t[n] == t[..k][n];
    }
  }
}
