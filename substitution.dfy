/**
 * Parser.findVarsAndReplace (Parser.java lines 70-81): `replaceAll` with the
 * regex `('[^']*')|(\$([^$"']+))` over one token. A closed single-quoted span
 * is put back as it was; `$NAME` is replaced by the variable's value, `""`
 * when it is unset. Scanning resumes after each match, so an inserted value
 * is never scanned again.
 */
module Substitution {
  import opened Lexical
  import opened Environments

  /** Characters a variable name may hold: `[^$"']`. */
  predicate IsNameChar(c: char)
  {
    c != '$' && c != '"' && c != '\''
  }

  /** Length of the maximal run of name characters at the front. */
  function NameLen(u: string): (n: nat)
    ensures n <= |u|
    decreases |u|
  {
    if u != [] && IsNameChar(u[0]) then 1 + NameLen(u[1..]) else 0
  }

  /** The token with every `$NAME` outside single quotes replaced by its value. */
  function Substitute(t: string, vars: map<string, string>): (r: string)
    decreases |t|
  {
    if t == [] then []
    else if t[0] == '\'' && SingleQuotedLen(t[1..]).Some? then
      var n := SingleQuotedLen(t[1..]).value + 1;
      t[..n] + Substitute(t[n..], vars)
    else if t[0] == '$' && NameLen(t[1..]) > 0 then
      var n := NameLen(t[1..]) + 1;
      Lookup(vars, t[1..n]) + Substitute(t[n..], vars)
    else
      [t[0]] + Substitute(t[1..], vars)
  }

  /** A run of name characters ended by a non-name one has exactly that length. */
  lemma {:induction false} NameLenOf(name: string, rest: string)
    requires forall k :: 0 <= k < |name| ==> IsNameChar(name[k])
    requires rest == [] || !IsNameChar(rest[0])
    ensures NameLen(name + rest) == |name|
    decreases |name|
  {
    if name == [] {
      assert name + rest == rest;
    } else {
      assert (name + rest)[1..] == name[1..] + rest;
      NameLenOf(name[1..], rest);
    }
  }

  /** A character that starts no match is copied as it is; `"` is one of them. */
  lemma SubstitutePlainChar(c: char, rest: string, vars: map<string, string>)
    requires c != '$' && c != '\''
    ensures Substitute([c] + rest, vars) == [c] + Substitute(rest, vars)
  {
    assert ([c] + rest)[1..] == rest;
  }

  /** A token without `$` is left as it is. */
  lemma {:induction false} SubstituteNoDollar(t: string, vars: map<string, string>)
    requires '$' !in t
    ensures Substitute(t, vars) == t
    decreases |t|
  {
    if t != [] {
      assert t[0] in t;
      if t[0] == '\'' && SingleQuotedLen(t[1..]).Some? {
        var n := SingleQuotedLen(t[1..]).value + 1;
        assert forall c :: c in t[n..] ==> c in t;
        SubstituteNoDollar(t[n..], vars);
        assert t == t[..n] + t[n..];
      } else {
        assert forall c :: c in t[1..] ==> c in t;
        SubstituteNoDollar(t[1..], vars);
        assert t == [t[0]] + t[1..];
      }
    }
  }

  /**
   * `$NAME` followed by a character that cannot continue the name is
   * replaced by the value of NAME (`""` when unset), and the value is not
   * scanned again: scanning resumes after the name.
   */
  lemma SubstituteVariable(name: string, rest: string, vars: map<string, string>)
    requires name != [] && forall k :: 0 <= k < |name| ==> IsNameChar(name[k])
    requires rest == [] || !IsNameChar(rest[0])
    ensures Substitute(['$'] + name + rest, vars) == Lookup(vars, name) + Substitute(rest, vars)
  {
    var t := ['$'] + name + rest;
    assert t[1..] == name + rest;
    NameLenOf(name, rest);
    var n := |name| + 1;
    assert t[1..n] == name;
    assert t[n..] == rest;
  }

  /** A `$` that no name follows stays literal. */
  lemma SubstituteLoneDollar(rest: string, vars: map<string, string>)
    requires rest == [] || !IsNameChar(rest[0])
    ensures Substitute(['$'] + rest, vars) == ['$'] + Substitute(rest, vars)
  {
    var t := ['$'] + rest;
    assert t[1..] == rest;
  }

  /** A closed single-quoted span is put back untouched, `$` and all. */
  lemma SubstituteSingleQuoted(x: string, rest: string, vars: map<string, string>)
    requires '\'' !in x
    ensures Substitute(['\''] + x + ['\''] + rest, vars) == ['\''] + x + ['\''] + Substitute(rest, vars)
  {
    var s := ['\''] + x + ['\''];
    var t := s + rest;
    assert t[1..] == x + ['\''] + rest;
    SingleQuotedFirst(x, rest);
    assert t[..|s|] == s;
    assert t[|s|..] == rest;
  }

  /** Text without `$` and quotes passed through unchanged, before anything else. */
  lemma {:induction false} SubstitutePlainPrefix(a: string, rest: string, vars: map<string, string>)
    requires '$' !in a && '\'' !in a
    ensures Substitute(a + rest, vars) == a + Substitute(rest, vars)
    decreases |a|
  {
    if a == [] {
      assert a + rest == rest;
    } else {
      var t := a + rest;
      assert a[0] in a;
      assert t[0] == a[0];
      assert t[1..] == a[1..] + rest;
      assert Substitute(t, vars) == [a[0]] + Substitute(t[1..], vars);
      assert forall c :: c in a[1..] ==> c in a;
      SubstitutePlainPrefix(a[1..], rest, vars);
      assert [a[0]] + (a[1..] + Substitute(rest, vars)) == a + Substitute(rest, vars);
    }
  }
}
