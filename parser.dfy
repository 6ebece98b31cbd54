/**
 * Parser.parse (Parser.java lines 19-67) and Parser.setVarIfNeed (lines
 * 84-101): a line is rejected, stored as an assignment, or turned into the
 * commands of a pipeline, in that order.
 */
module Parser {
  import opened Wrappers
  import opened Lexical
  import opened Quotes
  import opened Tokenizer
  import opened Environments
  import opened Commands
  import opened Substitution
  import opened Assignments
  import opened Rejection
  import opened Grouping

  /** What a line does: the commands it yields and the variables afterwards. */
  datatype Outcome = Outcome(commands: seq<Descriptor>, vars: map<string, string>)

  /**
   * The assignment setVarIfNeed stores: the token has the assignment shape
   * and its value is not empty.
   */
  function AssignmentOf(t: string): (r: Option<Assignment>)
    ensures r.Some? ==> ValidName(r.value.name) && r.value.value != []
    ensures r.Some? ==> t == r.value.name + "=" + r.value.value
  {
    var m := SplitAssignment(t);
    if m.Some? && m.value.value != [] then m else None
  }

  /** `NAME=VALUE` with a valid name and a non-empty one-line value is stored. */
  lemma AssignmentOfExact(name: string, value: string)
    requires ValidName(name) && SingleLine(value) && value != []
    ensures AssignmentOf(name + "=" + value) == Some(Assignment(name, value))
  {
    SplitAssignmentExact(name, value);
  }

  /** `NAME=` with nothing after the `=` is refused. */
  lemma AssignmentOfEmptyValue(name: string)
    requires ValidName(name)
    ensures AssignmentOf(name + "=") == None
  {
    assert name + "=" == name + "=" + "";
    SplitAssignmentExact(name, "");
  }

  /** A token with no `=` is never an assignment. */
  lemma AssignmentNeedsEquals(t: string)
    requires '=' !in t
    ensures AssignmentOf(t) == None
  {
  }

  /** setVarIfNeed: stores `evalQuotes(VALUE)` under NAME when the token is an assignment. */
  method SetVarIfNeed(token: string, env: Environment) returns (stored: bool)
    requires env.Valid()
    modifies env
    ensures env.Valid()
    ensures stored <==> AssignmentOf(token).Some?
    ensures stored ==> env.vars == old(env.vars)[AssignmentOf(token).value.name := EvalQuotes(AssignmentOf(token).value.value)]
    ensures !stored ==> unchanged(env)
  {
    var m := SplitAssignment(token);
    if m.None? {
      return false;
    }
    if m.value.value == [] {
      return false;
    }
    env.SetVar(m.value.name, EvalQuotes(m.value.value));
    return true;
  }

  /**
   * The loop of lines 41-47: each token has its variables substituted and
   * is tokenized again, the results laid end to end.
   */
  function Expand(ts: seq<string>, vars: map<string, string>): seq<string>
    decreases |ts|
  {
    if ts == [] then []
    else Expand(ts[..|ts| - 1], vars) + Tokens(Substitute(ts[|ts| - 1], vars))
  }

  /** Each token is expanded on its own, so expansion distributes over concatenation. */
  lemma {:induction false} ExpandAppend(a: seq<string>, b: seq<string>, vars: map<string, string>)
    ensures Expand(a + b, vars) == Expand(a, vars) + Expand(b, vars)
    decreases |b|
  {
    if b == [] {
      assert a + b == a;
    } else {
      var p := b[..|b| - 1];
      var t := b[|b| - 1];
      ExpandAppend(a, p, vars);
      ExpandAppendStep(a, p, t, vars);
      assert b == p + [t];
    }
  }

  /** One step of ExpandAppend: a token appended to both sides is expanded last on both. */
  lemma ExpandAppendStep(a: seq<string>, p: seq<string>, t: string, vars: map<string, string>)
    requires Expand(a + p, vars) == Expand(a, vars) + Expand(p, vars)
    ensures Expand(a + (p + [t]), vars) == Expand(a, vars) + Expand(p + [t], vars)
  {
    SnocAssoc(a, p, t);
    ExpandSnoc(a + p, t, vars);
    ExpandSnoc(p, t, vars);
    AppendAssoc(Expand(a, vars), Expand(p, vars), Tokens(Substitute(t, vars)));
  }

  /** A token appended at the end is expanded last. */
  lemma ExpandSnoc(p: seq<string>, t: string, vars: map<string, string>)
    ensures Expand(p + [t], vars) == Expand(p, vars) + Tokens(Substitute(t, vars))
  {
    SnocParts(p, t);
    ExpandLast(p + [t], vars);
  }

  /** Proof helpers: sequence identities, kept apart so that they are not proved next to the terms of the recursive functions, where they are costly. */
  lemma SnocParts(p: seq<string>, t: string)
    ensures (p + [t])[..|p + [t]| - 1] == p && (p + [t])[|p + [t]| - 1] == t
  {
  }

  lemma SnocAssoc(a: seq<string>, p: seq<string>, t: string)
    ensures a + (p + [t]) == (a + p) + [t]
  {
  }

  lemma AppendAssoc(x: seq<string>, y: seq<string>, z: seq<string>)
    ensures (x + y) + z == x + (y + z)
  {
  }

  /** A token that substitution and re-tokenizing give back unchanged. */
  predicate Stable(t: string, vars: map<string, string>)
  {
    Tokens(Substitute(t, vars)) == [t]
  }

  /** Stable tokens come out of expansion as they went in. */
  lemma {:induction false} ExpandIdentity(ts: seq<string>, vars: map<string, string>)
    requires forall k :: 0 <= k < |ts| ==> Stable(ts[k], vars)
    ensures Expand(ts, vars) == ts
    decreases |ts|
  {
    if ts != [] {
      var p := ts[..|ts| - 1];
      var last := ts[|ts| - 1];
      ExpandIdentity(p, vars);
      assert Stable(last, vars);
      ExpandIdentityStep(p, last, vars);
      assert ts == p + [last];
    }
  }

  /** One step of ExpandIdentity: a stable token after tokens expansion keeps. */
  lemma ExpandIdentityStep(p: seq<string>, last: string, vars: map<string, string>)
    requires Expand(p, vars) == p && Stable(last, vars)
    ensures Expand(p + [last], vars) == p + [last]
  {
    var ts := p + [last];
    assert ts[..|ts| - 1] == p;
    assert ts[|ts| - 1] == last;
    ExpandLast(ts, vars);
  }

  lemma ExpandLast(ts: seq<string>, vars: map<string, string>)
    requires ts != []
    ensures Expand(ts, vars) == Expand(ts[..|ts| - 1], vars) + Tokens(Substitute(ts[|ts| - 1], vars))
  {
  }

  /** Without `$`, the second tokenization gives back the first. */
  lemma ExpandPlain(line: string, vars: map<string, string>)
    requires '$' !in line
    ensures Expand(Tokens(line), vars) == Tokens(line)
  {
    var ts := Tokens(line);
    TokensChars(line);
    TokensIdempotent(line);
    forall k | 0 <= k < |ts|
      ensures Stable(ts[k], vars)
    {
      assert ts[k] in ts;
      SubstituteNoDollar(ts[k], vars);
    }
    ExpandIdentity(ts, vars);
  }

  /** One descriptor per group of tokens, as `new Command(singleCommand)` splits it. */
  function Descriptors(gs: seq<seq<string>>): seq<Descriptor>
  {
    seq(|gs|, i requires 0 <= i < |gs| => Describe(gs[i]))
  }

  /** Lines 37-66 on the tokens of an accepted line. */
  function ParseTokens(ts: seq<string>, vars: map<string, string>): (o: Outcome)
    ensures o.commands != [] ==> o.vars == vars
    ensures o.vars.Keys >= vars.Keys
  {
    if |ts| == 1 && AssignmentOf(ts[0]).Some? then
      var a := AssignmentOf(ts[0]).value;
      Outcome([], vars[a.name := EvalQuotes(a.value)])
    else
      Outcome(Descriptors(Groups(Expand(ts, vars))), vars)
  }

  /**
   * What `parse` does with a line (None stands for Java's null) and the
   * variables it starts from. A line that yields commands sets no
   * variable, and no variable is ever removed.
   */
  function ParseLine(line: Option<string>, vars: map<string, string>): (o: Outcome)
    ensures o.commands != [] ==> o.vars == vars
    ensures o.vars.Keys >= vars.Keys
  {
    if line.None? || IsBlank(line.value) || UnclosedQuotes(line.value) then Outcome([], vars)
    else ParseTokens(Tokens(line.value), vars)
  }

  /**
   * Parser.parse. The environment changes only through an assignment line;
   * the commands are new objects attached to the standard streams.
   */
  method Parse(line: Option<string>, env: Environment) returns (commands: seq<Command>)
    requires env.Valid()
    modifies env
    ensures env.Valid()
    ensures env.vars == ParseLine(line, old(env.vars)).vars
    ensures |commands| == |ParseLine(line, old(env.vars)).commands|
    ensures forall i :: 0 <= i < |commands| ==>
      fresh(commands[i]) &&
      Descriptor(commands[i].name, commands[i].args) == ParseLine(line, old(env.vars)).commands[i] &&
      commands[i].stdin == StandardInput && commands[i].stdout == StandardOutput
  {
    if line.None? || IsBlank(line.value) {
      return [];
    }
    if UnclosedQuotes(line.value) {
      return [];
    }
    ParseAccepted(line.value, env.vars);
    var tokens := Tokenize(line.value);
    if |tokens| == 1 {
      var stored := SetVarIfNeed(tokens[0], env);
      if stored {
        return [];
      }
    }
    ParseCommands(tokens, env.vars);
    var tokensAfterVars := ExpandAll(tokens, env);
    commands := BuildCommands(tokensAfterVars);
  }

  /** Lines 41-47: substitution and a second tokenization, token by token. */
  method ExpandAll(tokens: seq<string>, env: Environment) returns (tokensAfterVars: seq<string>)
    requires env.Valid()
    ensures tokensAfterVars == Expand(tokens, env.vars)
  {
    tokensAfterVars := [];
    var i := 0;
    while i < |tokens|
      invariant 0 <= i <= |tokens|
      invariant tokensAfterVars == Expand(tokens[..i], env.vars)
    {
      var replaced := Substitute(tokens[i], env.vars);
      var more := Tokenize(replaced);
      assert tokens[..i + 1][..i] == tokens[..i];
      tokensAfterVars := tokensAfterVars + more;
      i := i + 1;
    }
    assert tokens[..|tokens|] == tokens;
  }

  /**
   * Lines 49-66: a command for every `|` and one for a non-empty remainder,
   * each new and attached to the standard streams.
   */
  method BuildCommands(tokens: seq<string>) returns (commands: seq<Command>)
    ensures |commands| == |Groups(tokens)|
    ensures forall i :: 0 <= i < |commands| ==>
      fresh(commands[i]) &&
      Descriptor(commands[i].name, commands[i].args) == Descriptors(Groups(tokens))[i] &&
      commands[i].stdin == StandardInput && commands[i].stdout == StandardOutput
  {
    commands := [];
    var singleCommand: seq<string> := [];
    var j := 0;
    ghost var closed: seq<seq<string>> := [];
    while j < |tokens|
      invariant 0 <= j <= |tokens|
      invariant Fold(tokens[..j]) == GroupState(closed, singleCommand)
      invariant |commands| == |closed|
      invariant forall k :: 0 <= k < |commands| ==>
        fresh(commands[k]) &&
        Descriptor(commands[k].name, commands[k].args) == Describe(closed[k]) &&
        commands[k].stdin == StandardInput && commands[k].stdout == StandardOutput
    {
      FoldPrefixStep(tokens, j);
      if tokens[j] == "|" {
        var c := new Command(singleCommand);
        commands := commands + [c];
        closed := closed + [singleCommand];
        singleCommand := [];
      } else {
        singleCommand := singleCommand + [EvalQuotes(tokens[j])];
      }
      j := j + 1;
    }
    assert tokens[..|tokens|] == tokens;
    if singleCommand != [] {
      var c := new Command(singleCommand);
      commands := commands + [c];
    }
  }

  /** A line that passes both checks is parsed from its tokens. */
  lemma ParseAccepted(line: string, vars: map<string, string>)
    requires !IsBlank(line) && !UnclosedQuotes(line)
    ensures ParseLine(Some(line), vars) == ParseTokens(Tokens(line), vars)
  {
  }

  /** Tokens that are not a lone assignment become commands, the variables untouched. */
  lemma ParseCommands(ts: seq<string>, vars: map<string, string>)
    requires |ts| != 1 || AssignmentOf(ts[0]).None?
    ensures ParseTokens(ts, vars) == Outcome(Descriptors(Groups(Expand(ts, vars))), vars)
  {
  }

  /**
   * Proof helper: a run of word characters holds no quote, pipe or
   * whitespace, as `in` facts the whole-line lemmas below can use.
   */
  lemma WordChars(w: string)
    requires Word(w)
    ensures '"' !in w && '\'' !in w && '|' !in w && ' ' !in w
  {
    forall k | 0 <= k < |w|
      ensures w[k] != '"' && w[k] != '\'' && w[k] != '|' && w[k] != ' '
    {
      assert IsWordChar(w[k]);
    }
  }

  /** A line without quote characters is never rejected as unclosed. */
  lemma QuoteFreeAccepted(line: string)
    requires '"' !in line && '\'' !in line
    ensures !UnclosedQuotes(line)
  {
    LeadingNeedsQuote(line);
    CountAbsent(line, '\'');
    SingleUnclosedOdd(line);
  }

  /**
   * An odd number of `'` anywhere in the line rejects it before anything
   * else happens: no command and no assignment.
   */
  lemma ParseOddSingles(line: string, vars: map<string, string>)
    requires Count(line, '\'') % 2 == 1
    ensures ParseLine(Some(line), vars) == Outcome([], vars)
  {
    SingleUnclosedOdd(line);
  }

  /** Without backslashes, an odd number of `"` rejects the line the same way. */
  lemma ParseOddDoubles(line: string, vars: map<string, string>)
    requires '\\' !in line && Count(line, '"') % 2 == 1
    ensures ParseLine(Some(line), vars) == Outcome([], vars)
  {
    DoubleUnclosedOdd(line);
  }

  /**
   * A line of one word `NAME=VALUE` stores VALUE under NAME and yields no
   * command; VALUE is stored as written, with no substitution.
   */
  lemma ParseAssignment(name: string, value: string, vars: map<string, string>)
    requires Word(name) && '=' !in name
    requires Word(value) && SingleLine(value)
    ensures ParseLine(Some(name + "=" + value), vars) == Outcome([], vars[name := value])
  {
    var t := name + "=" + value;
    WordChars(name);
    WordChars(value);
    assert Word(t) by {
      forall k | 0 <= k < |t|
        ensures IsWordChar(t[k])
      {
        if k < |name| {
          assert t[k] == name[k];
        } else if k > |name| {
          assert t[k] == value[k - |name| - 1];
        }
      }
    }
    TokensWord(t, []);
    assert t + [] == t;
    assert !IsBlank(t) by {
      assert t[|name|] == '=';
    }
    assert '"' !in t && '\'' !in t;
    QuoteFreeAccepted(t);
    assert ValidName(name) by {
      forall k | 0 <= k < |name|
        ensures IsAssignNameChar(name[k])
      {
        assert name[k] in name;
      }
    }
    AssignmentOfExact(name, value);
  }

  /**
   * `NAME=` with an empty value is not an assignment: it runs as a command
   * named `NAME=` without arguments, and no variable changes.
   */
  lemma ParseEmptyValue(name: string, vars: map<string, string>)
    requires Word(name) && '=' !in name && '$' !in name
    ensures ParseLine(Some(name + "="), vars) == Outcome([Descriptor(name + "=", [])], vars)
  {
    var t := name + "=";
    EmptyValueLine(name);
    ParseAccepted(t, vars);
    ParseCommands([t], vars);
    ExpandPlain(t, vars);
    GroupsNoPipe([t]);
    ResolveOne(t);
    DescribeOne(t);
  }

  lemma EmptyValueLine(name: string)
    requires Word(name) && '=' !in name && '$' !in name
    ensures var t := name + "=";
      Tokens(t) == [t] && !IsBlank(t) && !UnclosedQuotes(t) && AssignmentOf(t) == None &&
      '$' !in t && "|" !in [t] && !HasQuote(t)
  {
    var t := name + "=";
    WordChars(name);
    assert Word(t) by {
      forall k | 0 <= k < |t|
        ensures IsWordChar(t[k])
      {
        if k < |name| {
          assert t[k] == name[k];
        }
      }
    }
    TokensWord(t, []);
    assert t + [] == t;
    assert t[|name|] == '=';
    assert '"' !in t && '\'' !in t;
    QuoteFreeAccepted(t);
    assert ValidName(name) by {
      forall k | 0 <= k < |name|
        ensures IsAssignNameChar(name[k])
      {
        assert name[k] in name;
      }
    }
    AssignmentOfEmptyValue(name);
  }

  /**
   * Two two-word stages joined by ` | ` give two commands, each with its
   * name and one argument, in order.
   */
  lemma ParseTwoStages(a: string, b: string, c: string, d: string, vars: map<string, string>)
    requires Word(a) && Word(b) && Word(c) && Word(d)
    requires '$' !in a && '$' !in b && '$' !in c && '$' !in d
    ensures ParseLine(Some(a + (" " + (b + (" | " + (c + (" " + d)))))), vars)
      == Outcome([Descriptor(a, [b]), Descriptor(c, [d])], vars)
  {
    var line := a + (" " + (b + (" | " + (c + (" " + d)))));
    TwoStagesTokens(a, b, c, d);
    var ts := [a, b, "|", c, d];
    TwoStagesAccepted(a, b, c, d);
    ParseAccepted(line, vars);
    ParseCommands(ts, vars);
    ExpandPlain(line, vars);
    TwoStagesGroups(a, b, c, d);
  }

  lemma TwoStagesTokens(a: string, b: string, c: string, d: string)
    requires Word(a) && Word(b) && Word(c) && Word(d)
    ensures Tokens(a + (" " + (b + (" | " + (c + (" " + d)))))) == [a, b, "|", c, d]
  {
    TokensTwoWords(c, d, []);
    assert d + [] == d;
    TokensStage(a, b, c + (" " + d));
  }

  lemma TwoStagesAccepted(a: string, b: string, c: string, d: string)
    requires Word(a) && Word(b) && Word(c) && Word(d)
    requires '$' !in a && '$' !in b && '$' !in c && '$' !in d
    ensures var line := a + (" " + (b + (" | " + (c + (" " + d)))));
      !IsBlank(line) && !UnclosedQuotes(line) && '$' !in line
  {
    var line := a + (" " + (b + (" | " + (c + (" " + d)))));
    WordChars(a);
    WordChars(b);
    WordChars(c);
    WordChars(d);
    assert line[|a| + |b| + 2] == '|';
    assert '"' !in line && '\'' !in line;
    QuoteFreeAccepted(line);
  }

  lemma TwoStagesGroups(a: string, b: string, c: string, d: string)
    requires Word(a) && Word(b) && Word(c) && Word(d)
    ensures Descriptors(Groups([a, b, "|", c, d])) == [Descriptor(a, [b]), Descriptor(c, [d])]
  {
    WordChars(a);
    WordChars(b);
    WordChars(c);
    WordChars(d);
    assert [a, b, "|", c, d] == [a, b] + ["|"] + [c, d];
    GroupsSplit([a, b], [c, d]);
    GroupsNoPipe([c, d]);
    assert Resolve([a, b]) == [a, b];
    assert Resolve([c, d]) == [c, d];
  }

  /**
   * A double-quoted argument stays one argument, spaces and `|` included,
   * and loses its quotes.
   */
  lemma ParseQuotedArgument(a: string, x: string, vars: map<string, string>)
    requires Word(a) && '$' !in a && '\\' !in a
    requires '"' !in x && '\'' !in x && '\\' !in x && '$' !in x
    ensures ParseLine(Some(a + (" " + (['"'] + x + ['"']))), vars) == Outcome([Descriptor(a, [x])], vars)
  {
    var q := ['"'] + x + ['"'];
    var line := a + (" " + q);
    QuotedArgumentTokens(a, x);
    QuotedArgumentAccepted(a, x);
    ParseAccepted(line, vars);
    ParseCommands([a, q], vars);
    ExpandPlain(line, vars);
    QuotedArgumentGroups(a, x);
  }

  lemma QuotedArgumentGroups(a: string, x: string)
    requires Word(a)
    requires '"' !in x && '\\' !in x
    ensures Descriptors(Groups([a, ['"'] + x + ['"']])) == [Descriptor(a, [x])]
  {
    var q := ['"'] + x + ['"'];
    WordChars(a);
    assert "|" !in [a, q] by {
      assert q[0] == '"';
    }
    GroupsNoPipe([a, q]);
    QuotedArgumentResolved(x);
    assert Resolve([a, q]) == [a, x];
  }

  lemma QuotedArgumentTokens(a: string, x: string)
    requires Word(a)
    requires '"' !in x && '\\' !in x
    ensures Tokens(a + (" " + (['"'] + x + ['"']))) == [a, ['"'] + x + ['"']]
  {
    var q := ['"'] + x + ['"'];
    TokensDoubleQuoted(x, []);
    assert q + [] == q;
    TokensSpace(' ', q);
    assert " " + q == [' '] + q;
    TokensWord(a, " " + q);
  }

  lemma QuotedArgumentAccepted(a: string, x: string)
    requires Word(a) && '$' !in a && '\\' !in a
    requires '"' !in x && '\'' !in x && '\\' !in x && '$' !in x
    ensures var line := a + (" " + (['"'] + x + ['"']));
      !IsBlank(line) && !UnclosedQuotes(line) && '$' !in line
  {
    var line := a + (" " + (['"'] + x + ['"']));
    QuotedArgumentChars(a, x);
    WordChars(a);
    QuotedArgumentQuotes(a, x);
    CountAbsent(line, '\'');
    UnclosedByParity(line);
  }

  /** Proof helper: the characters of such a line, a `"` after the word and its space. */
  lemma QuotedArgumentChars(a: string, x: string)
    requires Word(a) && '$' !in a && '\\' !in a
    requires '"' !in x && '\'' !in x && '\\' !in x && '$' !in x
    ensures var line := a + (" " + (['"'] + x + ['"']));
      line[|a| + 1] == '"' && '\'' !in line && '\\' !in line && '$' !in line
  {
    WordChars(a);
  }

  /** Proof helper: such a line holds exactly the two `"` around the argument. */
  lemma QuotedArgumentQuotes(a: string, x: string)
    requires '"' !in a && '"' !in x
    ensures Count(a + (" " + (['"'] + x + ['"'])), '"') == 2
  {
    var q := ['"'] + x + ['"'];
    CountAppend(a, " " + q, '"');
    CountAppend(" ", q, '"');
    CountAppend(['"'] + x, ['"'], '"');
    CountAppend(['"'], x, '"');
    CountAbsent(a, '"');
    CountAbsent(x, '"');
  }

  /** Quote resolution strips the quotes of a plain double-quoted span. */
  lemma QuotedArgumentResolved(x: string)
    requires '"' !in x && '\\' !in x
    ensures EvalQuotes(['"'] + x + ['"']) == x
  {
    DoubleQuotedFirst(x, []);
    assert x + ['"'] + [] == x + ['"'];
    EvalDoubleSpan(x, []);
    assert ['"'] + x + ['"'] + [] == ['"'] + x + ['"'];
    WeakPlain(x);
    assert x + [] == x;
  }

  /**
   * The value of a variable is tokenized again: `$NAME` alone on a line
   * runs the commands its value spells out, split at its spaces and pipes.
   */
  lemma ParseVariable(name: string, vars: map<string, string>)
    requires name != [] && forall k :: 0 <= k < |name| ==> IsNameChar(name[k]) && IsWordChar(name[k])
    requires '=' !in name
    ensures ParseLine(Some(['$'] + name), vars)
      == Outcome(Descriptors(Groups(Tokens(Lookup(vars, name)))), vars)
  {
    var t := ['$'] + name;
    assert Word(t) by {
      forall k | 0 <= k < |t|
        ensures IsWordChar(t[k])
      {
        if k > 0 {
          assert t[k] == name[k - 1];
        }
      }
    }
    TokensWord(t, []);
    assert t + [] == t;
    assert !IsBlank(t) by {
      assert t[0] == '$';
    }
    assert '"' !in t && '\'' !in t by {
      forall k | 0 <= k < |t|
        ensures t[k] != '"' && t[k] != '\''
      {
        if k > 0 {
          assert t[k] == name[k - 1];
        }
      }
    }
    QuoteFreeAccepted(t);
    assert '=' !in t;
    AssignmentNeedsEquals(t);
    SubstituteVariable(name, [], vars);
    assert t + [] == t;
    assert Lookup(vars, name) + [] == Lookup(vars, name);
    assert Expand([t], vars) == Tokens(Substitute(t, vars)) by {
      assert [t][..0] == [];
    }
  }

  /** A variable whose value is `a | c` splits the line into two commands there. */
  lemma ParseVariablePipe(name: string, a: string, c: string, vars: map<string, string>)
    requires name != [] && forall k :: 0 <= k < |name| ==> IsNameChar(name[k]) && IsWordChar(name[k])
    requires '=' !in name
    requires Word(a) && Word(c)
    requires name in vars && vars[name] == a + (" | " + c)
    ensures ParseLine(Some(['$'] + name), vars) == Outcome([Descriptor(a, []), Descriptor(c, [])], vars)
  {
    ParseVariable(name, vars);
    assert Lookup(vars, name) == a + (" | " + c);
    PipeValueTokens(a, c);
    PipeValueGroups(a, c);
  }

  lemma PipeValueTokens(a: string, c: string)
    requires Word(a) && Word(c)
    ensures Tokens(a + (" | " + c)) == [a, "|", c]
  {
    TokensWord(c, []);
    assert c + [] == c;
    TokensStagesPipe(c);
    var r := " | " + c;
    assert r[0] == ' ';
    TokensWord(a, r);
    assert [a] + (["|"] + [c]) == [a, "|", c];
  }

  lemma PipeValueGroups(a: string, c: string)
    requires Word(a) && Word(c)
    ensures Descriptors(Groups([a, "|", c])) == [Descriptor(a, []), Descriptor(c, [])]
  {
    WordChars(a);
    WordChars(c);
    assert [a, "|", c] == [a] + ["|"] + [c];
    GroupsSplit([a], [c]);
    GroupsNoPipe([c]);
    ResolveOne(a);
    ResolveOne(c);
    DescribeTwo(a, c);
  }

  /** Proof helper: a token without quotes resolves to itself. */
  lemma ResolveOne(t: string)
    requires !HasQuote(t)
    ensures Resolve([t]) == [t]
  {
  }

  /** Proof helper: a one-token command is described by its name alone. */
  lemma DescribeOne(t: string)
    ensures Descriptors([[t]]) == [Descriptor(t, [])]
  {
    assert [t][1..] == [];
  }

  /** Proof helper: two one-token commands are described by their names alone. */
  lemma DescribeTwo(a: string, c: string)
    ensures Descriptors([[a]] + [[c]]) == [Descriptor(a, []), Descriptor(c, [])]
  {
    assert [a][1..] == [];
    assert [c][1..] == [];
  }
}
