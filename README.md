# cli-arch command-line parser, modelled in Dafny

This project models the parser of the cli-arch shell and the two data holders it
works with: `Command` (one stage of a pipeline) and `Environment` (the shell's
variables). `Parser.parse` takes a raw line and an environment and does four
things in order:

- it rejects a null or blank line, or one whose quotes are unbalanced;
- it splits the line into tokens;
- it stores a line that is a single `NAME=VALUE` token as a variable;
- otherwise it substitutes `$NAME` in every token and tokenizes the result
  again, then resolves quotes and splits the tokens at `|` into commands.

The Java regexes are written out over `seq<char>`. The token and quote
scanners are functions over the rest of the line that return the length of the
match there; the substitution regex is a function that rewrites a token; the
assignment regex returns the name and value it splits, if any; the
unclosed-quote regex is a set of predicates with the regex's own structure.
They are:

- the token regex (`Tokenizer`);
- the quote-resolution regex (`Quotes`, built on `Lexical`);
- the substitution regex (`Substitution`);
- the assignment regex (`Assignments`);
- the unclosed-quote regex (`Rejection`).

The Java code is modelled in its own form:

- `parse` and `tokenize` are methods with loops, and `setVarIfNeed` is a
  method that may update the environment. Each is proved against a
  specification function: `Parser.ParseLine`, `Tokenizer.Tokens` and
  `Parser.AssignmentOf`.
- `Environment` is a class with a `map` field that `SetVar` updates in place.
- `Command` is a class with constant name and arguments and two stream fields
  that the setters reassign.

Modules, one per file:

- `wrappers.dfy` (Wrappers): the `Option` type.
- `lexical.dfy` (Lexical): character classes and the two quoted-span scanners
  shared by the regexes.
- `quotes.dfy` (Quotes): `evalQuotes`.
- `tokenizer.dfy` (Tokenizer): `tokenize`.
- `environment.dfy` (Environments): `Environment`.
- `command.dfy` (Commands): `Command`.
- `substitution.dfy` (Substitution): `findVarsAndReplace`.
- `assignment.dfy` (Assignments): the shape `setVarIfNeed` matches.
- `rejection.dfy` (Rejection): the blank and unclosed-quote checks.
- `grouping.dfy` (Grouping): the loop that splits the token stream into
  commands.
- `parser.dfy` (Parser): `parse` and `setVarIfNeed`, and properties of whole
  lines.

## Behaviour that follows the code

Where the prose description of the shell and the code differ, the model
follows the code:

- **Quote rejection counts quotes over the whole line.** A line with an odd
  number of `'` is rejected even when the `'` sits inside double quotes, so
  `echo "it's"` yields nothing (`Rejection.UnclosedByParity`).
- **A backslash can hide an unclosed `"`.** The double-quote half of the
  unclosed-quote regex cannot read a backslash after an unclosed `"`. Such a
  line is not rejected (`Rejection.UnclosedMissedAfterBackslash`).
- **An empty value is an ordinary command.** `NAME=` is not an assignment; the
  line runs as a command named `NAME=` (`Parser.ParseEmptyValue`).
- **Pipes can make commands with no name.** A leading or doubled `|` closes an
  empty command, which has the name `""` and no arguments
  (`Grouping.GroupsSplit`).

## Model

| member | source | states |
|---|---|---|
| Lexical.SingleQuotedLen | src/main/java/org/cli/Parser.java:109 | a `'…'` span that closes lies inside the text |
| Lexical.SingleQuotedSpan | src/main/java/org/cli/Parser.java:109 | the span ends on a `'` and no `'` comes before it: it closes at the first one after the opening one |
| Lexical.SingleQuotedNone | src/main/java/org/cli/Parser.java:109 | a `'…'` span fails to close exactly when no `'` follows |
| Lexical.DoubleQuotedLen | src/main/java/org/cli/Parser.java:109 | a `"…"` span that closes lies inside the text |
| Lexical.DoubleQuotedCloses | src/main/java/org/cli/Parser.java:109 | a `"…"` span that closes ends on a `"` |
| Lexical.DoubleQuotedNone | src/main/java/org/cli/Parser.java:109 | a `"…"` span fails to close exactly when no `"` follows |
| Lexical.DoubleQuotedContent | src/main/java/org/cli/Parser.java:109 | every `"` inside the matched content has a backslash before it |
| Lexical.DoubleQuotedFirst | src/main/java/org/cli/Parser.java:109 | the lazy span closes at the first `"` that no backslash precedes |
| Lexical.DoubleQuotedEscaped | src/main/java/org/cli/Parser.java:109 | content whose quotes are all escaped, followed by `"`, is read as one span |
| Lexical.EscapedQuoteStep | src/main/java/org/cli/Parser.java:109 | an escaped `"` in the content does not close the span |
| Lexical.EscapedPlainStep | src/main/java/org/cli/Parser.java:109 | a character other than `"` and a backslash does not close the span |
| Lexical.DoubleQuotedEscapeStep | src/main/java/org/cli/Parser.java:109 | a backslash and the character after it are skipped together when the span still closes later |
| Lexical.DoubleQuotedPlainStep | src/main/java/org/cli/Parser.java:109 | a character other than `"` and a backslash is skipped |
| Lexical.SingleQuotedFirst | src/main/java/org/cli/Parser.java:109 | a `'…'` span closes at its first `'` |
| Lexical.SingleQuotedPrefix | src/main/java/org/cli/Parser.java:109 | a prefix holding the closed span gives the same span |
| Lexical.DoubleQuotedPrefix | src/main/java/org/cli/Parser.java:109 | a prefix holding the closed span gives the same span, backtracking included |
| Quotes.ReplaceEscape | src/main/java/org/cli/Parser.java:117 | replacing `\n` or `\t` never makes the text longer |
| Quotes.Unescape | src/main/java/org/cli/Parser.java:117 | reading the replacement string never makes the text longer |
| Quotes.Weak | src/main/java/org/cli/Parser.java:117 | the double-quoted content as line 117 rewrites it: `\n` and `\t` pairs become newline and tab, then the replacement-string reading drops escaping backslashes; its laws are WeakPlain, WeakNewline, WeakTab and WeakEscaped |
| Quotes.EvalQuotes | src/main/java/org/cli/Parser.java:108-121 | the result is never longer than the token, and a token without quotes is returned unchanged |
| Quotes.EvalPlainChar | src/main/java/org/cli/Parser.java:110-120 | a character that starts no quoted span is copied |
| Quotes.EvalDoubleStep | src/main/java/org/cli/Parser.java:115-118 | a closed `"…"` span at the front becomes its weak reading |
| Quotes.EvalPlainPrefix | src/main/java/org/cli/Parser.java:110-120 | quote-free text at the front passes through unchanged |
| Quotes.EvalPlainStep | src/main/java/org/cli/Parser.java:110-120 | one more character that is not a quote, in front, passes through too |
| Quotes.EvalSingleQuoted | src/main/java/org/cli/Parser.java:112-114 | a `'…'` span loses its quotes and keeps its content verbatim |
| Quotes.SingleQuoteRoundTrip | src/main/java/org/cli/Parser.java:112-114 | wrapping text without `'` in single quotes is undone by quote resolution |
| Quotes.ReplaceEscapeQuotes | src/main/java/org/cli/Parser.java:117 | the `\n`/`\t` rewriting leaves escaped quotes alone |
| Quotes.ReplaceEscapeQuoteStep | src/main/java/org/cli/Parser.java:117 | an escaped `"` is not an escape the `\n`/`\t` rewriting changes |
| Quotes.ReplaceEscapePlainStep | src/main/java/org/cli/Parser.java:117 | a character other than a backslash is copied by the rewriting |
| Quotes.UnescapeQuotes | src/main/java/org/cli/Parser.java:117 | reading the replacement string turns `\"` back into `"` |
| Quotes.EvalDoubleQuoted | src/main/java/org/cli/Parser.java:115-118 | escaping the quotes of backslash-free text and wrapping it in `"…"` is undone by quote resolution |
| Quotes.EvalDoubleSpan | src/main/java/org/cli/Parser.java:115-118 | a `"…"` span that closes where expected becomes its weak reading |
| Quotes.WeakEscaped | src/main/java/org/cli/Parser.java:117 | weak quoting undoes the escaping of quotes |
| Quotes.ReplacePlainPrefix | src/main/java/org/cli/Parser.java:117 | backslash-free text is not touched by the `\n`/`\t` rewriting |
| Quotes.ReplacePlainStep | src/main/java/org/cli/Parser.java:117 | one more character other than a backslash, in front, is not touched either |
| Quotes.UnescapePlainPrefix | src/main/java/org/cli/Parser.java:117 | backslash-free text is not touched by replacement-string reading |
| Quotes.UnescapePlainStep | src/main/java/org/cli/Parser.java:117 | one more character other than a backslash, in front, is not touched either |
| Quotes.WeakPlain | src/main/java/org/cli/Parser.java:117 | backslash-free double-quoted content is kept as written, `$` included |
| Quotes.WeakNewline | src/main/java/org/cli/Parser.java:117 | `\n` inside double quotes becomes a newline |
| Quotes.WeakTab | src/main/java/org/cli/Parser.java:117 | `\t` inside double quotes becomes a tab |
| Tokenizer.WordLen | src/main/java/org/cli/Parser.java:135 | the word run fits in the text |
| Tokenizer.WordLenRun | src/main/java/org/cli/Parser.java:135 | the word run holds only word characters and is maximal |
| Tokenizer.WordLenOf | src/main/java/org/cli/Parser.java:135 | a word run ended by a non-word character has exactly its length |
| Tokenizer.QuotedLen | src/main/java/org/cli/Parser.java:135 | a quoted span starts with a quote and is at least two characters long |
| Tokenizer.GroupsLen | src/main/java/org/cli/Parser.java:135 | the repeated quoted groups fit in the text |
| Tokenizer.MatchLen | src/main/java/org/cli/Parser.java:135 | a match is never empty and fits in the text |
| Tokenizer.Tokens | src/main/java/org/cli/Parser.java:128-141 | the tokens `find()` yields, left to right: the match at each position, or a skip of one character where nothing matches; Tokenize is proved equal to it |
| Tokenizer.TokensMatch | src/main/java/org/cli/Parser.java:137-139 | a successful `find()` emits the match and resumes after it |
| Tokenizer.TokensSkip | src/main/java/org/cli/Parser.java:137-139 | where nothing matches, `find()` moves on by one character |
| Tokenizer.Tokenize | src/main/java/org/cli/Parser.java:128-141 | the loop's tokens are exactly the tokens of the line |
| Tokenizer.TokensNonEmpty | src/main/java/org/cli/Parser.java:128-141 | every token is non-empty |
| Tokenizer.WordLenPrefix | src/main/java/org/cli/Parser.java:135 | a prefix holding the word run gives the same run |
| Tokenizer.QuotedLenPrefix | src/main/java/org/cli/Parser.java:135 | a prefix holding the quoted span gives the same span |
| Tokenizer.GroupsStep | src/main/java/org/cli/Parser.java:135 | one more repetition of the group: a quoted span and the word run after it |
| Tokenizer.GroupWithin | src/main/java/org/cli/Parser.java:135 | a quoted span and the word run after it lie inside the text |
| Tokenizer.WordsAfterPrefix | src/main/java/org/cli/Parser.java:135 | the word run after a quoted span is the same in a prefix that holds it |
| Tokenizer.GroupsPrefixStep | src/main/java/org/cli/Parser.java:135 | if the later repetitions read the same inside the prefix they cover, so do all of them |
| Tokenizer.GroupsNone | src/main/java/org/cli/Parser.java:135 | without a closed quoted span at the front there are no groups |
| Tokenizer.GroupsPrefix | src/main/java/org/cli/Parser.java:135 | the groups read the same inside the prefix they cover |
| Tokenizer.MatchPrefix | src/main/java/org/cli/Parser.java:135 | a token, matched on its own, is matched whole |
| Tokenizer.MatchSplit | src/main/java/org/cli/Parser.java:135 | a match that is not a lone pipe is a word run followed by the quoted groups |
| Tokenizer.MatchOf | src/main/java/org/cli/Parser.java:135 | a word run and quoted groups of positive total length are the whole match |
| Tokenizer.TokensIdempotent | src/main/java/org/cli/Parser.java:128-141 | tokenizing a token again gives exactly that token |
| Tokenizer.WordsThenSegments | src/main/java/org/cli/Parser.java:135 | word characters followed by segments are segments |
| Tokenizer.GroupsSegments | src/main/java/org/cli/Parser.java:135 | text the quoted groups cover is made of segments |
| Tokenizer.QuotedThenSegments | src/main/java/org/cli/Parser.java:135 | a quoted span and a word run followed by segments are segments |
| Tokenizer.GroupsStart | src/main/java/org/cli/Parser.java:135 | quoted groups that cover anything start with a closed quoted span |
| Tokenizer.GroupsRest | src/main/java/org/cli/Parser.java:135 | groups that cover the text also cover what follows their first repetition |
| Tokenizer.MatchShape | src/main/java/org/cli/Parser.java:135 | a whole match is a lone pipe or words and closed quoted spans |
| Tokenizer.TokensShape | src/main/java/org/cli/Parser.java:128-141 | every token is a lone pipe or starts with another character and is made of words and closed quoted spans |
| Tokenizer.SegmentsPlain | src/main/java/org/cli/Parser.java:135 | quote-free segments are word characters only |
| Tokenizer.TokensChars | src/main/java/org/cli/Parser.java:128-141 | every character of a token comes from the line |
| Tokenizer.TokensPlain | src/main/java/org/cli/Parser.java:128-141 | in a quote-free line every token is a lone pipe or a run without whitespace, pipes or quotes |
| Tokenizer.TokensSpace | src/main/java/org/cli/Parser.java:135-139 | unquoted whitespace separates tokens and is dropped |
| Tokenizer.TokensPipe | src/main/java/org/cli/Parser.java:135-139 | an unquoted pipe is a token of its own |
| Tokenizer.TokensWord | src/main/java/org/cli/Parser.java:135-139 | a word ended by whitespace, a pipe or the end of the line is one token |
| Tokenizer.TokensDoubleQuoted | src/main/java/org/cli/Parser.java:135-139 | a double-quoted span without inner `"` or backslash stays one token with its quotes, spaces and pipes included |
| Tokenizer.QuotedDouble | src/main/java/org/cli/Parser.java:135 | such a span is one closed quoted span, its length the whole span |
| Tokenizer.TokensEscapedDouble | src/main/java/org/cli/Parser.java:135-139 | a double-quoted span whose inner quotes are escaped as backslash-quote stays one token, escapes and quotes included |
| Tokenizer.QuotedEscaped | src/main/java/org/cli/Parser.java:135 | such a span is one closed quoted span |
| Tokenizer.TokensSingleQuoted | src/main/java/org/cli/Parser.java:135-139 | a single-quoted span stays one token with its quotes, whatever it holds besides `'` |
| Tokenizer.QuotedSingle | src/main/java/org/cli/Parser.java:135 | such a span is one closed quoted span, its length the whole span |
| Tokenizer.TokensWordAndEscaped | src/main/java/org/cli/Parser.java:128-141 | a word, a space and a double-quoted span with escaped quotes are two tokens, as in the escaped-quote tokenizer test |
| Tokenizer.MatchQuotedSpan | src/main/java/org/cli/Parser.java:135 | a closed quoted span followed by whitespace, a pipe or the end is the whole match there |
| Tokenizer.TokensFirst | src/main/java/org/cli/Parser.java:137-139 | when the match at the front is a given text exactly, that text is the first token |
| Tokenizer.TokensThreeStages | src/main/java/org/cli/Parser.java:128-141 | three two-word stages joined by spaced pipes give the eight tokens with the pipes among them |
| Tokenizer.TokensStage | src/main/java/org/cli/Parser.java:135-139 | a two-word stage followed by a spaced pipe gives three tokens |
| Tokenizer.TokensTwoWords | src/main/java/org/cli/Parser.java:135-139 | two words separated by a space are two tokens |
| Tokenizer.TokensWordSpace | src/main/java/org/cli/Parser.java:135-139 | a word followed by a space is one token and the space is dropped |
| Tokenizer.TokensStagesPipe | src/main/java/org/cli/Parser.java:135-139 | a pipe between spaces gives the pipe token alone |
| Environments.Lookup | src/main/java/org/cli/Environment.java:19-22 | the value of a set name, `""` for an unset one |
| Environments.LookupUpdate | src/main/java/org/cli/Environment.java:25-28 | after storing, the name reads the new value and every other name reads as before |
| Environments.Environment.constructor | src/main/java/org/cli/Environment.java:13-16 | a new environment maps `?` to `"0"` and nothing else |
| Environments.Environment.GetVar | src/main/java/org/cli/Environment.java:19-22 | the value of a set name or `?`, `""` for any other name |
| Environments.Environment.SetVar | src/main/java/org/cli/Environment.java:25-28 | the name reads the new value, overwriting; every other name keeps its value |
| Environments.Environment.ContainsVar | src/main/java/org/cli/Environment.java:31-33 | true exactly for a name that was set and for `?` |
| Environments.SetAndGet | src/main/java/org/cli/Environment.java:13-33 | a fresh environment reads `?` as `"0"`; the last value set wins; unset names read `""` and are not contained |
| Commands.Describe | src/main/java/org/cli/Command.java:19-27 | the first token is the name and the rest, in order, the arguments; no tokens give the name `""` and no arguments |
| Commands.Command.constructor | src/main/java/org/cli/Command.java:19-30 | name and arguments split as above, streams attached to standard input and output |
| Commands.Command.SetStdin | src/main/java/org/cli/Command.java:33-35 | changes stdin only |
| Commands.Command.SetStdout | src/main/java/org/cli/Command.java:37-39 | changes stdout only |
| Commands.Command.GetStdin | src/main/java/org/cli/Command.java:42-44 | the input endpoint last set, standard input for a new command (BuildAndRewire) |
| Commands.Command.GetStdout | src/main/java/org/cli/Command.java:46-48 | the output endpoint last set, standard output for a new command (BuildAndRewire) |
| Commands.Command.GetName | src/main/java/org/cli/Command.java:51-53 | the first token the command was built from, `""` for none (BuildAndRewire) |
| Commands.Command.GetArgs | src/main/java/org/cli/Command.java:56-58 | the remaining tokens, in order (BuildAndRewire) |
| Commands.Command.IsExit | src/main/java/org/cli/Command.java:61-63 | true exactly when the name is `exit` |
| Commands.BuildAndRewire | src/main/java/org/cli/Command.java:19-58 | the getters report the split, then the endpoints last set |
| Substitution.Substitute | src/main/java/org/cli/Parser.java:70-81 | `replaceAll` with the substitution regex: closed single-quoted spans are copied, `$NAME` becomes the value, and scanning resumes after each match; its laws are the Substitute* lemmas |
| Substitution.NameLenOf | src/main/java/org/cli/Parser.java:72 | a name run ended by a non-name character has exactly its length |
| Substitution.NameLen | src/main/java/org/cli/Parser.java:72 | the variable name after `$` fits in the token |
| Substitution.SubstitutePlainChar | src/main/java/org/cli/Parser.java:72-80 | a character other than `$` and `'` is copied, `"` included |
| Substitution.SubstituteNoDollar | src/main/java/org/cli/Parser.java:70-81 | a token without `$` is left unchanged |
| Substitution.SubstituteVariable | src/main/java/org/cli/Parser.java:72-78 | `$NAME` becomes the value of NAME, `""` when unset, and the value is not scanned again |
| Substitution.SubstituteLoneDollar | src/main/java/org/cli/Parser.java:72-80 | a `$` with no name after it stays literal |
| Substitution.SubstituteSingleQuoted | src/main/java/org/cli/Parser.java:72-80 | a closed single-quoted span is put back untouched |
| Substitution.SubstitutePlainPrefix | src/main/java/org/cli/Parser.java:70-81 | text without `$` and `'` at the front is copied |
| Assignments.NameRunOf | src/main/java/org/cli/Parser.java:85 | a name run ended by a non-name character has exactly its length |
| Assignments.NameRunStops | src/main/java/org/cli/Parser.java:85 | the name run stops at the first `=` or quote |
| Assignments.NameRunChars | src/main/java/org/cli/Parser.java:85 | the name run holds only name characters |
| Assignments.NameRun | src/main/java/org/cli/Parser.java:85 | the name run fits in the token |
| Assignments.SplitAssignment | src/main/java/org/cli/Parser.java:85-89 | a match gives a valid name, a one-line value, and the token is `NAME=VALUE` |
| Assignments.SplitAssignmentExact | src/main/java/org/cli/Parser.java:85-89 | every `NAME=VALUE` with a valid name and one-line value is matched with those groups |
| Assignments.SplitAssignmentNone | src/main/java/org/cli/Parser.java:85-87 | a token that does not match has no such reading at any `=` |
| Assignments.QuoteBeforeEquals | src/main/java/org/cli/Parser.java:85-87 | a quote before the first `=` means no assignment |
| Rejection.IsBlank | src/main/java/org/cli/Parser.java:21 | `trim().isEmpty()`: every character is at most U+0020 |
| Rejection.PairedSingles | src/main/java/org/cli/Parser.java:27 | the `([^']*('[^']*')*)*` part: single quotes in closed pairs |
| Rejection.SingleUnclosed | src/main/java/org/cli/Parser.java:27 | the first half of the regex: one `'` and then closed pairs |
| Rejection.Leading | src/main/java/org/cli/Parser.java:27 | the second half up to its first unescaped `"` |
| Rejection.Rest | src/main/java/org/cli/Parser.java:27 | the second half after that `"`: escaped quotes, other characters and `"…"` spans |
| Rejection.DoubleUnclosed | src/main/java/org/cli/Parser.java:27 | the second half of the regex |
| Rejection.UnclosedQuotes | src/main/java/org/cli/Parser.java:27-29 | `matches()` of the whole regex, either half; characterised by UnclosedByParity |
| Rejection.PairedSinglesEven | src/main/java/org/cli/Parser.java:27 | the closed-pairs part holds exactly for an even number of `'` |
| Rejection.SingleUnclosedOdd | src/main/java/org/cli/Parser.java:27-29 | the single-quote half matches exactly an odd number of `'` |
| Rejection.LeadingOdd | src/main/java/org/cli/Parser.java:27 | without backslashes, the part up to the first `"` holds exactly for an odd number of `"` |
| Rejection.RestEven | src/main/java/org/cli/Parser.java:27 | without backslashes, the part after it holds exactly for an even number of `"` |
| Rejection.DoubleUnclosedOdd | src/main/java/org/cli/Parser.java:27-29 | without backslashes, the double-quote half matches exactly an odd number of `"` |
| Rejection.UnclosedByParity | src/main/java/org/cli/Parser.java:27-32 | without backslashes, a line is rejected exactly when it has an odd number of `'` or of `"` |
| Rejection.RestNoQuote | src/main/java/org/cli/Parser.java:27 | text without `"` is read after the first quote exactly when it has no backslash |
| Rejection.LeadingNeedsQuote | src/main/java/org/cli/Parser.java:27 | the double-quote half needs a `"` |
| Rejection.LeadingPlainPrefix | src/main/java/org/cli/Parser.java:27 | text without quotes and backslashes in front does not change the double-quote half |
| Rejection.UnclosedMissedAfterBackslash | src/main/java/org/cli/Parser.java:27-32 | an unclosed `"` followed by a backslash is not rejected |
| Grouping.Fold | src/main/java/org/cli/Parser.java:49-60 | the loop state after a prefix of the tokens: a pipe closes the command built so far, any other token is added resolved |
| Grouping.Groups | src/main/java/org/cli/Parser.java:49-66 | the commands the loop and the final non-empty check produce; characterised by GroupsNoPipe, GroupsSplit and GroupsKeepOrder |
| Grouping.ResolveAppend | src/main/java/org/cli/Parser.java:58 | resolving tokens distributes over concatenation |
| Grouping.Resolve | src/main/java/org/cli/Parser.java:58 | one resolved token per token, each the quote resolution of the token in the same place |
| Grouping.WithoutPipes | src/main/java/org/cli/Parser.java:51-59 | the tokens kept as arguments contain no pipe |
| Grouping.FoldNoPipe | src/main/java/org/cli/Parser.java:51-60 | before the first pipe, every token goes, resolved, into the command being built |
| Grouping.FoldNoPipeStep | src/main/java/org/cli/Parser.java:51-60 | a token other than a pipe joins the command being built, resolved, and closes nothing |
| Grouping.FoldAfterPipe | src/main/java/org/cli/Parser.java:52-55 | a pipe closes the command built so far and the loop restarts |
| Grouping.GroupsNoPipe | src/main/java/org/cli/Parser.java:49-66 | tokens without a pipe give one command, or none when there are none |
| Grouping.GroupsSplit | src/main/java/org/cli/Parser.java:49-66 | the tokens before the first pipe are the first command, even an empty one |
| Grouping.FoldKeepsOrder | src/main/java/org/cli/Parser.java:51-60 | closed and open commands hold the resolved non-pipe tokens in order |
| Grouping.GroupsKeepOrder | src/main/java/org/cli/Parser.java:49-66 | all commands' arguments in order are the resolved non-pipe tokens in order |
| Parser.AssignmentOf | src/main/java/org/cli/Parser.java:84-101 | an assignment has a valid name, a non-empty value, and the token is `NAME=VALUE` |
| Parser.AssignmentOfExact | src/main/java/org/cli/Parser.java:87-98 | `NAME=VALUE` with a valid name and non-empty one-line value is stored |
| Parser.AssignmentOfEmptyValue | src/main/java/org/cli/Parser.java:91-94 | `NAME=` is refused |
| Parser.AssignmentNeedsEquals | src/main/java/org/cli/Parser.java:85-87 | a token without `=` is no assignment |
| Parser.SetVarIfNeed | src/main/java/org/cli/Parser.java:84-101 | true exactly for an assignment, which stores the quote-resolved value; otherwise nothing changes |
| Parser.Expand | src/main/java/org/cli/Parser.java:41-47 | each token substituted and tokenized again, the results laid end to end; ExpandAll is proved equal to it |
| Parser.ExpandAppend | src/main/java/org/cli/Parser.java:41-47 | tokens are expanded independently, so expansion distributes over concatenation |
| Parser.ExpandLast | src/main/java/org/cli/Parser.java:41-47 | the last token is expanded after the others and its tokens are appended |
| Parser.ExpandAppendStep | src/main/java/org/cli/Parser.java:41-47 | when expansion distributes over a split, it still does once a token is appended to the second part |
| Parser.ExpandSnoc | src/main/java/org/cli/Parser.java:41-47 | a token appended at the end contributes its own tokens after those of the tokens before it |
| Parser.ExpandIdentity | src/main/java/org/cli/Parser.java:41-47 | tokens that substitution and tokenizing leave alone pass unchanged |
| Parser.ExpandIdentityStep | src/main/java/org/cli/Parser.java:41-47 | a token that substitution and tokenizing leave alone, appended after tokens expansion keeps, is kept as well |
| Parser.ExpandPlain | src/main/java/org/cli/Parser.java:41-47 | without `$`, the second tokenization gives back the first |
| Parser.ParseTokens | src/main/java/org/cli/Parser.java:37-66 | a line that yields commands sets no variable; no variable is removed |
| Parser.ParseLine | src/main/java/org/cli/Parser.java:19-67 | a line that yields commands sets no variable; no variable is removed |
| Parser.Parse | src/main/java/org/cli/Parser.java:19-67 | the environment and the new commands are those ParseLine gives, all on the standard streams |
| Parser.ExpandAll | src/main/java/org/cli/Parser.java:41-47 | the loop's tokens are the expansion of the tokens |
| Parser.BuildCommands | src/main/java/org/cli/Parser.java:49-66 | one new command per group, with the group's name and arguments and the standard streams |
| Parser.ParseAccepted | src/main/java/org/cli/Parser.java:21-34 | a line that passes both checks is parsed from its tokens |
| Parser.ParseCommands | src/main/java/org/cli/Parser.java:37-66 | tokens that are not a lone assignment become commands and leave the variables alone |
| Parser.QuoteFreeAccepted | src/main/java/org/cli/Parser.java:27-32 | a line without quotes is never rejected as unclosed |
| Parser.ParseOddSingles | src/main/java/org/cli/Parser.java:21-32 | an odd number of `'` yields no command and leaves the variables unchanged |
| Parser.ParseOddDoubles | src/main/java/org/cli/Parser.java:21-32 | without backslashes, an odd number of `"` does the same |
| Parser.ParseAssignment | src/main/java/org/cli/Parser.java:37-39 | a one-word `NAME=VALUE` line stores VALUE under NAME and yields no command |
| Parser.ParseEmptyValue | src/main/java/org/cli/Parser.java:37-66 | `NAME=` runs as a command named `NAME=` and changes no variable |
| Parser.EmptyValueLine | src/main/java/org/cli/Parser.java:34-39 | `NAME=` is one accepted token that is not an assignment |
| Parser.ParseTwoStages | src/main/java/org/cli/Parser.java:19-67 | two two-word stages joined by a spaced pipe give the two commands in order |
| Parser.TwoStagesTokens | src/main/java/org/cli/Parser.java:34 | the five tokens of two piped two-word stages |
| Parser.TwoStagesAccepted | src/main/java/org/cli/Parser.java:21-32 | two piped two-word stages pass both checks |
| Parser.TwoStagesGroups | src/main/java/org/cli/Parser.java:49-66 | the tokens of two piped two-word stages group into two commands |
| Parser.ParseQuotedArgument | src/main/java/org/cli/Parser.java:19-67 | a double-quoted argument stays one argument, pipes and spaces included, without its quotes |
| Parser.QuotedArgumentTokens | src/main/java/org/cli/Parser.java:34 | a word and a double-quoted span are two tokens |
| Parser.QuotedArgumentAccepted | src/main/java/org/cli/Parser.java:21-32 | such a line passes both checks |
| Parser.QuotedArgumentGroups | src/main/java/org/cli/Parser.java:49-66 | the two tokens make one command |
| Parser.QuotedArgumentResolved | src/main/java/org/cli/Parser.java:58 | quote resolution strips the quotes of a plain double-quoted span |
| Parser.ParseVariable | src/main/java/org/cli/Parser.java:41-66 | `$NAME` runs the commands its value spells out, tokenized again |
| Parser.ParseVariablePipe | src/main/java/org/cli/Parser.java:41-66 | a value holding a spaced pipe splits the line into two commands |
| Parser.PipeValueTokens | src/main/java/org/cli/Parser.java:41-47 | a value of two words around a spaced pipe tokenizes into the word, the pipe and the word |
| Parser.PipeValueGroups | src/main/java/org/cli/Parser.java:49-66 | those three tokens make two commands without arguments |

## Left out

- Pipeline.java, Executor.java and CLI.java are not part of this model. They
  start processes, copy streams, read files and read the terminal.
- The messages printed to standard output and standard error are not
  modelled. This covers the debug lines of `getVar` and `setVar` and the
  parser's and command's error messages. Their outcomes are modelled: an empty
  command list, `false`, an empty command.
- Streams are modelled as values (`StandardInput`, `PipeInput(n)`, …), not as
  Java stream objects.
- `List.copyOf` is modelled by the value semantics of `seq`. A later change to
  the caller's list cannot reach a command's arguments.
- `null` input is modelled as `None`.
- Substitution.Substitute inserts a variable's value literally. Java passes the
  value to `Matcher.replaceAll` as a replacement string, where `\` and `$` have
  a meaning of their own. The model matches Java only for values without them.
- Quotes.Unescape keeps a trailing lone backslash as text, where Java's
  replacement-string reading throws. It reads a backslash before `$` as an
  escape of the `$`; Java escapes that `$` a second time (line 117), so it
  reads a literal backslash and then `$` as a group reference, which throws or
  splices a group: `X="\$1"` stores `\` in Java and `$1` here.
- The tokenizer and quote-resolution scanners treat `.` in `\\.` as any
  character except the line terminators `\n`, `\r`, U+0085, U+2028 and U+2029,
  as Java's default mode does. Other Unicode handling (surrogate pairs) is not
  modelled.
- Parser.ParseOddDoubles: stated only for lines without backslashes. With
  backslashes, the double-quote half of the unclosed-quote regex is irregular.
  That half is still modelled exactly (Rejection.DoubleUnclosed), and
  Rejection.UnclosedMissedAfterBackslash shows one such case.
