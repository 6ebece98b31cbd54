/**
 * The last loop of Parser.parse (Parser.java lines 49-66): tokens are
 * gathered into commands, each `|` closing the command built so far (even
 * an empty one) and every other token being added after quote resolution;
 * a non-empty command left at the end is added as well.
 */
module Grouping {
  import opened Quotes

  /** The loop's state: the commands closed so far and the one being built. */
  datatype GroupState = GroupState(closed: seq<seq<string>>, current: seq<string>)

  /** The state after the loop has consumed `ts`. */
  function Fold(ts: seq<string>): (g: GroupState)
    decreases |ts|
  {
    if ts == [] then GroupState([], [])
    else
      var g := Fold(ts[..|ts| - 1]);
      if ts[|ts| - 1] == "|" then GroupState(g.closed + [g.current], [])
      else GroupState(g.closed, g.current + [EvalQuotes(ts[|ts| - 1])])
  }

  /** The argument lists of the commands built from `ts`. */
  function Groups(ts: seq<string>): seq<seq<string>>
  {
    var g := Fold(ts);
    if g.current == [] then g.closed else g.closed + [g.current]
  }

  /** Proof helper: folding one more token of a prefix, kept apart so that the slices are not taken next to a loop's invariants. */
  lemma FoldPrefixStep(ts: seq<string>, j: nat)
    requires j < |ts|
    ensures Fold(ts[..j + 1]) ==
      var g := Fold(ts[..j]);
      if ts[j] == "|" then GroupState(g.closed + [g.current], [])
      else GroupState(g.closed, g.current + [EvalQuotes(ts[j])])
  {
    assert ts[..j + 1][..j] == ts[..j];
    assert ts[..j + 1][j] == ts[j];
  }

  /** The tokens of one command, each with its quotes resolved. */
  function Resolve(ts: seq<string>): (r: seq<string>)
    ensures |r| == |ts|
    ensures forall i :: 0 <= i < |ts| ==> r[i] == EvalQuotes(ts[i])
  {
    seq(|ts|, i requires 0 <= i < |ts| => EvalQuotes(ts[i]))
  }

  lemma ResolveAppend(a: seq<string>, b: seq<string>)
    ensures Resolve(a + b) == Resolve(a) + Resolve(b)
  {
  }

  /** The tokens other than `|`, in order. */
  function WithoutPipes(ts: seq<string>): (r: seq<string>)
    ensures "|" !in r
    decreases |ts|
  {
    if ts == [] then []
    else if ts[|ts| - 1] == "|" then WithoutPipes(ts[..|ts| - 1])
    else WithoutPipes(ts[..|ts| - 1]) + [ts[|ts| - 1]]
  }

  /** The commands' arguments laid end to end. */
  function Flatten(gs: seq<seq<string>>): (r: seq<string>)
    decreases |gs|
  {
    if gs == [] then [] else Flatten(gs[..|gs| - 1]) + gs[|gs| - 1]
  }

  /** Before the first `|`, every token goes to the command being built. */
  lemma {:induction false} FoldNoPipe(a: seq<string>)
    requires "|" !in a
    ensures Fold(a) == GroupState([], Resolve(a))
    decreases |a|
  {
    if a != [] {
      var p := a[..|a| - 1];
      assert forall t :: t in p ==> t in a;
      FoldNoPipe(p);
      assert a[|a| - 1] in a;
      FoldNoPipeStep(p, a[|a| - 1]);
      assert a == p + [a[|a| - 1]];
    }
  }

  /** One step of FoldNoPipe: a token other than `|` joins the command being built. */
  lemma FoldNoPipeStep(p: seq<string>, t: string)
    requires t != "|" && Fold(p) == GroupState([], Resolve(p))
    ensures Fold(p + [t]) == GroupState([], Resolve(p + [t]))
  {
    var a := p + [t];
    assert a[..|a| - 1] == p;
    assert a[|a| - 1] == t;
    ResolveAppend(p, [t]);
  }

  /** A `|` closes the command built so far; the loop then goes on as if from the start. */
  lemma {:induction false} FoldAfterPipe(a: seq<string>, b: seq<string>)
    requires "|" !in a
    ensures Fold(a + ["|"] + b) == GroupState([Resolve(a)] + Fold(b).closed, Fold(b).current)
    decreases |b|
  {
    var s := a + ["|"] + b;
    if b == [] {
      assert s[..|s| - 1] == a;
      FoldNoPipe(a);
    } else {
      var p := b[..|b| - 1];
      assert s[..|s| - 1] == a + ["|"] + p;
      FoldAfterPipe(a, p);
    }
  }

  /** A run of tokens without `|` is one command, or none when it is empty. */
  lemma GroupsNoPipe(a: seq<string>)
    requires "|" !in a
    ensures Groups(a) == if a == [] then [] else [Resolve(a)]
  {
    FoldNoPipe(a);
  }

  /**
   * The tokens before the first `|` become the first command, even when
   * there are none (a leading or doubled `|` gives a command with no name),
   * and the rest are grouped on their own.
   */
  lemma GroupsSplit(a: seq<string>, b: seq<string>)
    requires "|" !in a
    ensures Groups(a + ["|"] + b) == [Resolve(a)] + Groups(b)
  {
    FoldAfterPipe(a, b);
  }

  /** Grouping keeps every non-pipe token, in order, and only those. */
  lemma {:induction false} FoldKeepsOrder(ts: seq<string>)
    ensures Flatten(Fold(ts).closed) + Fold(ts).current == Resolve(WithoutPipes(ts))
    decreases |ts|
  {
    if ts != [] {
      var p := ts[..|ts| - 1];
      FoldKeepsOrder(p);
      var g := Fold(p);
      if ts[|ts| - 1] == "|" {
        assert (g.closed + [g.current])[..|g.closed|] == g.closed;
        assert Flatten(g.closed + [g.current]) == Flatten(g.closed) + g.current;
        assert Flatten(Fold(ts).closed) + Fold(ts).current == Flatten(g.closed) + g.current;
      } else {
        ResolveAppend(WithoutPipes(p), [ts[|ts| - 1]]);
        assert Flatten(Fold(ts).closed) + Fold(ts).current
          == (Flatten(g.closed) + g.current) + [EvalQuotes(ts[|ts| - 1])];
      }
    }
  }

  /** The commands' arguments, laid end to end, are the resolved non-pipe tokens in order. */
  lemma GroupsKeepOrder(ts: seq<string>)
    ensures Flatten(Groups(ts)) == Resolve(WithoutPipes(ts))
  {
    FoldKeepsOrder(ts);
    var g := Fold(ts);
    if g.current != [] {
      assert (g.closed + [g.current])[..|g.closed|] == g.closed;
    }
  }
}
