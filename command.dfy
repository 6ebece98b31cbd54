/**
 * Command.java: one stage of a pipeline, a name and its arguments plus the
 * two stream endpoints the pipeline rewires.
 */
module Commands {

  /** Where a stage reads from: the shell's own standard input or a pipe. */
  datatype InputStream = StandardInput | PipeInput(pipe: nat)

  /** Where a stage writes to: the shell's own standard output or a pipe. */
  datatype OutputStream = StandardOutput | PipeOutput(pipe: nat)

  /** The name and arguments a token list describes. */
  datatype Descriptor = Descriptor(name: string, args: seq<string>)

  /**
   * The constructor's split: the first token is the name and the rest, in
   * order, are the arguments; an empty list gives the empty name and no
   * arguments.
   */
  function Describe(tokens: seq<string>): (d: Descriptor)
    ensures tokens != [] ==> [d.name] + d.args == tokens
    ensures tokens == [] ==> d.name == "" && d.args == []
  {
    if tokens == [] then Descriptor("", []) else Descriptor(tokens[0], tokens[1..])
  }

  class Command {
    const name: string
    /** A sequence is a value, so later changes to the caller's list cannot reach it. */
    const args: seq<string>
    var stdin: InputStream
    var stdout: OutputStream

    /** `new Command(tokens)`: name and arguments split off, standard streams attached. */
    constructor(tokens: seq<string>)
      ensures Descriptor(name, args) == Describe(tokens)
      ensures stdin == StandardInput && stdout == StandardOutput
    {
      var d := Describe(tokens);
      name := d.name;
      args := d.args;
      stdin := StandardInput;
      stdout := StandardOutput;
    }

    method SetStdin(s: InputStream)
      modifies this
      ensures stdin == s && stdout == old(stdout)
    {
      stdin := s;
    }

    method SetStdout(s: OutputStream)
      modifies this
      ensures stdout == s && stdin == old(stdin)
    {
      stdout := s;
    }

    function GetStdin(): InputStream
      reads this
    {
      stdin
    }

    function GetStdout(): OutputStream
      reads this
    {
      stdout
    }

    function GetName(): string
    {
      name
    }

    function GetArgs(): seq<string>
    {
      args
    }

    /** True exactly for the command named `exit`. */
    function IsExit(): (r: bool)
      ensures r <==> name == "exit"
    {
      name == "exit"
    }
  }

  /**
   * The scenario of the command's unit tests: a command built from tokens
   * reports their split and the standard streams; after both setters the
   * getters report the new endpoints.
   */
  method BuildAndRewire(tokens: seq<string>, i: InputStream, o: OutputStream)
    returns (d: Descriptor, before: (InputStream, OutputStream), after: (InputStream, OutputStream), exit: bool)
    ensures d == Describe(tokens)
    ensures before == (StandardInput, StandardOutput) && after == (i, o)
    ensures exit <==> tokens != [] && tokens[0] == "exit"
  {
    var c := new Command(tokens);
    d := Descriptor(c.GetName(), c.GetArgs());
    before := (c.GetStdin(), c.GetStdout());
    c.SetStdin(i);
    c.SetStdout(o);
    after := (c.GetStdin(), c.GetStdout());
    exit := c.IsExit();
  }
}
