/** External processes, seen from the program that starts them: every
    command line it runs is appended to a trace, and what the command prints
    (and whether it failed) comes from an abstract model of the system. */
module Process {

  /** A command line: the program to run followed by its arguments. */
  type Argv = seq<string>

  /** What `CombinedOutput` hands back: stdout and stderr together, and
      whether the run reported an error. */
  datatype Reply = Reply(output: string, failed: bool)

  class Shell {
    /** Every command line run so far, oldest first. */
    var trace: seq<Argv>
    /** The system's answer to a command line, given everything run before. */
    const respond: (seq<Argv>, Argv) -> Reply

    constructor (respond: (seq<Argv>, Argv) -> Reply)
      ensures trace == [] && this.respond == respond
    {
      trace := [];
      this.respond := respond;
    }

    /** Runs one command to completion. */
    method Run(argv: Argv) returns (reply: Reply)
      modifies this
      ensures trace == old(trace) + [argv]
      ensures reply == respond(old(trace), argv)
    {
      reply := respond(trace, argv);
      trace := trace + [argv];
    }
  }
}
