/**
 * How a command ends: `process.exit` and `exitWithError` (src/utils/ui.ts)
 * become values, together with the commands run on the way.
 */
module Process {
  import opened Git

  /** The end of a flow: a `cd` line printed to standard output, a clean
      cancellation, or an error reported on standard error. */
  datatype Outcome<+E> = Done(line: string) | Cancelled | Failed(error: E)
  {
    /** 0 on success or a declined confirmation, 1 on any error. */
    function ExitCode(): int {
      if Failed? then 1 else 0
    }
  }

  /** What a git query run through Bun's `$` gives: the text it printed, or, on a
      non-zero exit, the message of the error it throws. Nothing in the commands
      catches that error: it ends the run with status 1 (src/cli.ts:46-49). */
  datatype Answer = Output(text: string) | Throws(message: string)

  /** A flow's outcome, the commands it ran in order, and the warnings it printed. */
  datatype Run<+E, +W> = Run(outcome: Outcome<E>, effects: seq<Effect>, warnings: seq<W>)

  /** The end of argument parsing: options, help (exit 0) or a usage error (exit 1). */
  datatype ArgsOutcome<+T, +E> = Options(value: T) | Help | Usage(error: E)
  {
    function ExitCode(): int {
      if Usage? then 1 else 0
    }
  }
}
