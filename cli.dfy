// The command line of po_progress.py: how `main` splits `sys.argv` into the
// input catalogs and the output image, and what a run ends in.

module Cli {
  import opened Wrappers
  import Report

  /** What `main` does with its argument vector. */
  datatype Invocation =
    | NoProgramName                                // `args[0]` on an empty vector raises IndexError
    | Usage(program: string)                       // fewer than three arguments: show the usage line
    | Draw(inPaths: seq<string>, outPath: string)  // `create_chart(args[1:-1], args[-1])`

  /** How a run of `main` ends. */
  datatype Outcome =
    | IndexError
    | ShowUsage(line: string)
    | Drawn(chart: Report.Chart)
    | Crashed(error: Report.Error)

  /** The usage line `main` writes for program name `program`. */
  function UsageLine(program: string): string {
    "Usage: python " + program + " <in .po files>... <out image>"
  }

  /** `main`'s test on `len(args)` and its slicing of the vector. */
  function SplitArgs(args: seq<string>): (r: Invocation)
    ensures r.NoProgramName? <==> |args| == 0
    ensures r.Usage? <==> 0 < |args| < 3
    ensures r.Usage? ==> r.program == args[0]
    ensures r.Draw? <==> |args| >= 3
    ensures r.Draw? ==> |r.inPaths| >= 1 && |r.inPaths| == |args| - 2
    ensures r.Draw? ==> args == [args[0]] + r.inPaths + [r.outPath]
  {
    if |args| < 3 then
      if |args| == 0 then NoProgramName else Usage(args[0])
    else
      Draw(args[1..|args| - 1], args[|args| - 1])
  }

  /** Every input list with at least one path, and every output path, is reachable from the command line. */
  lemma SplitArgsInverts(program: string, inPaths: seq<string>, outPath: string)
    requires |inPaths| >= 1
    ensures SplitArgs([program] + inPaths + [outPath]) == Draw(inPaths, outPath)
  {
    var args := [program] + inPaths + [outPath];
    assert args[1..|args| - 1] == inPaths;
  }

  /** The last argument is always the output, never an input, however many arguments there are. */
  lemma {:induction false} OutputIsLastArgument(args: seq<string>, more: string)
    requires |args| >= 3
    ensures SplitArgs(args + [more]).Draw?
    ensures SplitArgs(args + [more]).outPath == more
    ensures SplitArgs(args + [more]).inPaths == SplitArgs(args).inPaths + [SplitArgs(args).outPath]
  {
    var longer := args + [more];
    assert longer[1..|longer| - 1] == args[1..|args| - 1] + [args[|args| - 1]];
  }

  /** `main()`, with `sys.argv` and the statistics of each catalog as parameters. */
  method Run(args: seq<string>, statsOf: string -> string) returns (o: Outcome)
    ensures |args| == 0 ==> o == IndexError
    ensures 0 < |args| < 3 ==> o == ShowUsage(UsageLine(args[0]))
    ensures |args| >= 3 ==> o.Drawn? || o.Crashed?
    ensures o.Drawn? <==> |args| >= 3 && Report.Positive(Report.RowsFor(args[1..|args| - 1], statsOf))
    ensures o.Drawn? ==> o.chart.rows == Report.SortByPercent(Report.RowsFor(args[1..|args| - 1], statsOf))
    ensures o.Drawn? ==> o.chart.target == if args[|args| - 1] == "-" then Report.Stdout else Report.File(args[|args| - 1])
    ensures o.Crashed? ==> Report.FirstZeroTotal(Report.RowsFor(args[1..|args| - 1], statsOf)) == Some(o.error.at)
  {
    var invocation := SplitArgs(args);
    match invocation {
      case NoProgramName =>
        return IndexError;
      case Usage(program) =>
        return ShowUsage(UsageLine(program));
      case Draw(inPaths, outPath) =>
        var chart := Report.CreateChart(inPaths, outPath, statsOf);
        if chart.Failure? {
          return Crashed(chart.error);
        }
        return Drawn(chart.value);
    }
  }
}
