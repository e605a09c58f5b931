/** The command-line multiplexer of lib/mixminion/Main.py: quote stripping
    for the interactive shell and the decision 'main' takes from its
    argument vector and the command table.  Printing, exiting and the
    dynamic import of the command's module become values of the result. */
module CommandLine {

  /** fixCommandToken: strip one pair of matching quotes. */
  function FixCommandToken(tok: string): (r: string)
    // an empty (false) token comes back unchanged
    ensures tok == "" ==> r == tok
    // a quoted token loses exactly its first and last character
    ensures |tok| >= 2 && (tok[0] == '"' || tok[0] == '\'') && tok[|tok| - 1] == tok[0] ==>
              r == tok[1..|tok| - 1]
    // anything else (a lone quote, mismatched quotes, no quotes) is unchanged
    ensures !(|tok| >= 2 && (tok[0] == '"' || tok[0] == '\'') && tok[|tok| - 1] == tok[0]) ==>
              r == tok
    ensures |r| == |tok| || |r| == |tok| - 2
  {
    if tok == "" then tok
    else if |tok| >= 2 && (tok[0] == '"' || tok[0] == '\'') && tok[|tok| - 1] == tok[0] then
      tok[1..|tok| - 1]
    else tok
  }

  /** Quoting a word with either quote character and then fixing the token
      gives the word back. */
  lemma QuotedTokenRoundTrip(q: char, word: string)
    requires q == '"' || q == '\''
    ensures FixCommandToken([q] + word + [q]) == word
  {
    var tok := [q] + word + [q];
    assert tok[1..|tok| - 1] == word;
  }

  /** A lone quote is not a quoted token. */
  lemma LoneQuoteUnchanged(q: char)
    requires q == '"' || q == '\''
    ensures FixCommandToken([q]) == [q]
  {
  }

  /** The command table _COMMANDS: command name -> (module, function). */
  const COMMANDS: map<string, (string, string)> := map[
    "version" := ("mixminion.Main", "printVersion"),
    "unittests" := ("mixminion.test", "testAll"),
    "benchmarks" := ("mixminion.benchmark", "timeAll"),
    "testvectors" := ("mixminion.testSupport", "testVectors"),
    "send" := ("mixminion.ClientMain", "runClient"),
    "queue" := ("mixminion.ClientMain", "runClient"),
    "import-server" := ("mixminion.ClientMain", "importServer"),
    "list-server" := ("mixminion.ClientMain", "listServers"),
    "list-servers" := ("mixminion.ClientMain", "listServers"),
    "update-servers" := ("mixminion.ClientMain", "updateServers"),
    "decode" := ("mixminion.ClientMain", "clientDecode"),
    "generate-surb" := ("mixminion.ClientMain", "generateSURB"),
    "generate-surbs" := ("mixminion.ClientMain", "generateSURB"),
    "inspect-surb" := ("mixminion.ClientMain", "inspectSURBs"),
    "inspect-surbs" := ("mixminion.ClientMain", "inspectSURBs"),
    "count-packets" := ("mixminion.ClientMain", "countPackets"),
    "flush" := ("mixminion.ClientMain", "flushQueue"),
    "inspect-queue" := ("mixminion.ClientMain", "listQueue"),
    "clean-queue" := ("mixminion.ClientMain", "cleanQueue"),
    "ping" := ("mixminion.ClientMain", "runPing"),
    "list-fragments" := ("mixminion.ClientMain", "listFragments"),
    "reassemble" := ("mixminion.ClientMain", "reassemble"),
    "purge-fragments" := ("mixminion.ClientMain", "reassemble"),
    "server-start" := ("mixminion.server.ServerMain", "runServer"),
    "server-stop" := ("mixminion.server.ServerMain", "signalServer"),
    "server-reload" := ("mixminion.server.ServerMain", "signalServer"),
    "server-republish" := ("mixminion.server.ServerMain", "runRepublish"),
    "server-upgrade" := ("mixminion.server.ServerMain", "runUpgrade"),
    "server-stats" := ("mixminion.server.ServerMain", "printServerStats"),
    "server-DELKEYS" := ("mixminion.server.ServerMain", "runDELKEYS"),
    "dir" := ("mixminion.directory.DirMain", "main"),
    "shell" := ("mixminion.Main", "commandShell"),
    "__d" := ("mixminion.Main", "mixminiondMain")
  ]

  /** os.path.split(p)[1]: what follows the last '/'. */
  function Basename(p: string): (b: string)
    ensures '/' !in b
    ensures |b| <= |p| && b == p[|p| - |b|..]
    ensures '/' !in p ==> b == p
    ensures |b| < |p| ==> p[|p| - |b| - 1] == '/'
  {
    if p == [] then []
    else if p[|p| - 1] == '/' then []
    else Basename(p[..|p| - 1]) + [p[|p| - 1]]
  }

  /** How a command function invocation ended. */
  datatype CommandOutcome =
    | Completed
    | GetoptError(msg: string)
    | UIError
    | FilePermissionError
    | KeyboardInterrupt
    | ImportError(msg: string)
    | SystemExit(status: int)
    | OtherException

  /** How 'main' itself ends once the command was invoked. */
  datatype Ending =
    | Finished                       // main returns normally
    | ExitedWith(status: int)        // main calls sys.exit(status)
    | DumpedAndExited                // a UIError's dumpAndExit()
    | PrintedInterrupted             // "Interrupted." and a normal return
    | Propagated(outcome: CommandOutcome)

  datatype MainResult =
    | UsageAndExit(daemon: bool)     // printUsage(daemon); sys.exit(1)
    | Invoked(banner: bool, moduleName: string, functionName: string, commandStr: string,
              calls: seq<seq<string>>, ending: Ending)

  /** Whether 'main' prints the version banner to stderr. */
  predicate ShowsBanner(args: seq<string>)
    requires |args| >= 2
  {
    args[1] !in {"unittests", "benchmarks", "version"} && "--quiet" !in args && "-Q" !in args
  }

  /** The ending of 'main' once the command function was called with
      args[2:] and ended with 'first' (and, after a GetoptError, was called
      again with ["--help"] and ended with 'second'). */
  function HandleOutcome(cmdName: string, first: CommandOutcome, second: CommandOutcome): (e: Ending)
    ensures first == Completed ==> e == Finished
    ensures first.GetoptError? ==> e == (if second == Completed then Finished else Propagated(second))
    ensures first.KeyboardInterrupt? ==>
              e == (if cmdName in {"unittests", "benchmarks"} then Propagated(first) else PrintedInterrupted)
    ensures first.ImportError? ==>
              e == (if Contains(first.msg, "_socket") then ExitedWith(1) else Propagated(first))
    // a UIError is reported by its own dumpAndExit, a file permission error
    // exits with status 1, and anything else passes through
    ensures first == UIError ==> e == DumpedAndExited
    ensures first == FilePermissionError ==> e == ExitedWith(1)
    ensures first.SystemExit? || first == OtherException ==> e == Propagated(first)
  {
    match first
    case Completed => Finished
    case GetoptError(_) => if second == Completed then Finished else Propagated(second)
    case UIError => DumpedAndExited
    case FilePermissionError => ExitedWith(1)
    case KeyboardInterrupt =>
      if cmdName in {"unittests", "benchmarks"} then Propagated(first) else PrintedInterrupted
    case ImportError(msg) => if Contains(msg, "_socket") then ExitedWith(1) else Propagated(first)
    case SystemExit(_) => Propagated(first)
    case OtherException => Propagated(first)
  }

  /** main itself exits, always with status 1, only for a file permission
      error or a missing socket module; it ends normally only when the
      command (or its "--help" retry) completed or was interrupted outside
      the test commands. */
  lemma {:induction false} HandledEndings(cmdName: string, first: CommandOutcome, second: CommandOutcome)
    ensures var e := HandleOutcome(cmdName, first, second);
            (e.ExitedWith? <==> first == FilePermissionError || (first.ImportError? && Contains(first.msg, "_socket"))) &&
            (e.ExitedWith? ==> e.status == 1)
    ensures var e := HandleOutcome(cmdName, first, second);
            (e == Finished || e == PrintedInterrupted) <==>
              first == Completed || (first.GetoptError? && second == Completed) ||
              (first == KeyboardInterrupt && cmdName !in {"unittests", "benchmarks"})
  {
    match first
    case GetoptError(_) =>
      assert HandleOutcome(cmdName, first, second) == (if second == Completed then Finished else Propagated(second));
    case _ =>
  }

  /** str.find(needle) >= 0: 'needle' occurs somewhere in 's'. */
  predicate Contains(s: string, needle: string)
    decreases |s|
  {
    |needle| <= |s| && (s[..|needle|] == needle || Contains(s[1..], needle))
  }

  /** main(args, daemon).  args[0] is the program path (sys.argv is never
      empty); the command function's behaviour is given by 'first' and,
      for a retry with "--help", 'second'. */
  function MainDispatch(args: seq<string>, daemon: bool,
                        first: CommandOutcome, second: CommandOutcome): (r: MainResult)
    requires |args| >= 1
    // no command, or an unknown one: usage and exit status 1
    ensures r.UsageAndExit? <==>
              |args| == 1 || (if daemon then "server-" + args[1] else args[1]) !in COMMANDS
    ensures r.UsageAndExit? ==> r.daemon == daemon
    // otherwise the table entry under the (prefixed) name is invoked
    ensures r.Invoked? ==>
              (r.moduleName, r.functionName) == COMMANDS[if daemon then "server-" + args[1] else args[1]]
    ensures r.Invoked? ==> r.commandStr == Basename(args[0]) + " " + args[1]
    ensures r.Invoked? ==> r.banner == ShowsBanner(args)
    // the function gets args[2:], and once more ["--help"] after a GetoptError
    ensures r.Invoked? ==> |r.calls| >= 1 && r.calls[0] == args[2..]
    ensures r.Invoked? ==>
              (|r.calls| == 2 && r.calls[1] == ["--help"] <==> first.GetoptError?)
    ensures r.Invoked? ==> |r.calls| <= 2
    // and main ends as the command's outcome decides
    ensures r.Invoked? ==> r.ending == HandleOutcome(args[1], first, second)
  {
    if |args| == 1 then UsageAndExit(daemon)
    else
      var key := if daemon then "server-" + args[1] else args[1];
      if key !in COMMANDS then UsageAndExit(daemon)
      else
        var entry := COMMANDS[key];
        var calls := if first.GetoptError? then [args[2..], ["--help"]] else [args[2..]];
        Invoked(ShowsBanner(args), entry.0, entry.1, Basename(args[0]) + " " + args[1],
                calls, HandleOutcome(args[1], first, second))
  }

  /** In daemon mode the server commands are reached by their short names. */
  lemma DaemonStartRunsServer(prog: string, first: CommandOutcome, second: CommandOutcome)
    ensures MainDispatch([prog, "start"], true, first, second).Invoked?
    ensures MainDispatch([prog, "start"], true, first, second).functionName == "runServer"
  {
    assert "server-" + "start" == "server-start";
  }

  /** '--quiet' or '-Q' anywhere in the arguments suppresses the banner. */
  lemma QuietSuppressesBanner(args: seq<string>, daemon: bool, first: CommandOutcome, second: CommandOutcome)
    requires |args| >= 2
    requires "--quiet" in args || "-Q" in args
    ensures MainDispatch(args, daemon, first, second).Invoked? ==>
              !MainDispatch(args, daemon, first, second).banner
  {
  }
}
