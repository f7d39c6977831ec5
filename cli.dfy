/** The command-line decision and the return value of main. */
module Cli {
  import opened AesdTypes
  import opened Signals
  import opened ServerSpec

  /** How main runs the server: in the foreground, detached as a daemon, or
      not at all, with the usage text. */
  datatype Mode = Foreground | Daemon | Usage

  /** argv as main receives it, the program name first. */
  function Classify(argv: seq<string>): (m: Mode)
    // no argument: foreground
    ensures m == Foreground <==> |argv| == 1
    // exactly the one argument "-d": daemon
    ensures m == Daemon <==> |argv| == 2 && argv[1] == "-d"
  {
    if |argv| == 1 then Foreground
    else if |argv| == 2 && argv[1] == "-d" then Daemon
    else Usage
  }

  /** What main returns, given whether the listening socket could be set up
      and how the accept loop ended; None while the loop is still running. */
  function MainReturn(argv: seq<string>, startupOk: bool, loop: LoopStatus): (code: Option<int>)
    // 0 exactly when the server started and the loop returned, with either code
    ensures code == Some(0) <==> Classify(argv) != Usage && startupOk && loop.Returned?
    // a usage error or a failed startup returns -1 without running the loop
    ensures Classify(argv) == Usage || !startupOk ==> code == Some(-1)
    ensures code.None? <==> Classify(argv) != Usage && startupOk && loop == Running
  {
    if Classify(argv) == Usage || !startupOk then Some(-1)
    else if loop.Running? then None
    else Some(0)
  }

  /** The exit status the parent process observes for a return value of main
      (the low eight bits). */
  function ExitStatus(ret: int): (status: int)
    ensures 0 <= status < 0x100
    ensures (ret - status) % 0x100 == 0
  {
    ret % 0x100
  }

  /** The process exits with status 0 or 255, and 0 exactly when main returns 0. */
  lemma ExitStatusOfMain(argv: seq<string>, startupOk: bool, loop: LoopStatus)
    requires MainReturn(argv, startupOk, loop).Some?
    ensures var code := MainReturn(argv, startupOk, loop).value;
      ExitStatus(code) == (if code == 0 then 0 else 0xFF)
  {
  }

  /** The usual shutdown: SIGINT or SIGTERM arrives while the started server
      is blocked in accept. The loop returns -1 with the flag set, and main
      still returns 0. */
  lemma ShutdownBySignal(argv: seq<string>, store: seq<byte>, sigs: seq<CaughtSignal>, rest: seq<Step>)
    requires Classify(argv) != Usage
    requires sigs != []
    ensures var r := Run(store, false, [Step(sigs, Fail)] + rest);
      r.status == Returned(-1) && r.stop &&
      MainReturn(argv, true, r.status) == Some(0)
  {
    SignalDuringAccept(store, sigs, rest);
  }
}
