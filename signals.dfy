/** The stop flag and the rule by which signal_handler sets it. */
module Signals {

  /** Linux signal numbers of the two termination signals the daemon handles. */
  const SIGINT: int := 2
  const SIGTERM: int := 15

  predicate IsTermination(signum: int) {
    signum == SIGINT || signum == SIGTERM
  }

  /** A signal that reaches signal_handler: main installs it for SIGINT and
      SIGTERM only (lines 357-358); every other signal keeps its default
      action and never runs the handler. */
  type CaughtSignal = s: int | IsTermination(s) witness SIGINT

  /** The stop flag after signal_handler has run for signum. */
  function StopAfter(stop: bool, signum: int): (s: bool)
    ensures IsTermination(signum) ==> s
    ensures !IsTermination(signum) ==> s == stop
  {
    if IsTermination(signum) then true else stop
  }

  /** Handling the same signal twice is the same as handling it once. */
  lemma StopAfterIdempotent(stop: bool, signum: int)
    ensures StopAfter(StopAfter(stop, signum), signum) == StopAfter(stop, signum)
  {
  }

  /** The stop flag after the handler has run for each of sigs in turn. */
  function ApplySignals(stop: bool, sigs: seq<int>): bool
    decreases sigs
  {
    if sigs == [] then stop else ApplySignals(StopAfter(stop, sigs[0]), sigs[1..])
  }

  /** A series of deliveries sets the flag exactly when it was already set or
      one of the signals is SIGINT or SIGTERM; in particular it never clears it. */
  lemma {:induction false} ApplySignalsIff(stop: bool, sigs: seq<int>)
    ensures ApplySignals(stop, sigs) <==>
              stop || exists i :: 0 <= i < |sigs| && IsTermination(sigs[i])
    decreases sigs
  {
    if sigs != [] {
      ApplySignalsIff(StopAfter(stop, sigs[0]), sigs[1..]);
      if exists i :: 0 <= i < |sigs| && IsTermination(sigs[i]) {
        var i :| 0 <= i < |sigs| && IsTermination(sigs[i]);
        if i > 0 {
          assert sigs[1..][i - 1] == sigs[i];
        }
      }
      if exists i :: 0 <= i < |sigs[1..]| && IsTermination(sigs[1..][i]) {
        var i :| 0 <= i < |sigs[1..]| && IsTermination(sigs[1..][i]);
        assert sigs[i + 1] == sigs[1..][i];
      }
    }
  }
}
