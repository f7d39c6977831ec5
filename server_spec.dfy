/** The accept loop of run_server_socket over a script of accept outcomes. */
module ServerSpec {
  import opened AesdTypes
  import opened Signals
  import opened Packets
  import opened Connection

  /** What run_server_socket has done after a script: returned a code, or is
      still looping because the script ended while the stop flag was clear. */
  datatype LoopStatus = Returned(code: int) | Running

  /** The loop's status, the log file and stop flag afterwards, how many
      steps it consumed and what each handled client received, in accept order. */
  datatype RunResult = RunResult(
    status: LoopStatus, store: seq<byte>, stop: bool, consumed: nat, replies: seq<seq<byte>>)

  /** r seen from n steps earlier, during which the clients received acc. */
  function Prepend(r: RunResult, n: nat, acc: seq<seq<byte>>): RunResult
  {
    r.(consumed := n + r.consumed, replies := acc + r.replies)
  }

  lemma PrependTwice(r: RunResult, n: nat, acc: seq<seq<byte>>, x: seq<seq<byte>>)
    ensures Prepend(Prepend(r, 1, x), n, acc) == Prepend(r, n + 1, acc + x)
  {
    assert acc + (x + r.replies) == (acc + x) + r.replies;
  }

  /** The state after one pass through the body of the accept loop: the
      file, the stop flag, what the accepted client (if any) received, and
      whether the loop returns -1 here. */
  datatype Turn = Turn(store: seq<byte>, stop: bool, reply: seq<seq<byte>>, exits: bool)

  /** The bytes one step appends to the file. */
  function StepCommit(step: Step): seq<byte>
  {
    if step.outcome.Client? then Commit(step.outcome.session) else []
  }

  /** What the most recent connection received, given the replies since
      `sent` was last reset; `sent` itself when there was no connection. */
  function LastReply(sent: seq<byte>, replies: seq<seq<byte>>): seq<byte>
  {
    if replies == [] then sent else replies[|replies| - 1]
  }

  /** One pass through the loop body (lines 290-318), the stop flag having
      been found clear. */
  function Iterate(store: seq<byte>, stop: bool, step: Step): (t: Turn)
    // the signals of this pass set the flag as signal_handler does
    ensures t.stop == ApplySignals(stop, step.signals)
    // a client's commit is appended, nothing else changes the file
    ensures t.store == store + StepCommit(step)
    // exactly an accepted client gets a reply, and it is a prefix of the file
    ensures |t.reply| == (if step.outcome.Client? then 1 else 0)
    ensures forall reply <- t.reply :: reply <= t.store
    // the loop ends here on an accept error or a failed session, never on a timeout
    ensures t.exits <==>
              step.outcome == Fail || (step.outcome.Client? && Handle(store, step.outcome.session).status < 0)
  {
    var stop' := ApplySignals(stop, step.signals);
    match step.outcome
    case Timeout => Turn(store, stop', [], false)
    case Fail => Turn(store, stop', [], true)
    case Client(s) =>
      var h := Handle(store, s);
      Turn(h.store, stop', [h.sent], h.status < 0)
  }

  /** The accept loop, starting at its test of the stop flag. */
  function Run(store: seq<byte>, stop: bool, steps: seq<Step>): (r: RunResult)
    ensures r.consumed <= |steps|
    // 0 is returned only once the stop flag has been observed
    ensures r.status == Returned(0) ==> r.stop
    ensures r.status.Returned? ==> r.status.code == 0 || r.status.code == -1
    // an error return is caused by the last consumed accept, never by a timeout
    ensures r.status == Returned(-1) ==> 0 < r.consumed && steps[r.consumed - 1].outcome != Timeout
    // still running means every step was consumed and the flag is clear
    ensures r.status == Running ==> !r.stop && r.consumed == |steps|
    decreases |steps|
  {
    if stop then RunResult(Returned(0), store, stop, 0, [])
    else if steps == [] then RunResult(Running, store, stop, 0, [])
    else
      var t := Iterate(store, stop, steps[0]);
      if t.exits then RunResult(Returned(-1), t.store, t.stop, 1, t.reply)
      else Prepend(Run(t.store, t.stop, steps[1..]), 1, t.reply)
  }

  /** The loop invariant of run_server_socket carried across one pass:
      the whole run is the part already done followed by the run from here. */
  lemma RunAdvance(run: RunResult, store: seq<byte>, stop: bool, steps: seq<Step>, i: nat, acc: seq<seq<byte>>)
    requires i < |steps| && !stop
    requires run == Prepend(Run(store, stop, steps[i..]), i, acc)
    ensures var t := Iterate(store, stop, steps[i]);
      run == if t.exits then RunResult(Returned(-1), t.store, t.stop, i + 1, acc + t.reply)
             else Prepend(Run(t.store, t.stop, steps[i + 1..]), i + 1, acc + t.reply)
  {
    var t := Iterate(store, stop, steps[i]);
    assert steps[i..][0] == steps[i] && steps[i..][1..] == steps[i + 1..];
    PrependTwice(Run(t.store, t.stop, steps[i + 1..]), i, acc, t.reply);
  }

  /** The loop has left its while: the stop flag was seen or the script ended. */
  lemma RunFinish(run: RunResult, store: seq<byte>, stop: bool, steps: seq<Step>, i: nat, acc: seq<seq<byte>>)
    requires i <= |steps| && (stop || i == |steps|)
    requires run == Prepend(Run(store, stop, steps[i..]), i, acc)
    ensures run == RunResult(if stop then Returned(0) else Running, store, stop, i, acc)
  {
    assert acc + [] == acc;
    if !stop {
      assert steps[i..] == [];
    }
  }

  /** The bytes the clients among the first n steps append to the file, in order. */
  function Committed(steps: seq<Step>, n: nat): seq<byte>
    requires n <= |steps|
  {
    if n == 0 then [] else StepCommit(steps[0]) + Committed(steps[1..], n - 1)
  }

  /** After any run the file is the old file followed by what each handled
      client committed, in accept order. */
  lemma {:induction false} RunStore(store: seq<byte>, stop: bool, steps: seq<Step>)
    ensures var r := Run(store, stop, steps);
      r.store == store + Committed(steps, r.consumed)
    decreases |steps|
  {
    if !stop && steps != [] {
      var t := Iterate(store, stop, steps[0]);
      if t.exits {
        assert Committed(steps, 1) == StepCommit(steps[0]) + [];
      } else {
        var rest := Run(t.store, t.stop, steps[1..]);
        RunStore(t.store, t.stop, steps[1..]);
        assert Committed(steps, 1 + rest.consumed) == StepCommit(steps[0]) + Committed(steps[1..], rest.consumed);
        AppendAssoc(store, StepCommit(steps[0]), Committed(steps[1..], rest.consumed));
      }
    }
  }

  /** A -1 from the loop is caused by its last consumed step and by nothing
      else: that accept failed, or it accepted a client whose session,
      run against the file as the earlier steps left it, returned -1. */
  lemma {:induction false} RunFailsOnlyOnFailure(store: seq<byte>, stop: bool, steps: seq<Step>)
    ensures var r := Run(store, stop, steps);
      r.status == Returned(-1) ==>
        var last := steps[r.consumed - 1];
        last.outcome == Fail ||
        (last.outcome.Client? && Handle(store + Committed(steps, r.consumed - 1), last.outcome.session).status < 0)
    decreases |steps|
  {
    var r := Run(store, stop, steps);
    if !stop && steps != [] && r.status == Returned(-1) {
      var t := Iterate(store, stop, steps[0]);
      if t.exits {
        assert store + Committed(steps, 0) == store;
      } else {
        var rest := Run(t.store, t.stop, steps[1..]);
        assert r == Prepend(rest, 1, t.reply);
        RunFailsOnlyOnFailure(t.store, t.stop, steps[1..]);
        var n := rest.consumed - 1;
        assert steps[r.consumed - 1] == steps[1..][n];
        assert Committed(steps, 1 + n) == StepCommit(steps[0]) + Committed(steps[1..], n);
        AppendAssoc(store, StepCommit(steps[0]), Committed(steps[1..], n));
      }
    }
  }

  /** Every client receives a prefix of the file as it is when the loop
      ends: earlier clients see less, never different bytes. */
  lemma {:induction false} RepliesArePrefixes(store: seq<byte>, stop: bool, steps: seq<Step>)
    ensures var r := Run(store, stop, steps);
      forall reply <- r.replies :: reply <= r.store
    decreases |steps|
  {
    if !stop && steps != [] {
      var t := Iterate(store, stop, steps[0]);
      if !t.exits {
        var rest := Run(t.store, t.stop, steps[1..]);
        RepliesArePrefixes(t.store, t.stop, steps[1..]);
        RunStore(t.store, t.stop, steps[1..]);
        assert t.store <= rest.store;
        assert Run(store, stop, steps).replies == t.reply + rest.replies;
      }
    }
  }

  /** A termination signal that does not interrupt accept (it arrives after
      the test of the flag but before accept waits, or after accept has
      timed out) lets accept time out, and the loop returns 0 at the next
      test, without reading any further step or touching the file. (A signal
      that arrives while accept is blocked interrupts it instead: see
      SignalDuringAccept.) */
  lemma StopAfterIdleTimeout(store: seq<byte>, sigs: seq<CaughtSignal>, rest: seq<Step>)
    requires sigs != []
    ensures Run(store, false, [Step(sigs, Timeout)] + rest) == RunResult(Returned(0), store, true, 1, [])
  {
    ApplySignalsIff(false, sigs);
    assert IsTermination(sigs[0]);
    assert ([Step(sigs, Timeout)] + rest)[1..] == rest;
  }

  /** A termination signal that interrupts a blocked accept: the receive
      timeout set on the listening socket keeps accept from being restarted,
      so it fails with EINTR, which is not one of the timeout codes, and the
      loop returns -1 with the flag set. */
  lemma SignalDuringAccept(store: seq<byte>, sigs: seq<CaughtSignal>, rest: seq<Step>)
    requires sigs != []
    ensures Run(store, false, [Step(sigs, Fail)] + rest) == RunResult(Returned(-1), store, true, 1, [])
  {
    ApplySignalsIff(false, sigs);
    assert IsTermination(sigs[0]);
    assert ([Step(sigs, Fail)] + rest)[0] == Step(sigs, Fail);
  }

  /** A timeout with no signal handles no client and leaves the loop where
      it was. */
  lemma TimeoutIsTransparent(store: seq<byte>, rest: seq<Step>)
    ensures Run(store, false, [Step([], Timeout)] + rest) == Prepend(Run(store, false, rest), 1, [])
  {
    assert ([Step([], Timeout)] + rest)[1..] == rest;
  }

  /** A termination signal that arrives while a client is being served and
      does not make the session fail: the session completes, and the loop
      returns 0 at the next test with that session's commit and reply. */
  lemma StopDuringSession(store: seq<byte>, sigs: seq<CaughtSignal>, s: Session, rest: seq<Step>)
    requires sigs != [] && Handle(store, s).status == 0
    ensures var h := Handle(store, s);
      Run(store, false, [Step(sigs, Client(s))] + rest) ==
        RunResult(Returned(0), h.store, true, 1, [h.sent])
  {
    ApplySignalsIff(false, sigs);
    assert IsTermination(sigs[0]);
    var steps := [Step(sigs, Client(s))] + rest;
    assert steps[0] == Step(sigs, Client(s));
    var h := Handle(store, s);
    assert Run(h.store, true, steps[1..]) == RunResult(Returned(0), h.store, true, 0, []);
    assert [h.sent] + [] == [h.sent];
  }

  /** A failing accept or a failing session ends the loop with -1 at once;
      the steps after it are never consumed. */
  lemma FailureEndsLoop(store: seq<byte>, step: Step, rest: seq<Step>)
    requires step.outcome == Fail || (step.outcome.Client? && Handle(store, step.outcome.session).status < 0)
    ensures var r := Run(store, false, [step] + rest);
      r.status == Returned(-1) && r.consumed == 1 &&
      r.store == store + (if step.outcome.Client? then Commit(step.outcome.session) else [])
  {
    assert ([step] + rest)[0] == step;
  }

  /** A session that completes a packet and meets no fault. */
  predicate Clean(s: Session) {
    !RecvFails(s.recv) && Packet(s.recv) != [] && s.faults == NoFaults
  }

  /** The script in which these clients connect one after the other with no
      timeout and no signal. */
  function ClientSteps(sessions: seq<Session>): (steps: seq<Step>)
    ensures |steps| == |sessions|
  {
    if sessions == [] then [] else [Step([], Client(sessions[0]))] + ClientSteps(sessions[1..])
  }

  /** The packets of the first n sessions, concatenated in order. */
  function AllPackets(sessions: seq<Session>, n: nat): seq<byte>
    requires n <= |sessions|
  {
    if n == 0 then [] else Packet(sessions[0].recv) + AllPackets(sessions[1..], n - 1)
  }

  lemma AppendAssoc(a: seq<byte>, b: seq<byte>, c: seq<byte>)
    ensures a + (b + c) == (a + b) + c
  {
  }

  lemma ReplyLogAssoc(a: seq<seq<byte>>, b: seq<seq<byte>>, c: seq<seq<byte>>)
    ensures a + b + c == a + (b + c)
  {
  }

  /** A clean client appends its packet and receives the whole file. */
  lemma CleanTurn(store: seq<byte>, s: Session)
    requires Clean(s)
    ensures Iterate(store, false, Step([], Client(s))) ==
              Turn(store + Packet(s.recv), false, [store + Packet(s.recv)], false)
  {
    FaultFreeSession(store, s.recv);
  }

  /** Clients sending packets p1..pk one after the other: afterwards the
      file is the old file followed by p1+..+pk, and client i receives
      exactly the old file followed by p1+..+pi. */
  lemma {:induction false} CleanSessionsEcho(store: seq<byte>, sessions: seq<Session>)
    requires forall i :: 0 <= i < |sessions| ==> Clean(sessions[i])
    ensures var r := Run(store, false, ClientSteps(sessions));
      r.status == Running && r.store == store + AllPackets(sessions, |sessions|) &&
      |r.replies| == |sessions| &&
      forall i :: 0 <= i < |sessions| ==> r.replies[i] == store + AllPackets(sessions, i + 1)
    decreases |sessions|
  {
    if sessions != [] {
      var s, tail := sessions[0], sessions[1..];
      var steps := ClientSteps(sessions);
      assert steps[0] == Step([], Client(s)) && steps[1..] == ClientSteps(tail);
      CleanTurn(store, s);
      var st := store + Packet(s.recv);
      assert forall i :: 0 <= i < |tail| ==> tail[i] == sessions[i + 1];
      CleanSessionsEcho(st, tail);
      var rest := Run(st, false, ClientSteps(tail));
      var r := Run(store, false, steps);
      assert r == Prepend(rest, 1, [st]);
      AppendAssoc(store, Packet(s.recv), AllPackets(tail, |tail|));
      forall i | 0 <= i < |sessions|
        ensures r.replies[i] == store + AllPackets(sessions, i + 1)
      {
        AppendAssoc(store, Packet(s.recv), AllPackets(tail, i));
        if i > 0 {
          assert r.replies[i] == rest.replies[i - 1];
        }
      }
    }
  }

  /** The bytes of "hello\n" and "world\n". */
  const Hello: Chunk := [104, 101, 108, 108, 111, 10]
  const World: Chunk := [119, 111, 114, 108, 100, 10]

  lemma ExampleSessionsClean()
    ensures Clean(Session([Data(Hello)], NoFaults)) && Packet([Data(Hello)]) == Hello
    ensures Clean(Session([Data(World)], NoFaults)) && Packet([Data(World)]) == World
  {
    assert Hello[5] == NEWLINE && World[5] == NEWLINE;
    PacketEndsAtFirstNewline([], Hello, []);
    PacketEndsAtFirstNewline([], World, []);
    assert [] + [Data(Hello)] + [] == [Data(Hello)];
    assert [] + [Data(World)] + [] == [Data(World)];
  }

  /** The worked example: "hello\n" from a first client, then "world\n"
      from a second, on an empty file. */
  lemma HelloWorld()
    ensures var r := Run([], false, ClientSteps([Session([Data(Hello)], NoFaults), Session([Data(World)], NoFaults)]));
      r.store == Hello + World && r.replies == [Hello, Hello + World]
  {
    var s1, s2 := Session([Data(Hello)], NoFaults), Session([Data(World)], NoFaults);
    var ss := [s1, s2];
    ExampleSessionsClean();
    CleanSessionsEcho([], ss);
    assert ss[1..] == [s2] && [s2][1..] == [];
    assert AllPackets(ss, 1) == Hello + [];
    assert AllPackets([s2], 1) == World + [];
    assert AllPackets(ss, 2) == Hello + World;
    var r := Run([], false, ClientSteps(ss));
    assert r.replies[0] == [] + AllPackets(ss, 1) == Hello;
    assert r.replies[1] == [] + AllPackets(ss, 2) == Hello + World;
    assert r.replies == [r.replies[0], r.replies[1]];
    assert r.store == [] + AllPackets(ss, 2);
  }
}
