/** The daemon's mutable state and its procedures. All I/O is replaced by
    values: the log file is the field store, the client socket the field
    sent, and recv, accept and the file operations' failures come from the
    scripts passed in. */
module DaemonState {
  import opened AesdTypes
  import opened Signals
  import opened Packets
  import opened Connection
  import opened ServerSpec
  import opened Cli

  class AesdSocket {
    /** The contents of the log file /var/tmp/aesdsocketdata. */
    var store: seq<byte>
    /** The bytes sent on the most recent client connection. */
    var sent: seq<byte>
    /** What each closed client connection received, in accept order. */
    var replies: seq<seq<byte>>
    /** The global stop_server. */
    var stop: bool

    /** Process start: the flag is clear and the file holds whatever an
        earlier run left in it. */
    constructor (initial: seq<byte>)
      ensures store == initial && sent == [] && replies == [] && !stop
    {
      store, sent, replies, stop := initial, [], [], false;
    }

    /** signal_handler (lines 12-23). */
    method SignalHandler(signum: int)
      modifies this`stop
      ensures stop == StopAfter(old(stop), signum)
    {
      if signum == SIGINT || signum == SIGTERM {
        stop := true;
      }
    }

    /** The handler runs once for each caught signal delivered, in order. */
    method DeliverSignals(sigs: seq<int>)
      modifies this`stop
      ensures stop == ApplySignals(old(stop), sigs)
    {
      for i := 0 to |sigs|
        invariant ApplySignals(old(stop), sigs) == ApplySignals(stop, sigs[i..])
      {
        assert sigs[i..][1..] == sigs[i + 1..];
        SignalHandler(sigs[i]);
      }
      assert sigs[|sigs|..] == [];
    }

    /** Reading the file back from its start in BUFFER_SIZE chunks and
        sending each chunk (lines 99-131). A send transfers the whole chunk
        or fails; short counts are not modelled. */
    method EchoStore(faults: IoFaults) returns (status: int)
      modifies this`sent
      ensures var e := Echo(store, faults);
        status == e.status && sent == old(sent) + e.sent
    {
      // open(FILE_PATH, O_RDONLY) is not checked: a failure shows up as a failing read
      var fdValid := !faults.reopenFails;
      var offset, k := 0, 0;
      while true
        invariant offset == Min(k * BUFFER_SIZE, |store|)
        invariant k * BUFFER_SIZE < |store| + BUFFER_SIZE
        invariant sent == old(sent) + store[..offset]
        invariant EchoStop(faults, |store|).Some? ==> k <= EchoStop(faults, |store|).value
        decreases |store| - offset
      {
        if !fdValid || faults.echo == ReadFailsAt(k) {
          status := -1;
          return;
        }
        var n := Min(BUFFER_SIZE, |store| - offset);
        if n == 0 {
          break;
        }
        var chunk := store[offset..offset + n];
        if faults.echo == SendFailsAt(k) {
          status := -1;
          return;
        }
        assert store[..offset] + chunk == store[..offset + n];
        sent := sent + chunk;
        offset, k := offset + n, k + 1;
      }
      status := 0;
    }

    /** handle_client_connection (lines 25-138). */
    method HandleClient(client: Session) returns (status: int)
      modifies this`store, this`sent
      ensures var r := Handle(old(store), client);
        status == r.status && store == r.store && sent == old(sent) + r.sent
    {
      var failed, packet, calls := ReceivePacket(client.recv);
      if failed {
        return -1;
      }
      if packet != [] {
        // open(FILE_PATH, O_WRONLY | O_CREAT | O_APPEND, 0644)
        if client.faults.openFails {
          return -1;
        }
        // write(fd, packet, packet_size): the whole packet or an error
        if client.faults.writeFails {
          return -1;
        }
        store := store + packet;
        status := EchoStore(client.faults);
        return;
      }
      return 0;
    }

    /** One pass through the body of the accept loop (lines 290-318): the
        signals delivered meanwhile, then the accept outcome. */
    method Serve(step: Step) returns (exits: bool)
      modifies this`store, this`sent, this`replies, this`stop
      ensures var t := Iterate(old(store), old(stop), step);
        exits == t.exits && store == t.store && stop == t.stop && replies == old(replies) + t.reply
      // a new connection starts with nothing sent; without one, sent is untouched
      ensures sent == LastReply(old(sent), Iterate(old(store), old(stop), step).reply)
    {
      DeliverSignals(step.signals);
      match step.outcome
      case Timeout =>
        // EWOULDBLOCK or EAGAIN: back to the test of stop_server
        assert replies == old(replies) + [];
        exits := false;
      case Fail =>
        assert replies == old(replies) + [];
        exits := true;
      case Client(s) =>
        // accept returned a fresh connection
        ghost var h := Handle(store, s);
        sent := [];
        var r := HandleClient(s);
        assert sent == h.sent;
        // close(client_fd)
        replies := replies + [sent];
        exits := r < 0;
    }

    /** run_server_socket (lines 286-322) over a script of loop iterations.
        When the script ends while the flag is clear the loop is reported as
        still running. */
    method RunServer(steps: seq<Step>) returns (status: LoopStatus, consumed: nat)
      modifies this`store, this`sent, this`replies, this`stop
      ensures var r := Run(old(store), old(stop), steps);
        status == r.status && consumed == r.consumed &&
        store == r.store && stop == r.stop && replies == old(replies) + r.replies
      ensures sent == LastReply(old(sent), Run(old(store), old(stop), steps).replies)
    {
      ghost var run := Run(store, stop, steps);
      ghost var acc: seq<seq<byte>> := [];
      var i := 0;
      assert steps[0..] == steps;
      while !stop && i < |steps|
        invariant i <= |steps|
        invariant replies == old(replies) + acc
        invariant sent == LastReply(old(sent), acc)
        invariant run == Prepend(Run(store, stop, steps[i..]), i, acc)
        decreases |steps| - i
      {
        RunAdvance(run, store, stop, steps, i, acc);
        ghost var t := Iterate(store, stop, steps[i]);
        var exits := Serve(steps[i]);
        ReplyLogAssoc(old(replies), acc, t.reply);
        acc := acc + t.reply;
        i := i + 1;
        if exits {
          return Returned(-1), i;
        }
      }
      RunFinish(run, store, stop, steps, i, acc);
      status := if stop then Returned(0) else Running;
      consumed := i;
    }

    /** main (lines 331-382): classify the arguments, start the server,
        run the loop to its end, then remove the log file. None means the
        loop has not ended within the script. */
    method Launch(argv: seq<string>, startupOk: bool, steps: seq<Step>) returns (code: Option<int>)
      modifies this`store, this`sent, this`replies, this`stop
      ensures var r := Run(old(store), old(stop), steps);
        code == MainReturn(argv, startupOk, r.status)
      ensures Classify(argv) == Usage || !startupOk ==>
        store == old(store) && sent == old(sent) && stop == old(stop) && replies == old(replies)
      ensures var r := Run(old(store), old(stop), steps);
        Classify(argv) != Usage && startupOk ==>
          stop == r.stop && replies == old(replies) + r.replies && sent == LastReply(old(sent), r.replies) &&
          store == (if r.status == Running then r.store else [])
    {
      var mode := Classify(argv);
      if mode == Usage {
        return Some(-1);
      }
      // signal(SIGINT, ...), signal(SIGTERM, ...), start_server_socket(mode == Daemon)
      if !startupOk {
        return Some(-1);
      }
      var status, consumed := RunServer(steps);
      if status == Running {
        return None;
      }
      // close(sock_fd); remove(FILE_PATH)
      store := [];
      return Some(0);
    }
  }
}
