/** What one call of handle_client_connection does to the log file and to
    the client: receive a packet, append it, then read the whole file back
    and send it. */
module Connection {
  import opened AesdTypes
  import opened Packets

  /** The iteration at which the read-back loop aborts for a file of len
      bytes, if it does. Read number k happens when the k chunks before it
      did not yet reach the end of the file; the k-th chunk is sent when the
      file holds more than k whole chunks' worth before it. An unchecked
      failed open makes the very first read fail. */
  function EchoStop(faults: IoFaults, len: nat): Option<nat>
  {
    if faults.reopenFails then Some(0)
    else match faults.echo
      case NoEchoFault => None
      case ReadFailsAt(k) => if k * BUFFER_SIZE < len + BUFFER_SIZE then Some(k) else None
      case SendFailsAt(k) => if k * BUFFER_SIZE < len then Some(k) else None
  }

  datatype EchoResult = EchoResult(status: int, sent: seq<byte>)

  /** The read-back loop (lines 99-131) on a file holding `file`: the chunks
      before the failing iteration reach the client, whole and in order. */
  function Echo(file: seq<byte>, faults: IoFaults): (e: EchoResult)
    ensures e.status == 0 || e.status == -1
    ensures e.sent <= file
    ensures e.status == 0 ==> e.sent == file
  {
    match EchoStop(faults, |file|)
    case None => EchoResult(0, file)
    case Some(k) => EchoResult(-1, file[..Min(k * BUFFER_SIZE, |file|)])
  }

  /** What reaches the client is the whole file or a whole number of chunks. */
  lemma EchoWholeChunks(file: seq<byte>, faults: IoFaults)
    ensures var e := Echo(file, faults);
      e.sent == file || |e.sent| % BUFFER_SIZE == 0
  {
  }

  /** The bytes a session adds to the log file: its packet, unless receiving
      failed or the file could not be opened or written. */
  function Commit(s: Session): seq<byte>
  {
    if RecvFails(s.recv) || s.faults.openFails || s.faults.writeFails then []
    else Packet(s.recv)
  }

  /** The return value of handle_client_connection, the log file afterwards
      and the bytes sent to the client. */
  datatype SessionResult = SessionResult(status: int, store: seq<byte>, sent: seq<byte>)

  /** One session against a log file holding `store`. */
  function Handle(store: seq<byte>, s: Session): (r: SessionResult)
    // the result is 0 or -1
    ensures r.status == 0 || r.status == -1
    // the file is only ever appended to
    ensures r.store == store + Commit(s)
    // the client receives a prefix of the file as it is after the append
    ensures r.sent <= r.store
    // a recv error: -1, file untouched, nothing sent
    ensures RecvFails(s.recv) ==> r == SessionResult(-1, store, [])
    // nothing received: 0, file untouched, and no echo at all
    ensures !RecvFails(s.recv) && Packet(s.recv) == [] ==> r == SessionResult(0, store, [])
    // the file could not be opened or written: -1, file untouched, nothing sent
    ensures !RecvFails(s.recv) && Packet(s.recv) != [] && (s.faults.openFails || s.faults.writeFails) ==>
              r == SessionResult(-1, store, [])
    // success with a packet: the client receives the whole file, packet included
    ensures r.status == 0 && Packet(s.recv) != [] ==>
              r.store == store + Packet(s.recv) && r.sent == r.store
  {
    if RecvFails(s.recv) then SessionResult(-1, store, [])
    else
      var packet := Packet(s.recv);
      if packet == [] then SessionResult(0, store, [])
      else if s.faults.openFails || s.faults.writeFails then SessionResult(-1, store, [])
      else
        var file := store + packet;
        var e := Echo(file, s.faults);
        SessionResult(e.status, file, e.sent)
  }

  /** A failure while reading back or sending returns -1 but keeps the
      append: the file still ends with the packet. */
  lemma EchoFailureKeepsAppend(store: seq<byte>, s: Session)
    requires !RecvFails(s.recv) && Packet(s.recv) != []
    requires !s.faults.openFails && !s.faults.writeFails
    requires EchoStop(s.faults, |store| + |Packet(s.recv)|).Some?
    ensures var r := Handle(store, s);
      r.status == -1 && r.store == store + Packet(s.recv) && r.sent <= r.store
  {
  }

  /** With no fault the session returns 0 exactly when it did not fail to
      receive, and a non-empty packet is echoed back with the whole file. */
  lemma FaultFreeSession(store: seq<byte>, recv: seq<RecvResult>)
    requires !RecvFails(recv)
    ensures var r := Handle(store, Session(recv, NoFaults));
      r.status == 0 && r.store == store + Packet(recv) &&
      r.sent == (if Packet(recv) == [] then [] else store + Packet(recv))
  {
  }
}
