/** Constants and the values exchanged between the daemon and its environment. */
module AesdTypes {
  import opened Signals

  /** One octet as handed over by recv, read and write. */
  newtype byte = b: int | 0 <= b < 0x100

  /** Size of the receive buffer and of the file read buffer (aesdsocket.h). */
  const BUFFER_SIZE: nat := 1024

  /** The byte '\n' that completes a packet. */
  const NEWLINE: byte := 10

  /** What one successful recv call returns: between 1 and BUFFER_SIZE bytes
      (a zero-length read is the separate outcome Closed). */
  type Chunk = s: seq<byte> | 1 <= |s| <= BUFFER_SIZE witness [NEWLINE]

  /** The outcome of one recv call on the client socket. */
  datatype RecvResult = Data(bytes: Chunk) | Closed | Err

  datatype Option<T> = None | Some(value: T)

  /** Where the read-back-and-send loop of a session aborts, if anywhere:
      at the read call with the given index (the call that follows the
      last chunk is the one that reports end of file), or at the send of the
      chunk with the given index. */
  datatype EchoFault = NoEchoFault | ReadFailsAt(readIndex: nat) | SendFailsAt(chunkIndex: nat)

  /** The failures the file system and the socket may produce in one session.
      Writes and sends either transfer everything or fail. */
  datatype IoFaults = IoFaults(
    openFails: bool,    // open of the log file for appending
    writeFails: bool,   // the single write of the packet
    reopenFails: bool,  // open of the log file for reading back (not checked by the daemon)
    echo: EchoFault)

  const NoFaults: IoFaults := IoFaults(false, false, false, NoEchoFault)

  /** One accepted client: what recv returns on its socket, in order, and
      which file or send operations fail while it is served. */
  datatype Session = Session(recv: seq<RecvResult>, faults: IoFaults)

  /** The outcome of one accept call on the listening socket. */
  datatype AcceptOutcome =
    | Timeout            // EWOULDBLOCK or EAGAIN: the receive timeout expired
    | Fail               // any other accept error
    | Client(session: Session)

  /** One iteration of the accept loop: the caught signals delivered during
      it and what accept returned. */
  datatype Step = Step(signals: seq<CaughtSignal>, outcome: AcceptOutcome)

  function Min(a: int, b: int): int { if a <= b then a else b }
}
