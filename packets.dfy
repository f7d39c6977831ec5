/** The first phase of handle_client_connection: receiving chunks into the
    packet buffer until a chunk holds a newline or the peer closes. */
module Packets {
  import opened AesdTypes

  /** After this recv result the daemon calls recv again. */
  predicate Continues(r: RecvResult) {
    r.Data? && NEWLINE !in r.bytes
  }

  /** The index of the recv result that ends the receive loop: the first one
      that is an error, a close, or a chunk holding a newline; |rs| when there
      is none. */
  function StopIndex(rs: seq<RecvResult>): (k: nat)
    ensures k <= |rs|
    ensures forall j :: 0 <= j < k ==> Continues(rs[j])
    ensures k < |rs| ==> !Continues(rs[k])
  {
    if rs == [] || !Continues(rs[0]) then 0 else 1 + StopIndex(rs[1..])
  }

  /** How many recv results the receive loop consumes. Running out of results
      is treated like a zero-length read. */
  function RecvCalls(rs: seq<RecvResult>): (n: nat)
    ensures n <= |rs|
  {
    if StopIndex(rs) < |rs| then StopIndex(rs) + 1 else |rs|
  }

  /** The receive loop ends with a recv error. */
  predicate RecvFails(rs: seq<RecvResult>) {
    StopIndex(rs) < |rs| && rs[StopIndex(rs)].Err?
  }

  /** The bytes a recv result contributes to the packet. */
  function Payload(r: RecvResult): seq<byte> {
    if r.Data? then r.bytes else []
  }

  /** The in-order concatenation of the data chunks of rs. */
  function Concat(rs: seq<RecvResult>): seq<byte> {
    if rs == [] then [] else Payload(rs[0]) + Concat(rs[1..])
  }

  /** The packet the receive loop accumulates: every chunk it consumed, the
      one holding the newline included and not truncated at the newline. */
  function Packet(rs: seq<RecvResult>): seq<byte> {
    Concat(rs[..RecvCalls(rs)])
  }

  lemma {:induction false} ConcatAppend(a: seq<RecvResult>, b: seq<RecvResult>)
    ensures Concat(a + b) == Concat(a) + Concat(b)
  {
    if a == [] {
      assert a + b == b;
    } else {
      assert (a + b)[1..] == a[1..] + b;
      ConcatAppend(a[1..], b);
    }
  }

  lemma ConcatSnoc(rs: seq<RecvResult>, i: nat)
    requires i < |rs|
    ensures Concat(rs[..i + 1]) == Concat(rs[..i]) + Payload(rs[i])
  {
    assert rs[..i + 1] == rs[..i] + [rs[i]];
    ConcatAppend(rs[..i], [rs[i]]);
    assert Concat([rs[i]]) == Payload(rs[i]) + Concat([]);
  }

  /** The receive loop of handle_client_connection (lines 30-68). The packet
      is the growing buffer; failed reports the recv error after which the
      buffer is freed and -1 returned. */
  method ReceivePacket(rs: seq<RecvResult>) returns (failed: bool, packet: seq<byte>, calls: nat)
    ensures calls == RecvCalls(rs)
    ensures failed == RecvFails(rs)
    ensures !failed ==> packet == Packet(rs)
  {
    packet, calls := [], 0;
    while true
      invariant calls <= StopIndex(rs)
      invariant packet == Concat(rs[..calls])
      decreases |rs| - calls
    {
      if calls == |rs| {
        failed := false;
        return;
      }
      var r := rs[calls];
      ConcatSnoc(rs, calls);
      calls := calls + 1;
      match r
      case Err =>
        failed, packet := true, [];
        return;
      case Closed =>
        failed := false;
        return;
      case Data(bytes) =>
        packet := packet + bytes;
        if NEWLINE in bytes {
          failed := false;
          return;
        }
    }
  }

  /** StopIndex is the position of the first result that does not continue. */
  lemma StopIndexAt(prefix: seq<RecvResult>, r: RecvResult, rest: seq<RecvResult>)
    requires forall j :: 0 <= j < |prefix| ==> Continues(prefix[j])
    requires !Continues(r)
    ensures StopIndex(prefix + [r] + rest) == |prefix|
  {
    var rs := prefix + [r] + rest;
    assert rs[|prefix|] == r;
    assert forall j :: 0 <= j < |prefix| ==> rs[j] == prefix[j];
  }

  /** The loop stops at the first chunk holding a newline, wherever the newline
      is in it; the whole chunk is kept and nothing after it is read. */
  lemma PacketEndsAtFirstNewline(prefix: seq<RecvResult>, c: Chunk, rest: seq<RecvResult>)
    requires forall j :: 0 <= j < |prefix| ==> Continues(prefix[j])
    requires NEWLINE in c
    ensures var rs := prefix + [Data(c)] + rest;
      !RecvFails(rs) && RecvCalls(rs) == |prefix| + 1 && Packet(rs) == Concat(prefix) + c
  {
    var rs := prefix + [Data(c)] + rest;
    StopIndexAt(prefix, Data(c), rest);
    assert rs[..|prefix| + 1] == prefix + [Data(c)];
    ConcatAppend(prefix, [Data(c)]);
    assert Concat([Data(c)]) == c + Concat([]);
  }

  /** A full BUFFER_SIZE chunk whose last byte is the newline completes the
      packet in that same read. */
  lemma FullChunkWithFinalNewline(c: Chunk, rest: seq<RecvResult>)
    requires |c| == BUFFER_SIZE && c[BUFFER_SIZE - 1] == NEWLINE
    ensures RecvCalls([Data(c)] + rest) == 1 && Packet([Data(c)] + rest) == c
  {
    PacketEndsAtFirstNewline([], c, rest);
    assert [] + [Data(c)] + rest == [Data(c)] + rest;
  }

  /** A zero-length read ends the loop and commits what came before it. */
  lemma PacketEndsAtClose(prefix: seq<RecvResult>, rest: seq<RecvResult>)
    requires forall j :: 0 <= j < |prefix| ==> Continues(prefix[j])
    ensures var rs := prefix + [Closed] + rest;
      !RecvFails(rs) && RecvCalls(rs) == |prefix| + 1 && Packet(rs) == Concat(prefix)
  {
    var rs := prefix + [Closed] + rest;
    StopIndexAt(prefix, Closed, rest);
    assert rs[..|prefix| + 1] == prefix + [Closed];
    ConcatAppend(prefix, [Closed]);
  }

  /** A recv error ends the loop with a failure. */
  lemma PacketFailsAtError(prefix: seq<RecvResult>, rest: seq<RecvResult>)
    requires forall j :: 0 <= j < |prefix| ==> Continues(prefix[j])
    ensures var rs := prefix + [Err] + rest;
      RecvFails(rs) && RecvCalls(rs) == |prefix| + 1
  {
    StopIndexAt(prefix, Err, rest);
  }

  lemma {:induction false} StopIndexExtend(rs: seq<RecvResult>, more: seq<RecvResult>)
    requires StopIndex(rs) < |rs|
    ensures StopIndex(rs + more) == StopIndex(rs)
  {
    assert (rs + more)[0] == rs[0];
    if Continues(rs[0]) {
      assert (rs + more)[1..] == rs[1..] + more;
      StopIndexExtend(rs[1..], more);
    }
  }

  /** Once the loop has stopped, later recv results play no part: neither
      the number of calls nor the outcome changes ... */
  lemma OutcomeIgnoresLaterResults(rs: seq<RecvResult>, more: seq<RecvResult>)
    requires StopIndex(rs) < |rs|
    ensures RecvCalls(rs + more) == RecvCalls(rs)
    ensures RecvFails(rs + more) == RecvFails(rs)
  {
    StopIndexExtend(rs, more);
    assert (rs + more)[StopIndex(rs)] == rs[StopIndex(rs)];
  }

  /** ... and neither does the packet. */
  lemma PacketIgnoresLaterResults(rs: seq<RecvResult>, more: seq<RecvResult>)
    requires StopIndex(rs) < |rs|
    ensures Packet(rs + more) == Packet(rs)
  {
    var k := StopIndex(rs);
    StopIndexExtend(rs, more);
    assert RecvCalls(rs + more) == k + 1 == RecvCalls(rs);
    assert (rs + more)[..k + 1] == rs[..k + 1];
  }

  /** The packet is empty (the buffer pointer stays NULL) exactly when the
      loop ends at the very first recv result without an error. */
  lemma {:induction false} EmptyPacketIffImmediateClose(rs: seq<RecvResult>)
    requires !RecvFails(rs)
    ensures Packet(rs) == [] <==> (rs == [] || rs[0] == Closed)
  {
    if rs != [] && rs[0].Data? {
      var n := RecvCalls(rs);
      assert n >= 1;
      assert rs[..n] == [rs[0]] + rs[1..n];
      ConcatAppend([rs[0]], rs[1..n]);
      assert Concat([rs[0]]) == rs[0].bytes + Concat([]);
      assert |Packet(rs)| >= |rs[0].bytes| >= 1;
    } else if rs != [] && rs[0] == Closed {
      assert StopIndex(rs) == 0;
      assert rs[..1] == [Closed];
      assert Concat([Closed]) == [] + Concat([]);
    }
  }
}
