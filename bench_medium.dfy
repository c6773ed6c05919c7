/** The medium-message ping-pong of micro_benchmarks/test_medium.hpp: the namespace state
    m::data, m::local_number, m::msg_recieved and m::reply_number of one rank, its handlers and
    its send, and the benchmark of two ranks with its size check. */
module MediumBenchmark {
  import opened Outcomes
  import opened PingPong
  import opened Buffers

  type byte = bv8

  const MediumRequestHandler: nat := 202
  const MediumReplyHandler: nat := 203

  /** gasnet_AMRequestMedium1(dest, medium_req_id, data, size, number): the transport carries a
      copy of the payload bytes. */
  datatype MediumRequest = MediumRequest(dest: nat, handler: nat, payload: seq<byte>, number: int)

  class MediumRank {
    const rank: nat
    var data: array<byte>
    var localNumber: int
    var msgReceived: bool
    var replyNumber: int

    function State(): Counter
      reads this
    {
      Counter(localNumber, msgReceived)
    }

    /** The namespace initialisers; m::data starts out without a buffer. */
    constructor (r: nat)
      ensures rank == r && data.Length == 0 && localNumber == 0 && !msgReceived && replyNumber == 0
    {
      rank := r;
      data := new byte[0];
      localNumber := 0;
      msgReceived := false;
      replyNumber := 0;
    }

    /** m::data = new byte_t[message_size]: a fresh buffer of unspecified contents. */
    method Allocate(size: nat)
      modifies this
      ensures fresh(data) && data.Length == size
      ensures State() == old(State()) && replyNumber == old(replyNumber)
    {
      data := new byte[size];
    }

    /** The reset before the timed loop: rank 0 starts the chain. */
    method Reset()
      modifies this
      ensures State() == Start(rank) && replyNumber == old(replyNumber) && data == old(data)
    {
      localNumber := if rank == 0 then 0 else -1;
      msgReceived := rank == 0;
    }

    /** medium_request_handler: throws unless the number is local_number + 2 (then nothing has
        changed); otherwise copies the size payload bytes to the front of m::data, opens the gate
        and takes the number. */
    method HandleRequest(buf: seq<byte>, size: nat, recvNumber: int)
      returns (r: Result<(), ProtocolError>)
      requires size <= |buf| && size <= data.Length
      modifies this, data
      ensures data == old(data) && replyNumber == old(replyNumber)
      ensures r.Err? <==> Accept(old(State()), recvNumber).Err?
      ensures r.Ok? ==> State() == Accept(old(State()), recvNumber).value
      ensures r.Ok? ==> data[..] == Splice(old(data[..]), 0, buf[..size])
      ensures r.Err? ==> State() == old(State()) && data[..] == old(data[..])
    {
      if recvNumber - localNumber != 2 {
        return Err(NumberDifference);
      }
      CopyInto(data, 0, buf[..size]);
      msgReceived := true;
      localNumber := recvNumber;
      r := Ok(());
    }

    /** medium_reply_handler. */
    method HandleReply()
      modifies this
      ensures replyNumber == old(replyNumber) + 1 && State() == old(State()) && data == old(data)
    {
      replyNumber := replyNumber + 1;
    }

    /** send_medium(m::data, size, dest): wait for the gate (a precondition here), close it, send
        the first size bytes of m::data with local_number + 1. */
    method SendMedium(size: nat, dest: nat) returns (req: MediumRequest)
      requires msgReceived && size <= data.Length
      modifies this
      ensures data == old(data) && replyNumber == old(replyNumber)
      ensures (State(), req.number) == Send(old(State()))
      ensures req.dest == dest && req.handler == MediumRequestHandler && req.payload == data[..size]
    {
      msgReceived := false;
      req := MediumRequest(dest, MediumRequestHandler, data[..size], localNumber + 1);
    }
  }

  /** Request k of a run (counting from 0 over both ranks): even ones go from rank 0 to rank 1,
      odd ones back, request k carries number k + 1, and every one carries the same bytes. */
  predicate IsTrace(trace: seq<MediumRequest>, payload: seq<byte>) {
    forall k :: 0 <= k < |trace| ==>
      trace[k] == MediumRequest(if k % 2 == 0 then 1 else 0, MediumRequestHandler, payload, k + 1)
  }

  /** One pass of both ranks' send loops: rank 0 sends to its neighbour and rank 1's handler takes
      it, then rank 1 sends back and rank 0's handler takes it; the bytes rank 0 holds make the
      round trip and end up in both buffers. */
  method Round(a: MediumRank, b: MediumRank, size: nat, ghost k: nat, ghost p0: seq<byte>)
    returns (ping: MediumRequest, pong: MediumRequest)
    requires a != b && a.data != b.data && a.rank == 0 && b.rank == 1
    requires a.data.Length == size && b.data.Length == size
    requires a.State() == Counter(2 * k, true) && b.State() == Counter(2 * k - 1, false)
    requires a.data[..] == p0
    modifies a, b, a.data, b.data
    ensures a.data == old(a.data) && b.data == old(b.data)
    ensures a.State() == Counter(2 * k + 2, true) && b.State() == Counter(2 * k + 1, false)
    ensures a.data[..] == p0 && b.data[..] == p0
    ensures ping == MediumRequest(1, MediumRequestHandler, p0, 2 * k + 1)
    ensures pong == MediumRequest(0, MediumRequestHandler, p0, 2 * k + 2)
  {
    var na := Neighbour(a.rank);
    ping := a.SendMedium(size, na);
    SpliceWhole(b.data[..], ping.payload);
    var got := b.HandleRequest(ping.payload, size, ping.number);
    assert got.Ok?;
    var nb := Neighbour(b.rank);
    pong := b.SendMedium(size, nb);
    SpliceWhole(a.data[..], pong.payload);
    got := a.HandleRequest(pong.payload, size, pong.number);
    assert got.Ok?;
  }

  /** benchmark_medium on both ranks with the same message_size: a size that gasnet_AMMaxMedium()
      does not allow (or a negative one) throws before anything happens; otherwise both buffers
      are allocated and the send loop runs with each request handed to the other rank's handler
      as soon as it is sent. No handler throws, the requests carry 1, 2, ..., 2n and all carry
      the bytes rank 0's buffer held at the start, which after the first round both buffers hold;
      and the final waits hold. */
  method Benchmark(a: MediumRank, b: MediumRank, messageSize: int, maxMedium: nat, n: nat)
    returns (r: Result<seq<MediumRequest>, BenchError>)
    requires a != b && a.rank == 0 && b.rank == 1
    requires IsInt32(messageSize) && maxMedium < SizeTModulus - 0x8000_0000
    modifies a, b
    ensures r.Err? <==> !(0 <= messageSize <= maxMedium)
    ensures r.Err? ==> r.error == SizeTooLarge && a.State() == old(a.State()) && b.State() == old(b.State())
    ensures r.Err? ==> a.data == old(a.data) && b.data == old(b.data)
    ensures r.Err? ==> a.replyNumber == old(a.replyNumber) && b.replyNumber == old(b.replyNumber)
    ensures r.Ok? ==> a.data.Length == messageSize && b.data.Length == messageSize
    ensures r.Ok? ==> |r.value| == 2 * n && (n > 0 ==> IsTrace(r.value, a.data[..]))
    ensures r.Ok? && n > 0 ==> b.data[..] == a.data[..]
    ensures r.Ok? ==> a.localNumber == 2 * n && b.localNumber == 2 * n - 1
  {
    CheckSizeMeaning(messageSize, maxMedium);
    var checked := CheckSize(messageSize, maxMedium);
    if checked.Err? {
      return Err(checked.error);
    }
    var size := checked.value;
    a.Allocate(size);
    b.Allocate(size);
    a.Reset();
    b.Reset();
    ghost var p0 := a.data[..];
    var trace := [];
    var k := 0;
    while k < n
      invariant k <= n
      invariant fresh(a.data) && fresh(b.data) && a.data != b.data
      invariant a.data.Length == size && b.data.Length == size
      invariant a.State() == Counter(2 * k, true) && b.State() == Counter(2 * k - 1, false)
      invariant a.data[..] == p0 && (k > 0 ==> b.data[..] == p0)
      invariant |trace| == 2 * k && IsTrace(trace, p0)
    {
      var ping, pong := Round(a, b, size, k, p0);
      trace := trace + [ping, pong];
      k := k + 1;
    }
    r := Ok(trace);
  }
}
