/** The long-message ping-pong of micro_benchmarks/test_long.hpp: the namespace state l::data,
    l::local_number, l::msg_recieved and l::reply_number of one rank, its handlers and its send,
    and the benchmark of two ranks with its size check and the neighbour's segment address. */
module LongBenchmark {
  import opened Outcomes
  import opened PingPong
  import opened Buffers

  type byte = bv8

  const LongRequestHandler: nat := 204
  const LongReplyHandler: nat := 205

  /** gasnet_AMRequestLong1(dest, long_req_id, data, size, dest_mem, number): the transport puts a
      copy of the payload bytes at address dest_mem of the destination's segment. */
  datatype LongRequest = LongRequest(dest: nat, handler: nat, payload: seq<byte>, destAddr: int, number: int)

  class LongRank {
    const rank: nat
    var data: array<byte>
    var localNumber: int
    var msgReceived: bool
    var replyNumber: int

    function State(): Counter
      reads this
    {
      Counter(localNumber, msgReceived)
    }

    /** The namespace initialisers; l::data starts out without a buffer. */
    constructor (r: nat)
      ensures rank == r && data.Length == 0 && localNumber == 0 && !msgReceived && replyNumber == 0
    {
      rank := r;
      data := new byte[0];
      localNumber := 0;
      msgReceived := false;
      replyNumber := 0;
    }

    /** l::data = new byte_t[message_size]: a fresh buffer of unspecified contents. */
    method Allocate(size: nat)
      modifies this
      ensures fresh(data) && data.Length == size
      ensures State() == old(State()) && replyNumber == old(replyNumber)
    {
      data := new byte[size];
    }

    /** The reset before the timed loop: rank 0 starts the chain. */
    method Reset()
      modifies this
      ensures State() == Start(rank) && replyNumber == old(replyNumber) && data == old(data)
    {
      localNumber := if rank == 0 then 0 else -1;
      msgReceived := rank == 0;
    }

    /** long_request_handler, with buf the payload the transport has put into the segment: throws
        unless the number is local_number + 2 (then nothing has changed); otherwise copies the
        size payload bytes to the front of l::data, opens the gate and takes the number. */
    method HandleRequest(buf: seq<byte>, size: nat, recvNumber: int)
      returns (r: Result<(), ProtocolError>)
      requires size <= |buf| && size <= data.Length
      modifies this, data
      ensures data == old(data) && replyNumber == old(replyNumber)
      ensures r.Err? <==> Accept(old(State()), recvNumber).Err?
      ensures r.Ok? ==> State() == Accept(old(State()), recvNumber).value
      ensures r.Ok? ==> data[..] == Splice(old(data[..]), 0, buf[..size])
      ensures r.Err? ==> State() == old(State()) && data[..] == old(data[..])
    {
      if recvNumber - localNumber != 2 {
        return Err(NumberDifference);
      }
      CopyInto(data, 0, buf[..size]);
      msgReceived := true;
      localNumber := recvNumber;
      r := Ok(());
    }

    /** long_reply_handler. */
    method HandleReply()
      modifies this
      ensures replyNumber == old(replyNumber) + 1 && State() == old(State()) && data == old(data)
    {
      replyNumber := replyNumber + 1;
    }

    /** send_long(l::data, size, dest, dest_mem): wait for the gate (a precondition here), close
        it, send the first size bytes of l::data to dest_mem on dest with local_number + 1. */
    method SendLong(size: nat, dest: nat, destMem: int) returns (req: LongRequest)
      requires msgReceived && size <= data.Length
      modifies this
      ensures data == old(data) && replyNumber == old(replyNumber)
      ensures (State(), req.number) == Send(old(State()))
      ensures req.dest == dest && req.handler == LongRequestHandler && req.payload == data[..size]
      ensures req.destAddr == destMem
    {
      msgReceived := false;
      req := LongRequest(dest, LongRequestHandler, data[..size], destMem, localNumber + 1);
    }
  }

  /** Request k of a run (counting from 0 over both ranks): even ones go from rank 0 to rank 1,
      odd ones back, request k carries number k + 1, every one carries the same bytes, and each
      is placed at the base address of its destination's segment. */
  predicate IsTrace(trace: seq<LongRequest>, payload: seq<byte>, segAddr: seq<int>)
    requires |segAddr| >= 2
  {
    forall k :: 0 <= k < |trace| ==>
      var dest := if k % 2 == 0 then 1 else 0;
      trace[k] == LongRequest(dest, LongRequestHandler, payload, segAddr[dest], k + 1)
  }

  /** One pass of both ranks' send loops: rank 0 sends to its neighbour and rank 1's handler takes
      it, then rank 1 sends back and rank 0's handler takes it; the bytes rank 0 holds make the
      round trip and end up in both buffers. */
  method Round(a: LongRank, b: LongRank, size: nat, segAddr: seq<int>, ghost k: nat, ghost p0: seq<byte>)
    returns (ping: LongRequest, pong: LongRequest)
    requires a != b && a.data != b.data && a.rank == 0 && b.rank == 1 && |segAddr| >= 2
    requires a.data.Length == size && b.data.Length == size
    requires a.State() == Counter(2 * k, true) && b.State() == Counter(2 * k - 1, false)
    requires a.data[..] == p0
    modifies a, b, a.data, b.data
    ensures a.data == old(a.data) && b.data == old(b.data)
    ensures a.State() == Counter(2 * k + 2, true) && b.State() == Counter(2 * k + 1, false)
    ensures a.data[..] == p0 && b.data[..] == p0
    ensures ping == LongRequest(1, LongRequestHandler, p0, segAddr[1], 2 * k + 1)
    ensures pong == LongRequest(0, LongRequestHandler, p0, segAddr[0], 2 * k + 2)
  {
    var na := Neighbour(a.rank);
    ping := a.SendLong(size, na, segAddr[na]);
    SpliceWhole(b.data[..], ping.payload);
    var got := b.HandleRequest(ping.payload, size, ping.number);
    assert got.Ok?;
    var nb := Neighbour(b.rank);
    pong := b.SendLong(size, nb, segAddr[nb]);
    SpliceWhole(a.data[..], pong.payload);
    got := a.HandleRequest(pong.payload, size, pong.number);
    assert got.Ok?;
  }

  /** benchmark_long on both ranks with the same message_size and the segment table segAddr
      (gasnet_getSegmentInfo, one base address per rank): a size that gasnet_AMMaxLongRequest()
      does not allow (or a negative one) throws before anything happens; otherwise both buffers
      are allocated and the send loop runs, each rank writing to its neighbour's segment base,
      with each request handed to the other rank's handler as soon as it is sent. No handler throws, the requests carry 1, 2, ..., 2n and all carry
      the bytes rank 0's buffer held at the start, which after the first round both buffers hold;
      and the final waits hold. */
  method Benchmark(a: LongRank, b: LongRank, messageSize: int, maxLong: nat, segAddr: seq<int>, n: nat)
    returns (r: Result<seq<LongRequest>, BenchError>)
    requires a != b && a.rank == 0 && b.rank == 1 && |segAddr| >= 2
    requires IsInt32(messageSize) && maxLong < SizeTModulus - 0x8000_0000
    modifies a, b
    ensures r.Err? <==> !(0 <= messageSize <= maxLong)
    ensures r.Err? ==> r.error == SizeTooLarge && a.State() == old(a.State()) && b.State() == old(b.State())
    ensures r.Err? ==> a.data == old(a.data) && b.data == old(b.data)
    ensures r.Err? ==> a.replyNumber == old(a.replyNumber) && b.replyNumber == old(b.replyNumber)
    ensures r.Ok? ==> a.data.Length == messageSize && b.data.Length == messageSize
    ensures r.Ok? ==> |r.value| == 2 * n && (n > 0 ==> IsTrace(r.value, a.data[..], segAddr))
    ensures r.Ok? && n > 0 ==> b.data[..] == a.data[..]
    ensures r.Ok? ==> a.localNumber == 2 * n && b.localNumber == 2 * n - 1
  {
    CheckSizeMeaning(messageSize, maxLong);
    var checked := CheckSize(messageSize, maxLong);
    if checked.Err? {
      return Err(checked.error);
    }
    var size := checked.value;
    a.Allocate(size);
    b.Allocate(size);
    a.Reset();
    b.Reset();
    ghost var p0 := a.data[..];
    var trace := [];
    var k := 0;
    while k < n
      invariant k <= n
      invariant fresh(a.data) && fresh(b.data) && a.data != b.data
      invariant a.data.Length == size && b.data.Length == size
      invariant a.State() == Counter(2 * k, true) && b.State() == Counter(2 * k - 1, false)
      invariant a.data[..] == p0 && (k > 0 ==> b.data[..] == p0)
      invariant |trace| == 2 * k && IsTrace(trace, p0, segAddr)
    {
      var ping, pong := Round(a, b, size, segAddr, k, p0);
      trace := trace + [ping, pong];
      k := k + 1;
    }
    r := Ok(trace);
  }
}
