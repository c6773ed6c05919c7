/** The short-message ping-pong of micro_benchmarks/test_short.hpp: the namespace state
    s::local_number, s::msg_received and s::reply_number of one rank, its handlers and its
    send, and the benchmark loop of two ranks. */
module ShortBenchmark {
  import opened Outcomes
  import opened PingPong

  const ShortRequestHandler: nat := 200
  const ShortReplyHandler: nat := 201

  /** gasnet_AMRequestShort1(dest, short_req_id, number). */
  datatype ShortRequest = ShortRequest(dest: nat, handler: nat, number: int)

  class ShortRank {
    const rank: nat
    var localNumber: int
    var msgReceived: bool
    var replyNumber: int

    function State(): Counter
      reads this
    {
      Counter(localNumber, msgReceived)
    }

    /** The namespace initialisers: all zero, gate closed. */
    constructor (r: nat)
      ensures rank == r && localNumber == 0 && !msgReceived && replyNumber == 0
    {
      rank := r;
      localNumber := 0;
      msgReceived := false;
      replyNumber := 0;
    }

    /** The reset before the timed loop: rank 0 starts the chain. */
    method Reset()
      modifies this
      ensures State() == Start(rank) && replyNumber == old(replyNumber)
    {
      localNumber := if rank == 0 then 0 else -1;
      msgReceived := rank == 0;
    }

    /** short_request_handler: throws unless the number is local_number + 2, else takes it and
        opens the gate. */
    method HandleRequest(recvNumber: int) returns (r: Result<(), ProtocolError>)
      modifies this
      ensures r.Err? <==> Accept(old(State()), recvNumber).Err?
      ensures r.Ok? ==> State() == Accept(old(State()), recvNumber).value
      ensures r.Err? ==> State() == old(State())
      ensures replyNumber == old(replyNumber)
    {
      if recvNumber - localNumber != 2 {
        return Err(NumberDifference);
      }
      localNumber := recvNumber;
      msgReceived := true;
      r := Ok(());
    }

    /** short_reply_handler. */
    method HandleReply()
      modifies this
      ensures replyNumber == old(replyNumber) + 1 && State() == old(State())
    {
      replyNumber := replyNumber + 1;
    }

    /** send_short: wait for the gate (a precondition here), close it, send local_number + 1. */
    method SendShort(dest: nat) returns (req: ShortRequest)
      requires msgReceived
      modifies this
      ensures (State(), req.number) == Send(old(State()))
      ensures req.dest == dest && req.handler == ShortRequestHandler
      ensures replyNumber == old(replyNumber)
    {
      msgReceived := false;
      req := ShortRequest(dest, ShortRequestHandler, localNumber + 1);
    }
  }

  /** The k-th request of a run (counting from 0 over both ranks): even ones go from rank 0 to
      rank 1, odd ones back, and request k carries number k + 1. */
  predicate IsTrace(trace: seq<ShortRequest>) {
    forall k :: 0 <= k < |trace| ==> trace[k] == ShortRequest(if k % 2 == 0 then 1 else 0, ShortRequestHandler, k + 1)
  }

  /** benchmark_short on both ranks, each request handed to the other rank's handler as soon as
      it is sent: no handler throws (asserted at each delivery), the requests carry 1, 2, ..., 2n,
      and the final waits hold (rank 0 ends at 2n, rank 1 at 2n-1). */
  method Benchmark(a: ShortRank, b: ShortRank, n: nat) returns (trace: seq<ShortRequest>)
    requires a != b && a.rank == 0 && b.rank == 1
    modifies a, b
    ensures |trace| == 2 * n && IsTrace(trace)
    ensures a.localNumber == 2 * n && b.localNumber == 2 * n - 1
  {
    a.Reset();
    b.Reset();
    trace := [];
    var k := 0;
    while k < n
      invariant k <= n
      invariant a.State() == Counter(2 * k, true) && b.State() == Counter(2 * k - 1, false)
      invariant |trace| == 2 * k && IsTrace(trace)
    {
      var ping := a.SendShort(Neighbour(a.rank));
      var got := b.HandleRequest(ping.number);
      assert got.Ok?;
      var pong := b.SendShort(Neighbour(b.rank));
      got := a.HandleRequest(pong.number);
      assert got.Ok?;
      trace := trace + [ping, pong];
      k := k + 1;
    }
  }
}
