/** The sequence-number protocol shared by the short, medium and long ping-pong benchmarks
    (micro_benchmarks/test_short.hpp, test_medium.hpp, test_long.hpp): a rank may send only
    after it has received (the msg_received gate), it sends local_number + 1, and the request
    handler insists that the number it receives is its own local_number plus 2. */
module PingPong {
  import opened Outcomes

  /** local_number and msg_received of one rank. */
  datatype Counter = Counter(localNumber: int, msgReceived: bool)

  /** The one failure of the handler: "number difference != 2". */
  datatype ProtocolError = NumberDifference

  /** The state each benchmark resets a rank to: rank 0 starts the chain with 0, the other rank
      starts one behind with -1 and waits. */
  function Start(rank: nat): Counter {
    if rank == 0 then Counter(0, true) else Counter(-1, false)
  }

  /** The other rank of the pair. */
  function Neighbour(rank: nat): (nb: nat)
    ensures nb < 2 && (rank < 2 ==> nb != rank)
  {
    if rank == 0 then 1 else 0
  }

  /** The request handler on the counters: a number that is not local_number + 2 is refused
      and changes nothing; otherwise it becomes local_number and the gate opens. */
  function Accept(c: Counter, recv: int): (r: Result<Counter, ProtocolError>)
    ensures r.Err? <==> recv - c.localNumber != 2
    ensures r.Ok? ==> r.value.msgReceived && r.value.localNumber == c.localNumber + 2
  {
    if recv - c.localNumber != 2 then Err(NumberDifference) else Ok(Counter(recv, true))
  }

  /** A send closes the gate and carries local_number + 1. */
  function Send(c: Counter): (next: (Counter, int))
    requires c.msgReceived
    ensures !next.0.msgReceived && next.0.localNumber == c.localNumber && next.1 == c.localNumber + 1
  {
    (Counter(c.localNumber, false), c.localNumber + 1)
  }

  // ---------------------------------------------------------------------------
  // Two ranks and the messages between them, under any order of enabled steps
  // ---------------------------------------------------------------------------

  /** A request on its way: destination rank and the number it carries. */
  datatype Packet = Packet(dest: nat, number: int)

  /** Both ranks' counters, the requests sent but not yet handled (in order), and how many
      sends each rank has made. */
  datatype World = World(rank0: Counter, rank1: Counter, inFlight: seq<Packet>, sent0: nat, sent1: nat) {
    function At(r: nat): Counter {
      if r == 0 then rank0 else rank1
    }
  }

  function Init(): World {
    World(Start(0), Start(1), [], 0, 0)
  }

  /** The gate of send_*: GASNET_BLOCKUNTIL(msg_received). */
  predicate CanSend(w: World, r: nat) {
    r < 2 && w.At(r).msgReceived
  }

  /** Rank r sends to its neighbour. */
  function SendFrom(w: World, r: nat): World
    requires CanSend(w, r)
  {
    var (c, number) := Send(w.At(r));
    var p := Packet(Neighbour(r), number);
    if r == 0 then w.(rank0 := c, inFlight := w.inFlight + [p], sent0 := w.sent0 + 1)
    else w.(rank1 := c, inFlight := w.inFlight + [p], sent1 := w.sent1 + 1)
  }

  /** The oldest request in flight reaches the handler of its destination. */
  function DeliverNext(w: World): Result<World, ProtocolError>
    requires w.inFlight != []
  {
    var p := w.inFlight[0];
    match Accept(w.At(p.dest), p.number)
    case Err(e) => Err(e)
    case Ok(c) =>
      if p.dest == 0 then Ok(w.(rank0 := c, inFlight := w.inFlight[1..]))
      else Ok(w.(rank1 := c, inFlight := w.inFlight[1..]))
  }

  /** The four phases of one round, with m the number of sends rank 1 has made:
      rank 0 holds the token; rank 0's request is in flight; rank 1 holds the token;
      rank 1's request is in flight. */
  ghost predicate Inv(w: World) {
    var m := w.sent1;
    || (w.sent0 == m && w.inFlight == [] && w.rank0 == Counter(2 * m, true) && w.rank1 == Counter(2 * m - 1, false))
    || (w.sent0 == m + 1 && w.inFlight == [Packet(1, 2 * m + 1)]
        && w.rank0 == Counter(2 * m, false) && w.rank1 == Counter(2 * m - 1, false))
    || (w.sent0 == m + 1 && w.inFlight == [] && w.rank0 == Counter(2 * m, false) && w.rank1 == Counter(2 * m + 1, true))
    || (m >= 1 && w.sent0 == m && w.inFlight == [Packet(0, 2 * m)]
        && w.rank0 == Counter(2 * m - 2, false) && w.rank1 == Counter(2 * m - 1, false))
  }

  lemma InitInv()
    ensures Inv(Init())
  {
  }

  /** Every enabled send keeps the invariant. */
  lemma SendKeepsInv(w: World, r: nat)
    requires Inv(w) && CanSend(w, r)
    ensures Inv(SendFrom(w, r))
  {
  }

  /** Under the gate the handler never throws, and handling the next request keeps the invariant. */
  lemma DeliverNeverFails(w: World)
    requires Inv(w) && w.inFlight != []
    ensures DeliverNext(w).Ok? && Inv(DeliverNext(w).value)
  {
  }

  /** The gate enforces strict alternation: at any time exactly one thing can happen — one rank
      may send, or one request is in flight — and rank 0 is never more than one send ahead. */
  lemma ExactlyOneEnabled(w: World)
    requires Inv(w)
    ensures |w.inFlight| <= 1
    ensures (if CanSend(w, 0) then 1 else 0) + (if CanSend(w, 1) then 1 else 0) + |w.inFlight| == 1
    ensures w.sent1 <= w.sent0 <= w.sent1 + 1
  {
  }

  /** When both ranks have sent n times and nothing is in flight, rank 0 holds 2n and rank 1 2n-1
      (the final GASNET_BLOCKUNTIL of every benchmark). */
  lemma FinalCounters(w: World, n: nat)
    requires Inv(w) && w.inFlight == [] && w.sent0 == n && w.sent1 == n
    ensures w.rank0.localNumber == 2 * n && w.rank1.localNumber == 2 * n - 1
    ensures w.rank0.msgReceived && !w.rank1.msgReceived
  {
  }

  /** The ranks in a round of the benchmark loops: rank 0 sends, rank 1 handles it, rank 1 sends, rank 0 handles it. */
  function Round(w: World): Result<World, ProtocolError>
    requires CanSend(w, 0)
  {
    var w1 := SendFrom(w, 0);
    match DeliverNext(w1)
    case Err(e) => Err(e)
    case Ok(w2) =>
      if !CanSend(w2, 1) then Ok(w2)
      else
        var w3 := SendFrom(w2, 1);
        DeliverNext(w3)
  }

  /** n rounds from the start. */
  function Rounds(n: nat): Result<World, ProtocolError> {
    if n == 0 then Ok(Init())
    else match Rounds(n - 1)
      case Err(e) => Err(e)
      case Ok(w) => if CanSend(w, 0) then Round(w) else Ok(w)
  }

  /** The schedule of the benchmark loops never fails, and after n rounds the counters are 2n and 2n-1. */
  lemma {:induction false} RoundsReachFinal(n: nat)
    ensures Rounds(n).Ok?
    ensures Inv(Rounds(n).value) && Rounds(n).value.inFlight == []
    ensures Rounds(n).value.sent0 == n && Rounds(n).value.sent1 == n
    ensures Rounds(n).value.rank0.localNumber == 2 * n && Rounds(n).value.rank1.localNumber == 2 * n - 1
  {
    if n == 0 {
      InitInv();
    } else {
      RoundsReachFinal(n - 1);
      var w := Rounds(n - 1).value;
      SendKeepsInv(w, 0);
      DeliverNeverFails(SendFrom(w, 0));
      var w2 := DeliverNext(SendFrom(w, 0)).value;
      SendKeepsInv(w2, 1);
      DeliverNeverFails(SendFrom(w2, 1));
      FinalCounters(DeliverNext(SendFrom(w2, 1)).value, n);
    }
  }

  // ---------------------------------------------------------------------------
  // The size check of benchmark_medium and benchmark_long
  // ---------------------------------------------------------------------------

  /** message_size is a C++ int; the limits gasnet_AMMaxMedium() and gasnet_AMMaxLongRequest()
      are size_t, so the comparison converts message_size to a 64-bit unsigned value. */
  const SizeTModulus: int := 0x1_0000_0000_0000_0000

  predicate IsInt32(x: int) {
    -0x8000_0000 <= x < 0x8000_0000
  }

  function AsSizeT(x: int): nat {
    x % SizeTModulus
  }

  /** The error a benchmark stops with. */
  datatype BenchError = SizeTooLarge | Protocol(ProtocolError)

  /** `if (message_size > limit) throw`: on success the size as an element count of the data buffer. */
  function CheckSize(messageSize: int, limit: nat): (r: Result<nat, BenchError>)
    requires IsInt32(messageSize) && limit < SizeTModulus - 0x8000_0000
  {
    if AsSizeT(messageSize) > limit then Err(SizeTooLarge) else Ok(AsSizeT(messageSize))
  }

  /** A size equal to the limit is accepted, a larger one is refused, and so is every negative
      size (it turns into a huge unsigned value). */
  lemma CheckSizeMeaning(messageSize: int, limit: nat)
    requires IsInt32(messageSize) && limit < SizeTModulus - 0x8000_0000
    ensures CheckSize(messageSize, limit).Ok? <==> 0 <= messageSize <= limit
    ensures CheckSize(messageSize, limit).Ok? ==> CheckSize(messageSize, limit).value == messageSize
  {
    if messageSize < 0 {
      assert AsSizeT(messageSize) == messageSize + SizeTModulus;
    }
  }
}
