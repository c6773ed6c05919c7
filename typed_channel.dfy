/** The typed layer of my_mpi/my_mpi.hpp: send_data hands the bytes of a vector of elements
    to the channel, recv_data turns the bytes of the received envelope back into elements.
    An element is its object representation, `width` = sizeof(T) bytes. */
module TypedChannel {
  import opened Channel

  /** Elements of `width` bytes each. */
  predicate Elements(v: seq<seq<byte>>, width: nat) {
    forall k :: 0 <= k < |v| ==> |v[k]| == width
  }

  /** The bytes of a vector in memory: its elements one after another. */
  function ToBytes(v: seq<seq<byte>>): seq<byte> {
    if v == [] then [] else v[0] + ToBytes(v[1..])
  }

  /** The vector built from the range [ptr, ptr + bytes / width): whole elements only. */
  function FromBytes(b: seq<byte>, width: nat): seq<seq<byte>>
    requires width > 0
    decreases |b|
  {
    if |b| < width then [] else [b[..width]] + FromBytes(b[width..], width)
  }

  /** send_data sends exactly |v| * sizeof(T) bytes. */
  lemma {:induction false} ToBytesLength(v: seq<seq<byte>>, width: nat)
    requires Elements(v, width)
    ensures |ToBytes(v)| == |v| * width
  {
    if v != [] {
      ToBytesLength(v[1..], width);
    }
  }

  /** recv_data returns bytes / sizeof(T) elements, each of sizeof(T) bytes. */
  lemma {:induction false} FromBytesLength(b: seq<byte>, width: nat)
    requires width > 0
    ensures |FromBytes(b, width)| == |b| / width
    ensures Elements(FromBytes(b, width), width)
    decreases |b|
  {
    if |b| >= width {
      FromBytesLength(b[width..], width);
      DivStep(|b|, width);
    }
  }

  lemma DivStep(n: nat, w: nat)
    requires 0 < w <= n
    ensures (n - w) / w == n / w - 1
  {
    var q, r := (n - w) / w, (n - w) % w;
    assert n == (q + 1) * w + r;
    assert n / w == q + 1 by {
      var d := n / w - (q + 1);
      assert w * d == r - n % w;
      assert d >= 1 ==> w * (d - 1) >= 0;
      assert d <= -1 ==> w * (-1 - d) >= 0;
    }
  }

  /** The elements returned are the envelope's bytes in order: their bytes are a prefix of the
      envelope's, and what is left over is less than one element. */
  lemma {:induction false} FromBytesKeepsBytes(b: seq<byte>, width: nat)
    requires width > 0
    ensures var kept := ToBytes(FromBytes(b, width));
      |kept| <= |b| && kept == b[..|kept|] && |b| - |kept| < width
    decreases |b|
  {
    if |b| >= width {
      var rest := ToBytes(FromBytes(b[width..], width));
      FromBytesKeepsBytes(b[width..], width);
      assert ToBytes(FromBytes(b, width)) == b[..width] + rest;
      assert b[..width] + b[width..][..|rest|] == b[..width + |rest|];
    }
  }

  /** Round trip of the conversions: the bytes of a vector read back as elements give the vector. */
  lemma {:induction false} FromToBytes(v: seq<seq<byte>>, width: nat)
    requires width > 0 && Elements(v, width)
    ensures FromBytes(ToBytes(v), width) == v
  {
    if v != [] {
      FromToBytes(v[1..], width);
      assert (v[0] + ToBytes(v[1..]))[..width] == v[0];
      assert (v[0] + ToBytes(v[1..]))[width..] == ToBytes(v[1..]);
    }
  }

  /** send_data(dest, id, v): one request of the vector's bytes under id. */
  method SendData(ep: Endpoint, dest: int, id: int, v: seq<seq<byte>>, width: nat) returns (req: Request)
    requires Elements(v, width)
    modifies ep
    ensures req == Request(dest, RequestHandler, ToBytes(v), id)
    ensures |req.data| == |v| * width
    ensures ep.pending == old(ep.pending) + 1 && ep.inbox == old(ep.inbox)
  {
    ToBytesLength(v, width);
    req := ep.SendRequest(dest, id, ToBytes(v));
  }

  /** recv_data<T>(id): wait for the first envelope with id and read bytes / sizeof(T) elements from it. */
  method RecvData(ep: Endpoint, id: int, width: nat) returns (v: seq<seq<byte>>)
    requires width > 0
    requires exists k :: 0 <= k < |ep.inbox| && ep.inbox[k].id == id
    modifies ep
    ensures FirstMatch(old(ep.inbox), id).Some?
    ensures var k := FirstMatch(old(ep.inbox), id).value;
      && v == FromBytes(old(ep.inbox)[k].data, width)
      && ep.inbox == RemoveAt(old(ep.inbox), k)
    ensures ep.pending == old(ep.pending)
  {
    var data, size := ep.WaitForMessage(id);
    v := FromBytes(data[..size], width);
    assert data[..size] == data;
  }

  /** send_data on one rank, delivery of the request to the other (the request handler there and
      the reply handler back home), then recv_data on the receiver with no other traffic on that id:
      the receiver gets the vector that was sent, the sender's pending count is back where it was,
      and the receiver's inbox is as before. The receiver is the endpoint of rank dest: the request
      addressed to dest is the one handed to it. Sender and receiver may be one endpoint, as in a
      run on a single rank, where the left and right neighbour are the rank itself. */
  method TransferRoundTrip(sender: Endpoint, receiver: Endpoint, dest: int, id: int, v: seq<seq<byte>>, width: nat)
    returns (req: Request, got: seq<seq<byte>>)
    requires width > 0 && Elements(v, width)
    requires forall k :: 0 <= k < |receiver.inbox| ==> receiver.inbox[k].id != id
    modifies sender, receiver
    ensures req == Request(dest, RequestHandler, ToBytes(v), id)
    ensures got == v
    ensures sender.pending == old(sender.pending) && sender.inbox == old(sender.inbox)
    ensures receiver.inbox == old(receiver.inbox) && receiver.pending == old(receiver.pending)
  {
    ghost var q := receiver.inbox;
    req := SendData(sender, dest, id, v, width);
    assert req.data[..|req.data|] == req.data;
    var replies := receiver.ReceiveRequest(req.id, req.data, |req.data|);
    sender.ReceiveReply();
    ghost var e := Envelope(id, ToBytes(v));
    assert receiver.inbox == q + [e];
    FirstMatchUnique(q + [e], id, |q|);
    assert RemoveAt(q + [e], |q|) == q;
    got := RecvData(receiver, id, width);
    FromToBytes(v, width);
  }
}
