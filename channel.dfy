/** The tagged point-to-point channel of my_mpi/my_mpi.cpp: every arriving request is
    appended to an inbox of envelopes (id, bytes) and acknowledged with one reply, a
    receive takes out the first envelope with the wanted id, and a counter of requests
    not yet acknowledged must be back to zero before shutdown. */
module Channel {
  import opened Outcomes

  type byte = bv8

  /** message_t: the id and a private copy of the bytes. */
  datatype Envelope = Envelope(id: int, data: seq<byte>)

  /** Handler indices registered at start-up. */
  const RequestHandler: nat := 200
  const ReplyHandler: nat := 201

  /** A medium request as handed to the transport: gasnet_AMRequestMedium1(dest, 200, data, size, id). */
  datatype Request = Request(dest: int, handler: nat, data: seq<byte>, id: int)

  /** Position of the first envelope with the given id (what std::find_if finds), if any. */
  function FirstMatch(q: seq<Envelope>, id: int): (r: Option<nat>)
    ensures r.None? <==> forall k :: 0 <= k < |q| ==> q[k].id != id
    ensures r.Some? ==> r.value < |q| && q[r.value].id == id
    ensures r.Some? ==> forall k :: 0 <= k < r.value ==> q[k].id != id
  {
    if q == [] then None
    else if q[0].id == id then Some(0)
    else match FirstMatch(q[1..], id)
      case None => None
      case Some(k) => Some(k + 1)
  }

  /** The first match is the only position that has the id and no earlier match. */
  lemma FirstMatchUnique(q: seq<Envelope>, id: int, i: nat)
    requires i < |q| && q[i].id == id
    requires forall k :: 0 <= k < i ==> q[k].id != id
    ensures FirstMatch(q, id) == Some(i)
  {
  }

  /** q without its k-th envelope, the others in the same relative order (vector::erase). */
  function RemoveAt(q: seq<Envelope>, k: nat): (r: seq<Envelope>)
    requires k < |q|
    ensures |r| == |q| - 1
    ensures forall x :: 0 <= x < k ==> r[x] == q[x]
    ensures forall x :: k <= x < |r| ==> r[x] == q[x + 1]
  {
    q[..k] + q[k + 1..]
  }

  /** The data of the envelopes with the given id, in inbox order: the stream of that tag. */
  function Stream(q: seq<Envelope>, id: int): seq<seq<byte>> {
    if q == [] then []
    else (if q[0].id == id then [q[0].data] else []) + Stream(q[1..], id)
  }

  lemma {:induction false} StreamAppend(q: seq<Envelope>, e: Envelope, id: int)
    ensures Stream(q + [e], id) == Stream(q, id) + (if e.id == id then [e.data] else [])
  {
    if q == [] {
      assert [] + [e] == [e];
    } else {
      assert (q + [e])[1..] == q[1..] + [e];
      StreamAppend(q[1..], e, id);
    }
  }

  /** Removing the first match of id takes the head off the stream of id; the received data is that head. */
  lemma {:induction false} StreamRemoveFirst(q: seq<Envelope>, id: int)
    requires FirstMatch(q, id).Some?
    ensures var k := FirstMatch(q, id).value;
      && Stream(q, id) != [] && Stream(q, id)[0] == q[k].data
      && Stream(RemoveAt(q, k), id) == Stream(q, id)[1..]
  {
    var k := FirstMatch(q, id).value;
    if q[0].id == id {
      assert k == 0;
      assert RemoveAt(q, 0) == q[1..];
      assert Stream(q, id) == [q[0].data] + Stream(q[1..], id);
    } else {
      var r := RemoveAt(q, k);
      assert k >= 1 && FirstMatch(q[1..], id) == Some(k - 1);
      StreamRemoveFirst(q[1..], id);
      assert r[0] == q[0] && r[1..] == RemoveAt(q[1..], k - 1);
      assert Stream(q, id) == Stream(q[1..], id);
      assert Stream(r, id) == Stream(r[1..], id);
    }
  }

  /** Removing an envelope with another id leaves the stream of id as it was. */
  lemma {:induction false} StreamRemoveOther(q: seq<Envelope>, k: nat, id: int)
    requires k < |q| && q[k].id != id
    ensures Stream(RemoveAt(q, k), id) == Stream(q, id)
  {
    if k == 0 {
      assert RemoveAt(q, 0) == q[1..];
    } else {
      StreamRemoveOther(q[1..], k - 1, id);
      assert RemoveAt(q, k)[1..] == RemoveAt(q[1..], k - 1);
      assert RemoveAt(q, k)[0] == q[0];
    }
  }

  /** The program state of one rank: g_recv_messages and g_pending_messages. */
  class Endpoint {
    var inbox: seq<Envelope>
    var pending: int

    constructor ()
      ensures inbox == [] && pending == 0
    {
      inbox := [];
      pending := 0;
    }

    /** send_gasnet_request: issue the request, then count it as pending. */
    method SendRequest(dest: int, id: int, data: seq<byte>) returns (req: Request)
      modifies this
      ensures req == Request(dest, RequestHandler, data, id)
      ensures pending == old(pending) + 1
      ensures inbox == old(inbox)
    {
      req := Request(dest, RequestHandler, data, id);
      pending := pending + 1;
    }

    /** req_message_transfer: append an envelope holding a copy of exactly `size` bytes of the
        incoming buffer, and answer with exactly one reply. */
    method ReceiveRequest(id: int, buf: seq<byte>, size: nat) returns (replies: seq<nat>)
      requires size <= |buf|
      modifies this
      ensures inbox == old(inbox) + [Envelope(id, buf[..size])]
      ensures replies == [ReplyHandler]
      ensures pending == old(pending)
    {
      inbox := inbox + [Envelope(id, buf[..size])];
      replies := [ReplyHandler];
    }

    /** rep_message_transfer: one pending request less. */
    method ReceiveReply()
      modifies this
      ensures pending == old(pending) - 1
      ensures inbox == old(inbox)
    {
      pending := pending - 1;
    }

    /** wait_for_message_arrival: the search loop runs until an envelope with the id is present
        (here a precondition), then hands out the data and size of the first one and erases it. */
    method WaitForMessage(id: int) returns (data: seq<byte>, size: nat)
      requires exists k :: 0 <= k < |inbox| && inbox[k].id == id
      modifies this
      ensures FirstMatch(old(inbox), id).Some?
      ensures var k := FirstMatch(old(inbox), id).value;
        && data == old(inbox)[k].data && size == |data|
        && inbox == RemoveAt(old(inbox), k)
      ensures pending == old(pending)
    {
      var i := 0;
      while inbox[i].id != id
        invariant 0 <= i < |inbox|
        invariant forall k :: 0 <= k < i ==> inbox[k].id != id
        invariant exists k :: i <= k < |inbox| && inbox[k].id == id
        decreases |inbox| - i
      {
        i := i + 1;
      }
      FirstMatchUnique(inbox, id, i);
      data, size := inbox[i].data, |inbox[i].data|;
      inbox := RemoveAt(inbox, i);
    }

    /** The destructor: wait until every request is acknowledged (a precondition here), then the
        barrier and gasnet_exit(0). */
    method Shutdown() returns (exitCode: int)
      requires pending == 0
      ensures exitCode == 0
    {
      exitCode := 0;
    }
  }

  /** FIFO per tag: receiving id takes the oldest envelope of that id and leaves the streams of
      all ids, including the rest of id's own, as they were. */
  lemma ReceiveIsFifoPerTag(q: seq<Envelope>, id: int, other: int)
    requires FirstMatch(q, id).Some? && other != id
    ensures var k := FirstMatch(q, id).value;
      && Stream(q, id) != [] && q[k].data == Stream(q, id)[0]
      && Stream(RemoveAt(q, k), id) == Stream(q, id)[1..]
      && Stream(RemoveAt(q, k), other) == Stream(q, other)
  {
    StreamRemoveFirst(q, id);
    StreamRemoveOther(q, FirstMatch(q, id).value, other);
  }

  /** Arrival appends to the end of the stream of its own id only. */
  lemma ArrivalAppendsToOwnStream(q: seq<Envelope>, e: Envelope, other: int)
    requires other != e.id
    ensures Stream(q + [e], e.id) == Stream(q, e.id) + [e.data]
    ensures Stream(q + [e], other) == Stream(q, other)
  {
    StreamAppend(q, e, e.id);
    StreamAppend(q, e, other);
  }
}
