/** The ghost-cell exchange of stencil/gasnet/stencil.c: packing boundary rows
    and columns of a tile into the outgoing slices of the communication buffers,
    the messages sent to the neighbours, the arrival handler that copies a
    message into the incoming slice of the opposite side and counts it, and the
    wait-then-unpack step that writes the incoming slices into the ghost border. */
module HaloExchange {
  import opened Outcomes
  import opened StencilGrid
  import IndexMath
  import opened Buffers

  /** Grid values (DTYPE); the model only moves them, it computes nothing with them. */
  type Value = real

  /** A tile with at least one point in each direction. */
  predicate Shaped(g: Geometry) {
    g.Width() >= 1 && g.Height() >= 1
  }

  lemma WellFormedIsShaped(g: Geometry)
    requires WellFormed(g)
    ensures Shaped(g) && HaloLen(g) >= 1
  {
    ShapedHasHalo(g);
  }

  lemma ShapedHasHalo(g: Geometry)
    requires Shaped(g)
    ensures HaloLen(g) >= 1
  {
    assert g.Width() + 2 * g.radius >= 1 && g.Height() + 2 * g.radius >= 1;
    IndexMath.FlatBelow(0, 0, g.Width() + 2 * g.radius, g.Height() + 2 * g.radius);
  }

  predicate InHalo(g: Geometry, i: int, j: int) {
    g.istart - g.radius <= i <= g.iend + g.radius && g.jstart - g.radius <= j <= g.jend + g.radius
  }

  /** Position of global cell (i, j) in the in-array: IN(i,j) = in[INDEXIN(i-istart, j-jstart)]. */
  function CellIndex(g: Geometry, i: int, j: int): int
    requires Shaped(g)
  {
    IndexIn(i - g.istart, j - g.jstart, g.Width(), g.radius)
  }

  lemma CellIndexInRange(g: Geometry, i: int, j: int)
    requires Shaped(g) && InHalo(g, i, j)
    ensures 0 <= CellIndex(g, i, j) < HaloLen(g)
  {
    IndexInBounds(i - g.istart, j - g.jstart, g.Width(), g.Height(), g.radius);
  }

  /** Global coordinates of in-array position x (the inverse of CellIndex). */
  function CellAt(g: Geometry, x: int): (int, int)
    requires Shaped(g)
  {
    var m := g.Width() + 2 * g.radius;
    (x % m - g.radius + g.istart, x / m - g.radius + g.jstart)
  }

  lemma CellAtIndex(g: Geometry, i: int, j: int)
    requires Shaped(g) && InHalo(g, i, j)
    ensures CellAt(g, CellIndex(g, i, j)) == (i, j)
  {
    IndexInDecode(i - g.istart, j - g.jstart, g.Width(), g.radius);
  }

  lemma IndexOfCellAt(g: Geometry, x: int)
    requires Shaped(g) && 0 <= x < HaloLen(g)
    ensures InHalo(g, CellAt(g, x).0, CellAt(g, x).1)
    ensures CellIndex(g, CellAt(g, x).0, CellAt(g, x).1) == x
  {
    IndexMath.Unflatten(x, g.Width() + 2 * g.radius, g.Height() + 2 * g.radius);
  }

  // ---------------------------------------------------------------------------
  // Row-major packing of a rectangle and unpacking into one
  // ---------------------------------------------------------------------------

  function Area(rect: Rect): nat
    requires 0 <= rect.Cols() && 0 <= rect.Rows()
  {
    rect.Cols() * rect.Rows()
  }

  /** Row-major position of cell (i, j) in a packed rectangle (the running index kk of the loops). */
  function Flat(rect: Rect, i: int, j: int): int {
    (j - rect.j0) * rect.Cols() + (i - rect.i0)
  }

  lemma FlatInRange(rect: Rect, i: int, j: int)
    requires rect.Contains(i, j)
    ensures 0 <= Flat(rect, i, j) < Area(rect)
  {
    IndexMath.FlatBelow(j - rect.j0, i - rect.i0, rect.Cols(), rect.Rows());
  }

  /** Element k of the packing of rect: the cell in row k / cols and column k % cols of the rectangle. */
  function PackAt(g: Geometry, s: seq<Value>, rect: Rect, k: int): Value
    requires Shaped(g) && |s| == HaloLen(g) && RectInHalo(g, rect)
    requires 0 <= k < Area(rect)
  {
    IndexMath.Unflatten(k, rect.Cols(), rect.Rows());
    var i, j := rect.i0 + k % rect.Cols(), rect.j0 + k / rect.Cols();
    CellIndexInRange(g, i, j);
    s[CellIndex(g, i, j)]
  }

  /** The cells of rect, row by row, as the packing loops lay them out in an outgoing buffer. */
  function Pack(g: Geometry, s: seq<Value>, rect: Rect): (p: seq<Value>)
    requires Shaped(g) && |s| == HaloLen(g) && RectInHalo(g, rect)
    ensures |p| == Area(rect)
  {
    seq(Area(rect), k requires 0 <= k < Area(rect) => PackAt(g, s, rect, k))
  }

  /** Position kk of a packing holds cell (i, j) when kk is the row-major position of (i, j). */
  lemma PackAtCell(g: Geometry, s: seq<Value>, rect: Rect, i: int, j: int)
    requires Shaped(g) && |s| == HaloLen(g) && RectInHalo(g, rect) && rect.Contains(i, j)
    ensures 0 <= Flat(rect, i, j) < Area(rect)
    ensures 0 <= CellIndex(g, i, j) < |s|
    ensures PackAt(g, s, rect, Flat(rect, i, j)) == s[CellIndex(g, i, j)]
  {
    FlatInRange(rect, i, j);
    IndexMath.DivModOf(j - rect.j0, i - rect.i0, rect.Cols());
    CellIndexInRange(g, i, j);
  }

  /** The in-array value at position x once the first `count` cells of rect (row-major) were written from b. */
  function UnpackedAt(g: Geometry, s: seq<Value>, rect: Rect, b: seq<Value>, count: int, x: int): Value
    requires Shaped(g) && 0 <= x < |s| && count <= |b|
  {
    var (i, j) := CellAt(g, x);
    if rect.Contains(i, j) && Flat(rect, i, j) < count then
      assert Flat(rect, i, j) >= 0 by { assert (j - rect.j0) * rect.Cols() >= 0; }
      b[Flat(rect, i, j)]
    else s[x]
  }

  /** The in-array after the unpacking loops wrote b, row by row, into the cells of rect. */
  function Unpack(g: Geometry, s: seq<Value>, rect: Rect, b: seq<Value>): (t: seq<Value>)
    requires Shaped(g) && RectInHalo(g, rect) && Area(rect) <= |b|
    ensures |t| == |s|
  {
    seq(|s|, x requires 0 <= x < |s| => UnpackedAt(g, s, rect, b, Area(rect), x))
  }

  /** Unpacking writes element Flat(i, j) of b into cell (i, j) of rect and leaves every
      other cell of the halo as it was. */
  lemma UnpackCell(g: Geometry, s: seq<Value>, rect: Rect, b: seq<Value>, i: int, j: int)
    requires Shaped(g) && |s| == HaloLen(g) && RectInHalo(g, rect) && Area(rect) <= |b|
    requires InHalo(g, i, j)
    ensures 0 <= CellIndex(g, i, j) < |s|
    ensures rect.Contains(i, j) ==> 0 <= Flat(rect, i, j) < |b|
    ensures Unpack(g, s, rect, b)[CellIndex(g, i, j)]
            == if rect.Contains(i, j) then b[Flat(rect, i, j)] else s[CellIndex(g, i, j)]
  {
    CellIndexInRange(g, i, j);
    CellAtIndex(g, i, j);
    if rect.Contains(i, j) {
      FlatInRange(rect, i, j);
    }
  }

  /** Round trip of one exchange: packing rect from a neighbour's in-array and unpacking it
      into the same global rectangle of this tile copies the neighbour's cells one for one. */
  lemma UnpackOfPack(g: Geometry, t: seq<Value>, h: Geometry, s: seq<Value>, rect: Rect, i: int, j: int)
    requires Shaped(g) && |t| == HaloLen(g) && RectInHalo(g, rect)
    requires Shaped(h) && |s| == HaloLen(h) && RectInHalo(h, rect)
    requires rect.Contains(i, j) && InHalo(g, i, j)
    ensures 0 <= CellIndex(g, i, j) < |t| && 0 <= CellIndex(h, i, j) < |s|
    ensures Unpack(g, t, rect, Pack(h, s, rect))[CellIndex(g, i, j)] == s[CellIndex(h, i, j)]
  {
    UnpackCell(g, t, rect, Pack(h, s, rect), i, j);
    PackAtCell(h, s, rect, i, j);
  }

  /** Ghost cells equal the neighbour's boundary cells: what the neighbour in direction d packs
      toward this tile (its SendRect toward Opposite(d)), unpacked into this tile's ghost
      rectangle of direction d, puts the neighbour's value of every global cell in its place. */
  lemma GhostCellsMatchNeighbor(g: Geometry, t: seq<Value>, h: Geometry, s: seq<Value>, d: Dir, i: int, j: int)
    requires WellFormed(g) && WellFormed(h) && SameGrid(g, h)
    requires HasNeighbor(g.id, g.px, g.py, d) && h.id == Neighbor(g.id, g.px, d)
    requires |t| == HaloLen(g) && |s| == HaloLen(h)
    requires GhostRect(g, d).Contains(i, j)
    ensures Shaped(g) && Shaped(h) && RectInHalo(g, GhostRect(g, d)) && RectInHalo(h, SendRect(h, Opposite(d)))
    ensures Area(GhostRect(g, d)) == |Pack(h, s, SendRect(h, Opposite(d)))|
    ensures 0 <= CellIndex(g, i, j) < |t| && 0 <= CellIndex(h, i, j) < |s|
    ensures Unpack(g, t, GhostRect(g, d), Pack(h, s, SendRect(h, Opposite(d))))[CellIndex(g, i, j)]
            == s[CellIndex(h, i, j)]
  {
    WellFormedIsShaped(g);
    WellFormedIsShaped(h);
    NeighborInGrid(g.id, g.px, g.py, d);
    SendRectIsNeighborGhost(h, g, Opposite(d));
    ExchangeRectsShape(g, d);
    ExchangeRectsShape(h, Opposite(d));
    UnpackOfPack(g, t, h, s, GhostRect(g, d), i, j);
  }

  // ---------------------------------------------------------------------------
  // The packing and unpacking loops
  // ---------------------------------------------------------------------------

  /** `for (kk=0, j=j0; j<=j1; j++) for (i=i0; i<=i1; i++) dst[off + kk++] = IN(i,j);` */
  method PackRect(g: Geometry, src: array<Value>, rect: Rect, dst: array<Value>, off: nat)
    requires Shaped(g) && src.Length == HaloLen(g) && RectInHalo(g, rect)
    requires off + Area(rect) <= dst.Length && src != dst
    modifies dst
    ensures dst[..] == Splice(old(dst[..]), off, Pack(g, src[..], rect))
  {
    var kk := 0;
    var j := rect.j0;
    while j <= rect.j1
      invariant rect.j0 <= j <= rect.j1 + 1
      invariant kk == Flat(rect, rect.i0, j)
      invariant 0 <= kk <= Area(rect)
      invariant forall k :: 0 <= k < kk ==> dst[off + k] == PackAt(g, src[..], rect, k)
      invariant forall x :: 0 <= x < dst.Length && !(off <= x < off + kk) ==> dst[x] == old(dst[x])
    {
      var i := rect.i0;
      while i <= rect.i1
        invariant rect.i0 <= i <= rect.i1 + 1
        invariant kk == Flat(rect, i, j)
        invariant 0 <= kk <= Area(rect)
        invariant forall k :: 0 <= k < kk ==> dst[off + k] == PackAt(g, src[..], rect, k)
        invariant forall x :: 0 <= x < dst.Length && !(off <= x < off + kk) ==> dst[x] == old(dst[x])
      {
        PackAtCell(g, src[..], rect, i, j);
        dst[off + kk] := src[CellIndex(g, i, j)];
        kk := kk + 1;
        i := i + 1;
      }
      RowStep(rect, j);
      j := j + 1;
    }
    RowStep(rect, rect.j1);
    ghost var p := Pack(g, src[..], rect);
    assert forall k :: 0 <= k < |p| ==> dst[..][off + k] == p[k];
    SplicePointwise(old(dst[..]), dst[..], off, p);
  }

  /** `for (kk=0, j=j0; j<=j1; j++) for (i=i0; i<=i1; i++) IN(i,j) = buf[off + kk++];` */
  method UnpackRect(g: Geometry, buf: array<Value>, off: nat, rect: Rect, dst: array<Value>)
    requires Shaped(g) && dst.Length == HaloLen(g) && RectInHalo(g, rect)
    requires off + Area(rect) <= buf.Length && buf != dst
    modifies dst
    ensures dst[..] == Unpack(g, old(dst[..]), rect, buf[off..off + Area(rect)])
  {
    ghost var s := dst[..];
    ghost var b := buf[off..off + Area(rect)];
    var kk := 0;
    var j := rect.j0;
    while j <= rect.j1
      invariant rect.j0 <= j <= rect.j1 + 1
      invariant kk == Flat(rect, rect.i0, j)
      invariant 0 <= kk <= Area(rect)
      invariant forall x :: 0 <= x < dst.Length ==> dst[x] == UnpackedAt(g, s, rect, b, kk, x)
    {
      var i := rect.i0;
      while i <= rect.i1
        invariant rect.i0 <= i <= rect.i1 + 1
        invariant kk == Flat(rect, i, j)
        invariant 0 <= kk <= Area(rect)
        invariant forall x :: 0 <= x < dst.Length ==> dst[x] == UnpackedAt(g, s, rect, b, kk, x)
      {
        FlatInRange(rect, i, j);
        UnpackStep(g, s, rect, b, i, j);
        dst[CellIndex(g, i, j)] := buf[off + kk];
        kk := kk + 1;
        i := i + 1;
      }
      RowStep(rect, j);
      j := j + 1;
    }
    RowStep(rect, rect.j1);
    assert dst[..] == Unpack(g, s, rect, b);
  }

  /** The row-major position one past the end of row j is the start of row j + 1;
      one past the last row it is the area of the rectangle. */
  lemma RowStep(rect: Rect, j: int)
    requires 0 <= rect.Cols() && 0 <= rect.Rows()
    ensures Flat(rect, rect.i1 + 1, j) == Flat(rect, rect.i0, j + 1)
    ensures Flat(rect, rect.i0, rect.j0) == 0
    ensures j == rect.j1 ==> Flat(rect, rect.i0, j + 1) == Area(rect)
  {
  }

  /** Writing cell (i, j), the cell at row-major position Flat(i, j), extends the unpacked prefix by one. */
  lemma UnpackStep(g: Geometry, s: seq<Value>, rect: Rect, b: seq<Value>, i: int, j: int)
    requires Shaped(g) && |s| == HaloLen(g) && RectInHalo(g, rect) && Area(rect) <= |b|
    requires rect.Contains(i, j)
    ensures 0 <= CellIndex(g, i, j) < |s| && 0 <= Flat(rect, i, j) < Area(rect)
    ensures UnpackedAt(g, s, rect, b, Flat(rect, i, j) + 1, CellIndex(g, i, j)) == b[Flat(rect, i, j)]
    ensures forall x :: 0 <= x < |s| && x != CellIndex(g, i, j) ==>
              UnpackedAt(g, s, rect, b, Flat(rect, i, j) + 1, x) == UnpackedAt(g, s, rect, b, Flat(rect, i, j), x)
  {
    CellIndexInRange(g, i, j);
    CellAtIndex(g, i, j);
    FlatInRange(rect, i, j);
    forall x | 0 <= x < |s| && x != CellIndex(g, i, j)
      ensures UnpackedAt(g, s, rect, b, Flat(rect, i, j) + 1, x) == UnpackedAt(g, s, rect, b, Flat(rect, i, j), x)
    {
      var (a, c) := CellAt(g, x);
      if rect.Contains(a, c) && Flat(rect, a, c) == Flat(rect, i, j) {
        FlatInjective(rect, a, c, i, j);
        IndexOfCellAt(g, x);
      }
    }
  }

  lemma FlatInjective(rect: Rect, i: int, j: int, i': int, j': int)
    requires rect.Contains(i, j) && rect.Contains(i', j') && Flat(rect, i, j) == Flat(rect, i', j')
    ensures i == i' && j == j'
  {
    IndexMath.DivModOf(j - rect.j0, i - rect.i0, rect.Cols());
    IndexMath.DivModOf(j' - rect.j0, i' - rect.i0, rect.Cols());
  }

  // ---------------------------------------------------------------------------
  // Messages of the exchange
  // ---------------------------------------------------------------------------

  /** The one fatal outcome of a send: "ERROR: message size to big". */
  datatype HaloError = MessageTooLarge

  /** What the transport is asked to carry: destination rank, direction tag, the contents of
      the outgoing slice, its size in bytes, the request kind, and for a long request the
      destination address (the neighbour's segment base). */
  datatype HaloMsg = HaloMsg(dest: nat, tag: Dir, payload: seq<Value>, nbytes: nat, tier: Tier, remoteAddr: Option<int>)

  /** Sizes and addresses the transport fixes at start-up: sizeof(DTYPE), the medium and long
      request limits, and the segment base address of every rank. */
  datatype Transport = Transport(elemSize: nat, maxMedium: nat, maxLong: nat, segAddr: seq<int>)

  /** Elements in one communication slice of direction d: R*width for top/bottom, R*height for right/left. */
  function SliceLen(g: Geometry, d: Dir): nat
    requires Shaped(g)
  {
    g.radius * EdgeLength(g, d)
  }

  /** The request a tile with in-array s issues toward d, or the fatal error. */
  function Outgoing(g: Geometry, s: seq<Value>, d: Dir, net: Transport): Result<HaloMsg, HaloError>
    requires WellFormed(g) && |s| == HaloLen(g) && |net.segAddr| == g.px * g.py
    requires HasNeighbor(g.id, g.px, g.py, d)
  {
    WellFormedIsShaped(g);
    ExchangeRectsShape(g, d);
    NeighborInGrid(g.id, g.px, g.py, d);
    var dest := Neighbor(g.id, g.px, d);
    var bytes := MessageBytes(g.radius, EdgeLength(g, d), net.elemSize);
    var payload := Pack(g, s, SendRect(g, d));
    match SelectTier(bytes, net.maxMedium, net.maxLong)
    case Medium => Ok(HaloMsg(dest, d, payload, bytes, Medium, None))
    case Long => Ok(HaloMsg(dest, d, payload, bytes, Long, Some(net.segAddr[dest])))
    case TooLarge => Err(MessageTooLarge)
  }

  /** A send fails exactly when the message reaches both limits; otherwise it goes to the rank one
      grid step away, carries the packed boundary (R*edge elements, of elemSize bytes each), uses a
      medium request below the medium limit and otherwise a long request aimed at the
      neighbour's segment. */
  lemma OutgoingMeaning(g: Geometry, s: seq<Value>, d: Dir, net: Transport)
    requires WellFormed(g) && |s| == HaloLen(g) && |net.segAddr| == g.px * g.py
    requires HasNeighbor(g.id, g.px, g.py, d)
    ensures Shaped(g) && RectInHalo(g, SendRect(g, d))
    ensures var bytes := g.radius * EdgeLength(g, d) * net.elemSize;
      && (Outgoing(g, s, d, net).Err? <==> net.maxMedium <= bytes && net.maxLong <= bytes)
      && (Outgoing(g, s, d, net).Ok? ==>
            var m := Outgoing(g, s, d, net).value;
            && m.dest < g.px * g.py && m.dest != g.id
            && m.dest % g.px == g.id % g.px + StepX(d) && m.dest / g.px == g.id / g.px + StepY(d)
            && m.tag == d
            && m.payload == Pack(g, s, SendRect(g, d))
            && |m.payload| == SliceLen(g, d)
            && m.nbytes == |m.payload| * net.elemSize
            && (m.tier == Medium <==> bytes < net.maxMedium)
            && (m.tier == Long <==> net.maxMedium <= bytes < net.maxLong)
            && (m.tier == Long ==> m.remoteAddr == Some(net.segAddr[m.dest]))
            && (m.tier == Medium ==> m.remoteAddr == None))
  {
    WellFormedIsShaped(g);
    ExchangeRectsShape(g, d);
    NeighborInGrid(g.id, g.px, g.py, d);
  }

  /** One guarded send block of the exchange: skipped without a neighbour in d, and
      nothing more is sent once a send has failed (the program has exited). */
  function SendStep(g: Geometry, s: seq<Value>, net: Transport, acc: Result<seq<HaloMsg>, HaloError>, d: Dir)
    : Result<seq<HaloMsg>, HaloError>
    requires WellFormed(g) && |s| == HaloLen(g) && |net.segAddr| == g.px * g.py
  {
    if acc.Err? || !HasNeighbor(g.id, g.px, g.py, d) then acc
    else match Outgoing(g, s, d, net)
      case Err(e) => Err(e)
      case Ok(m) => Ok(acc.value + [m])
  }

  /** The four send blocks of one iteration, in source order: top, bottom, right, left. */
  function ExchangeOutcome(g: Geometry, s: seq<Value>, net: Transport): Result<seq<HaloMsg>, HaloError>
    requires WellFormed(g) && |s| == HaloLen(g) && |net.segAddr| == g.px * g.py
  {
    SendStep(g, s, net, SendStep(g, s, net, SendStep(g, s, net, SendStep(g, s, net, Ok([]), Top), Bottom), Right), Left)
  }

  /** An exchange succeeds exactly when every send toward a neighbour succeeds, and then it
      sends one message per neighbour (num_neighbors of them), the k-th toward the k-th live direction. */
  lemma ExchangeSendsOnePerNeighbor(g: Geometry, s: seq<Value>, net: Transport)
    requires WellFormed(g) && |s| == HaloLen(g) && |net.segAddr| == g.px * g.py
    ensures forall d :: d in LiveDirections(g.id, g.px, g.py) ==> HasNeighbor(g.id, g.px, g.py, d)
    ensures var live := LiveDirections(g.id, g.px, g.py);
      && (ExchangeOutcome(g, s, net).Ok? <==> forall d :: d in live ==> Outgoing(g, s, d, net).Ok?)
      && (ExchangeOutcome(g, s, net).Ok? ==>
            var msgs := ExchangeOutcome(g, s, net).value;
            && |msgs| == |live| == NumNeighbors(g.id, g.px, g.py)
            && forall k :: 0 <= k < |msgs| ==> msgs[k] == Outgoing(g, s, live[k], net).value)
  {
    NumNeighborsIsLiveCount(g.id, g.px, g.py);
    var live := LiveDirections(g.id, g.px, g.py);
    var r1 := SendStep(g, s, net, Ok([]), Top);
    var r2 := SendStep(g, s, net, r1, Bottom);
    var r3 := SendStep(g, s, net, r2, Right);
    var r4 := SendStep(g, s, net, r3, Left);
    var l1 := if HasNeighbor(g.id, g.px, g.py, Top) then [Top] else [];
    var l2 := l1 + if HasNeighbor(g.id, g.px, g.py, Bottom) then [Bottom] else [];
    var l3 := l2 + if HasNeighbor(g.id, g.px, g.py, Right) then [Right] else [];
    assert live == l3 + if HasNeighbor(g.id, g.px, g.py, Left) then [Left] else [];
    SendStepExtends(g, s, net, Ok([]), [], Top);
    SendStepExtends(g, s, net, r1, l1, Bottom);
    SendStepExtends(g, s, net, r2, l2, Right);
    SendStepExtends(g, s, net, r3, l3, Left);
  }

  /** Invariant of the send blocks: the accumulated outcome is Ok exactly when all sends toward
      the directions handled so far succeeded, and then it holds their messages in order. */
  ghost predicate SentSoFar(g: Geometry, s: seq<Value>, net: Transport, acc: Result<seq<HaloMsg>, HaloError>, done: seq<Dir>)
    requires WellFormed(g) && |s| == HaloLen(g) && |net.segAddr| == g.px * g.py
  {
    && (forall d :: d in done ==> HasNeighbor(g.id, g.px, g.py, d))
    && (acc.Ok? <==> forall d :: d in done ==> Outgoing(g, s, d, net).Ok?)
    && (acc.Ok? ==>
          && |acc.value| == |done|
          && forall k :: 0 <= k < |done| ==> acc.value[k] == Outgoing(g, s, done[k], net).value)
  }

  lemma SendStepExtends(g: Geometry, s: seq<Value>, net: Transport, acc: Result<seq<HaloMsg>, HaloError>, done: seq<Dir>, d: Dir)
    requires WellFormed(g) && |s| == HaloLen(g) && |net.segAddr| == g.px * g.py
    requires SentSoFar(g, s, net, acc, done)
    ensures SentSoFar(g, s, net, SendStep(g, s, net, acc, d), done + if HasNeighbor(g.id, g.px, g.py, d) then [d] else [])
  {
    if HasNeighbor(g.id, g.px, g.py, d) {
      var done' := done + [d];
      assert forall e :: e in done' <==> e in done || e == d;
      if acc.Ok? && Outgoing(g, s, d, net).Ok? {
        var v := acc.value + [Outgoing(g, s, d, net).value];
        assert forall k :: 0 <= k < |done'| ==> v[k] == Outgoing(g, s, done'[k], net).value by {
          forall k | 0 <= k < |done'| ensures v[k] == Outgoing(g, s, done'[k], net).value {
            if k < |done| {
              assert v[k] == acc.value[k] && done'[k] == done[k];
            }
          }
        }
      }
    } else {
      assert done + [] == done;
    }
  }

  // ---------------------------------------------------------------------------
  // Unpacking all ghost borders after the wait
  // ---------------------------------------------------------------------------

  /** One guarded unpack block: the incoming slice of direction d written into the ghost rectangle of d. */
  function UnpackBlock(g: Geometry, s: seq<Value>, buf: seq<Value>, d: Dir): (t: seq<Value>)
    requires WellFormed(g) && |s| == HaloLen(g)
    requires HasNeighbor(g.id, g.px, g.py, d) ==> |buf| == 4 * SliceLen(g, d)
    ensures |t| == |s|
  {
    if HasNeighbor(g.id, g.px, g.py, d) then
      ExchangeRectsShape(g, d);
      var off := SlotOffset(GhostSlot(d), SliceLen(g, d));
      Unpack(g, s, GhostRect(g, d), buf[off..off + SliceLen(g, d)])
    else s
  }

  /** The four unpack blocks, in source order, reading the y slices from yb and the x slices from xb. */
  function UnpackGhosts(g: Geometry, s: seq<Value>, yb: seq<Value>, xb: seq<Value>): (t: seq<Value>)
    requires WellFormed(g) && |s| == HaloLen(g)
    requires g.px * g.py > 1 ==> |yb| == 4 * SliceLen(g, Top) && |xb| == 4 * SliceLen(g, Right)
    ensures |t| == |s|
  {
    HasNeighborSeveral(g);
    UnpackBlock(g, UnpackBlock(g, UnpackBlock(g, UnpackBlock(g, s, yb, Top), yb, Bottom), xb, Right), xb, Left)
  }

  lemma HasNeighborSeveral(g: Geometry)
    requires WellFormed(g)
    ensures forall d :: HasNeighbor(g.id, g.px, g.py, d) ==> g.px * g.py > 1
  {
    forall d | HasNeighbor(g.id, g.px, g.py, d) ensures g.px * g.py > 1 {
      NeighborMeansSeveralRanks(g.id, g.px, g.py, d);
    }
  }

  /** The slice of the incoming buffers that holds the ghosts of direction d. */
  function GhostSliceOf(g: Geometry, yb: seq<Value>, xb: seq<Value>, d: Dir): seq<Value>
    requires Shaped(g)
    requires |yb| == 4 * SliceLen(g, Top) && |xb| == 4 * SliceLen(g, Right)
  {
    var off := SlotOffset(GhostSlot(d), SliceLen(g, d));
    if d == Top || d == Bottom then yb[off..off + SliceLen(g, d)] else xb[off..off + SliceLen(g, d)]
  }

  /** After the unpack every cell of a live ghost rectangle holds its element of that direction's
      incoming slice, */
  lemma UnpackGhostsLive(g: Geometry, s: seq<Value>, yb: seq<Value>, xb: seq<Value>, d: Dir, i: int, j: int)
    requires WellFormed(g) && |s| == HaloLen(g)
    requires g.px * g.py > 1 ==> |yb| == 4 * SliceLen(g, Top) && |xb| == 4 * SliceLen(g, Right)
    requires HasNeighbor(g.id, g.px, g.py, d) && GhostRect(g, d).Contains(i, j)
    ensures Shaped(g) && InHalo(g, i, j) && 0 <= CellIndex(g, i, j) < |s|
    ensures |yb| == 4 * SliceLen(g, Top) && |xb| == 4 * SliceLen(g, Right)
    ensures 0 <= Flat(GhostRect(g, d), i, j) < |GhostSliceOf(g, yb, xb, d)|
    ensures UnpackGhosts(g, s, yb, xb)[CellIndex(g, i, j)] == GhostSliceOf(g, yb, xb, d)[Flat(GhostRect(g, d), i, j)]
  {
    match d
    case Top => UnpackGhostsLiveTop(g, s, yb, xb, i, j);
    case Bottom => UnpackGhostsLiveBottom(g, s, yb, xb, i, j);
    case Right => UnpackGhostsLiveRight(g, s, yb, xb, i, j);
    case Left => UnpackGhostsLiveLeft(g, s, yb, xb, i, j);
  }

  /** The live case for one direction D: the block of D writes the cell and the other three keep it. */
  lemma UnpackGhostsLiveTop(g: Geometry, s: seq<Value>, yb: seq<Value>, xb: seq<Value>, i: int, j: int)
    requires WellFormed(g) && |s| == HaloLen(g)
    requires g.px * g.py > 1 ==> |yb| == 4 * SliceLen(g, Top) && |xb| == 4 * SliceLen(g, Right)
    requires HasNeighbor(g.id, g.px, g.py, Top) && GhostRect(g, Top).Contains(i, j)
    ensures Shaped(g) && InHalo(g, i, j) && 0 <= CellIndex(g, i, j) < |s|
    ensures |yb| == 4 * SliceLen(g, Top) && |xb| == 4 * SliceLen(g, Right)
    ensures 0 <= Flat(GhostRect(g, Top), i, j) < |GhostSliceOf(g, yb, xb, Top)|
    ensures UnpackGhosts(g, s, yb, xb)[CellIndex(g, i, j)] == GhostSliceOf(g, yb, xb, Top)[Flat(GhostRect(g, Top), i, j)]
  {
    WellFormedIsShaped(g);
    ExchangeRectsShape(g, Top);
    HasNeighborSeveral(g);
    FlatInRange(GhostRect(g, Top), i, j);
    CellIndexInRange(g, i, j);
    var s1 := UnpackBlock(g, s, yb, Top);
    var s2 := UnpackBlock(g, s1, yb, Bottom);
    var s3 := UnpackBlock(g, s2, xb, Right);
    UnpackBlockCell(g, s, yb, Top, i, j);
    KeptByOtherBlocks(g, s1, yb, xb, Top, Bottom, i, j);
    KeptByOtherBlocks(g, s2, yb, xb, Top, Right, i, j);
    KeptByOtherBlocks(g, s3, yb, xb, Top, Left, i, j);
  }

  lemma UnpackGhostsLiveBottom(g: Geometry, s: seq<Value>, yb: seq<Value>, xb: seq<Value>, i: int, j: int)
    requires WellFormed(g) && |s| == HaloLen(g)
    requires g.px * g.py > 1 ==> |yb| == 4 * SliceLen(g, Top) && |xb| == 4 * SliceLen(g, Right)
    requires HasNeighbor(g.id, g.px, g.py, Bottom) && GhostRect(g, Bottom).Contains(i, j)
    ensures Shaped(g) && InHalo(g, i, j) && 0 <= CellIndex(g, i, j) < |s|
    ensures |yb| == 4 * SliceLen(g, Top) && |xb| == 4 * SliceLen(g, Right)
    ensures 0 <= Flat(GhostRect(g, Bottom), i, j) < |GhostSliceOf(g, yb, xb, Bottom)|
    ensures UnpackGhosts(g, s, yb, xb)[CellIndex(g, i, j)] == GhostSliceOf(g, yb, xb, Bottom)[Flat(GhostRect(g, Bottom), i, j)]
  {
    WellFormedIsShaped(g);
    ExchangeRectsShape(g, Bottom);
    HasNeighborSeveral(g);
    FlatInRange(GhostRect(g, Bottom), i, j);
    CellIndexInRange(g, i, j);
    var s1 := UnpackBlock(g, s, yb, Top);
    var s2 := UnpackBlock(g, s1, yb, Bottom);
    var s3 := UnpackBlock(g, s2, xb, Right);
    KeptByOtherBlocks(g, s, yb, xb, Bottom, Top, i, j);
    UnpackBlockCell(g, s1, yb, Bottom, i, j);
    KeptByOtherBlocks(g, s2, yb, xb, Bottom, Right, i, j);
    KeptByOtherBlocks(g, s3, yb, xb, Bottom, Left, i, j);
  }

  lemma UnpackGhostsLiveRight(g: Geometry, s: seq<Value>, yb: seq<Value>, xb: seq<Value>, i: int, j: int)
    requires WellFormed(g) && |s| == HaloLen(g)
    requires g.px * g.py > 1 ==> |yb| == 4 * SliceLen(g, Top) && |xb| == 4 * SliceLen(g, Right)
    requires HasNeighbor(g.id, g.px, g.py, Right) && GhostRect(g, Right).Contains(i, j)
    ensures Shaped(g) && InHalo(g, i, j) && 0 <= CellIndex(g, i, j) < |s|
    ensures |yb| == 4 * SliceLen(g, Top) && |xb| == 4 * SliceLen(g, Right)
    ensures 0 <= Flat(GhostRect(g, Right), i, j) < |GhostSliceOf(g, yb, xb, Right)|
    ensures UnpackGhosts(g, s, yb, xb)[CellIndex(g, i, j)] == GhostSliceOf(g, yb, xb, Right)[Flat(GhostRect(g, Right), i, j)]
  {
    WellFormedIsShaped(g);
    ExchangeRectsShape(g, Right);
    HasNeighborSeveral(g);
    FlatInRange(GhostRect(g, Right), i, j);
    CellIndexInRange(g, i, j);
    var s1 := UnpackBlock(g, s, yb, Top);
    var s2 := UnpackBlock(g, s1, yb, Bottom);
    var s3 := UnpackBlock(g, s2, xb, Right);
    KeptByOtherBlocks(g, s, yb, xb, Right, Top, i, j);
    KeptByOtherBlocks(g, s1, yb, xb, Right, Bottom, i, j);
    UnpackBlockCell(g, s2, xb, Right, i, j);
    KeptByOtherBlocks(g, s3, yb, xb, Right, Left, i, j);
  }

  lemma UnpackGhostsLiveLeft(g: Geometry, s: seq<Value>, yb: seq<Value>, xb: seq<Value>, i: int, j: int)
    requires WellFormed(g) && |s| == HaloLen(g)
    requires g.px * g.py > 1 ==> |yb| == 4 * SliceLen(g, Top) && |xb| == 4 * SliceLen(g, Right)
    requires HasNeighbor(g.id, g.px, g.py, Left) && GhostRect(g, Left).Contains(i, j)
    ensures Shaped(g) && InHalo(g, i, j) && 0 <= CellIndex(g, i, j) < |s|
    ensures |yb| == 4 * SliceLen(g, Top) && |xb| == 4 * SliceLen(g, Right)
    ensures 0 <= Flat(GhostRect(g, Left), i, j) < |GhostSliceOf(g, yb, xb, Left)|
    ensures UnpackGhosts(g, s, yb, xb)[CellIndex(g, i, j)] == GhostSliceOf(g, yb, xb, Left)[Flat(GhostRect(g, Left), i, j)]
  {
    WellFormedIsShaped(g);
    ExchangeRectsShape(g, Left);
    HasNeighborSeveral(g);
    FlatInRange(GhostRect(g, Left), i, j);
    CellIndexInRange(g, i, j);
    var s1 := UnpackBlock(g, s, yb, Top);
    var s2 := UnpackBlock(g, s1, yb, Bottom);
    var s3 := UnpackBlock(g, s2, xb, Right);
    KeptByOtherBlocks(g, s, yb, xb, Left, Top, i, j);
    KeptByOtherBlocks(g, s1, yb, xb, Left, Bottom, i, j);
    KeptByOtherBlocks(g, s2, yb, xb, Left, Right, i, j);
    UnpackBlockCell(g, s3, xb, Left, i, j);
  }

  /** A cell of the ghost rectangle of d is left alone by the unpack block of any other direction e. */
  lemma KeptByOtherBlocks(g: Geometry, s: seq<Value>, yb: seq<Value>, xb: seq<Value>, d: Dir, e: Dir, i: int, j: int)
    requires WellFormed(g) && |s| == HaloLen(g) && d != e
    requires g.px * g.py > 1 ==> |yb| == 4 * SliceLen(g, Top) && |xb| == 4 * SliceLen(g, Right)
    requires GhostRect(g, d).Contains(i, j)
    ensures Shaped(g) && InHalo(g, i, j) && 0 <= CellIndex(g, i, j) < |s|
    ensures HasNeighbor(g.id, g.px, g.py, e) ==> g.px * g.py > 1
    ensures UnpackBlock(g, s, if e == Top || e == Bottom then yb else xb, e)[CellIndex(g, i, j)] == s[CellIndex(g, i, j)]
  {
    ExchangeRectsShape(g, d);
    HasNeighborSeveral(g);
    GhostRectsDisjoint(g, d, e, i, j);
    UnpackBlockCell(g, s, if e == Top || e == Bottom then yb else xb, e, i, j);
  }

  /** and every other cell of the halo (the tile, ghosts without a neighbour, the corners) keeps its value. */
  lemma UnpackGhostsElsewhere(g: Geometry, s: seq<Value>, yb: seq<Value>, xb: seq<Value>, i: int, j: int)
    requires WellFormed(g) && |s| == HaloLen(g)
    requires g.px * g.py > 1 ==> |yb| == 4 * SliceLen(g, Top) && |xb| == 4 * SliceLen(g, Right)
    requires InHalo(g, i, j)
    requires forall d :: HasNeighbor(g.id, g.px, g.py, d) ==> !GhostRect(g, d).Contains(i, j)
    ensures Shaped(g) && 0 <= CellIndex(g, i, j) < |s|
    ensures UnpackGhosts(g, s, yb, xb)[CellIndex(g, i, j)] == s[CellIndex(g, i, j)]
  {
    WellFormedIsShaped(g);
    HasNeighborSeveral(g);
    var s1 := UnpackBlock(g, s, yb, Top);
    var s2 := UnpackBlock(g, s1, yb, Bottom);
    var s3 := UnpackBlock(g, s2, xb, Right);
    UnpackBlockCell(g, s, yb, Top, i, j);
    UnpackBlockCell(g, s1, yb, Bottom, i, j);
    UnpackBlockCell(g, s2, xb, Right, i, j);
    UnpackBlockCell(g, s3, xb, Left, i, j);
  }

  lemma UnpackBlockCell(g: Geometry, s: seq<Value>, buf: seq<Value>, d: Dir, i: int, j: int)
    requires WellFormed(g) && |s| == HaloLen(g)
    requires HasNeighbor(g.id, g.px, g.py, d) ==> |buf| == 4 * SliceLen(g, d)
    requires InHalo(g, i, j)
    ensures Shaped(g) && 0 <= CellIndex(g, i, j) < |s|
    ensures HasNeighbor(g.id, g.px, g.py, d) && GhostRect(g, d).Contains(i, j) ==>
              var off := SlotOffset(GhostSlot(d), SliceLen(g, d));
              && 0 <= Flat(GhostRect(g, d), i, j) < SliceLen(g, d)
              && UnpackBlock(g, s, buf, d)[CellIndex(g, i, j)] == buf[off + Flat(GhostRect(g, d), i, j)]
    ensures !(HasNeighbor(g.id, g.px, g.py, d) && GhostRect(g, d).Contains(i, j)) ==>
              UnpackBlock(g, s, buf, d)[CellIndex(g, i, j)] == s[CellIndex(g, i, j)]
  {
    WellFormedIsShaped(g);
    CellIndexInRange(g, i, j);
    if HasNeighbor(g.id, g.px, g.py, d) {
      ExchangeRectsShape(g, d);
      var off := SlotOffset(GhostSlot(d), SliceLen(g, d));
      UnpackCell(g, s, GhostRect(g, d), buf[off..off + SliceLen(g, d)], i, j);
    }
  }

  /** Ghost cells equal the neighbour's boundary cells, end to end: once the incoming slice of
      direction d holds the payload that the neighbour in d sent toward this tile (tag Opposite(d)),
      the unpack puts into every cell of the ghost rectangle of d the neighbour's value of that cell. */
  lemma HaloRoundTrip(g: Geometry, s: seq<Value>, yb: seq<Value>, xb: seq<Value>,
                      h: Geometry, t: seq<Value>, net: Transport, d: Dir, i: int, j: int)
    requires WellFormed(g) && |s| == HaloLen(g)
    requires g.px * g.py > 1 ==> |yb| == 4 * SliceLen(g, Top) && |xb| == 4 * SliceLen(g, Right)
    requires WellFormed(h) && SameGrid(g, h) && |t| == HaloLen(h) && |net.segAddr| == h.px * h.py
    requires HasNeighbor(g.id, g.px, g.py, d) && h.id == Neighbor(g.id, g.px, d)
    requires HasNeighbor(h.id, h.px, h.py, Opposite(d)) && Outgoing(h, t, Opposite(d), net).Ok?
    requires |yb| == 4 * SliceLen(g, Top) && |xb| == 4 * SliceLen(g, Right)
    requires GhostSliceOf(g, yb, xb, d) == Outgoing(h, t, Opposite(d), net).value.payload
    requires GhostRect(g, d).Contains(i, j)
    ensures Shaped(g) && Shaped(h) && 0 <= CellIndex(g, i, j) < |s| && 0 <= CellIndex(h, i, j) < |t|
    ensures UnpackGhosts(g, s, yb, xb)[CellIndex(g, i, j)] == t[CellIndex(h, i, j)]
  {
    UnpackGhostsLive(g, s, yb, xb, d, i, j);
    NeighborInGrid(g.id, g.px, g.py, d);
    SendRectIsNeighborGhost(h, g, Opposite(d));
    OutgoingMeaning(h, t, Opposite(d), net);
    PackAtCell(h, t, SendRect(h, Opposite(d)), i, j);
  }

  /** The whole exchange on values: once every live ghost slice holds what the neighbour in that
      direction sent, the unpacked tile agrees with each neighbour on every cell of the ghost
      rectangle of that direction. */
  lemma NeighborsFillGhosts(g: Geometry, s: seq<Value>, yb: seq<Value>, xb: seq<Value>, net: Transport,
                            incoming: map<Dir, seq<Value>>, hs: map<Dir, Geometry>, ts: map<Dir, seq<Value>>)
    requires WellFormed(g) && |s| == HaloLen(g)
    requires g.px * g.py > 1 ==> |yb| == 4 * SliceLen(g, Top) && |xb| == 4 * SliceLen(g, Right)
    requires LiveSlicesHold(g, yb, xb, incoming)
    requires forall d :: HasNeighbor(g.id, g.px, g.py, d) ==>
               d in incoming && d in hs && d in ts && NeighborSent(g, net, d, hs[d], ts[d], incoming[d])
    ensures GhostsFromNeighbors(g, UnpackGhosts(g, s, yb, xb), hs, ts)
  {
    var u := UnpackGhosts(g, s, yb, xb);
    forall d, i, j {:trigger GhostRect(g, d).Contains(i, j)} | HasNeighbor(g.id, g.px, g.py, d) && GhostRect(g, d).Contains(i, j)
      ensures && d in hs && d in ts && Shaped(hs[d])
              && 0 <= CellIndex(g, i, j) < |u| && 0 <= CellIndex(hs[d], i, j) < |ts[d]|
              && u[CellIndex(g, i, j)] == ts[d][CellIndex(hs[d], i, j)]
    {
      NeighborFillsCell(g, s, yb, xb, net, incoming, hs[d], ts[d], d, i, j);
    }
  }

  /** One cell of NeighborsFillGhosts. */
  lemma NeighborFillsCell(g: Geometry, s: seq<Value>, yb: seq<Value>, xb: seq<Value>, net: Transport,
                          incoming: map<Dir, seq<Value>>, h: Geometry, t: seq<Value>, d: Dir, i: int, j: int)
    requires WellFormed(g) && |s| == HaloLen(g)
    requires g.px * g.py > 1 ==> |yb| == 4 * SliceLen(g, Top) && |xb| == 4 * SliceLen(g, Right)
    requires HasNeighbor(g.id, g.px, g.py, d) && GhostRect(g, d).Contains(i, j)
    requires LiveSlicesHold(g, yb, xb, incoming) && d in incoming
    requires NeighborSent(g, net, d, h, t, incoming[d])
    ensures Shaped(h) && 0 <= CellIndex(g, i, j) < |s| && 0 <= CellIndex(h, i, j) < |t|
    ensures UnpackGhosts(g, s, yb, xb)[CellIndex(g, i, j)] == t[CellIndex(h, i, j)]
  {
    HaloRoundTrip(g, s, yb, xb, h, t, net, d, i, j);
  }

  /** transfer_request_handler on buffer values: the payload of a message tagged Opposite(d), of the
      slice length of d, lands in the incoming slice of d. That slice then holds the payload, and the
      ghost slice of every other direction is as it was. */
  lemma ReceiveSetsGhostSlice(g: Geometry, yb: seq<Value>, xb: seq<Value>, yb': seq<Value>, xb': seq<Value>, d: Dir, p: seq<Value>)
    requires Shaped(g) && |yb| == 4 * SliceLen(g, Top) && |xb| == 4 * SliceLen(g, Right) && |p| == SliceLen(g, d)
    requires ReceivedInto(g, yb, xb, yb', xb', d, p)
    ensures |yb'| == |yb| && |xb'| == |xb|
    ensures GhostSliceOf(g, yb', xb', d) == p
    ensures forall e :: e != d ==> GhostSliceOf(g, yb', xb', e) == GhostSliceOf(g, yb, xb, e)
  {
    if d == Top || d == Bottom {
      SpliceSlot(yb, yb', GhostSlot(d), GhostSlot(d), SliceLen(g, Top), p);
    } else {
      SpliceSlot(xb, xb', GhostSlot(d), GhostSlot(d), SliceLen(g, Right), p);
    }
    forall e | e != d ensures GhostSliceOf(g, yb', xb', e) == GhostSliceOf(g, yb, xb, e) {
      ReceiveKeepsGhostSlice(g, yb, xb, yb', xb', d, e, p);
    }
  }

  /** The buffers after the arrival handler has copied p into the incoming slice of d. */
  ghost predicate ReceivedInto(g: Geometry, yb: seq<Value>, xb: seq<Value>, yb': seq<Value>, xb': seq<Value>, d: Dir, p: seq<Value>)
    requires Shaped(g)
  {
    var off := SlotOffset(GhostSlot(d), SliceLen(g, d));
    if d == Top || d == Bottom then off + |p| <= |yb| && yb' == Splice(yb, off, p) && xb' == xb
    else off + |p| <= |xb| && xb' == Splice(xb, off, p) && yb' == yb
  }

  /** One other direction e of ReceiveSetsGhostSlice. */
  lemma ReceiveKeepsGhostSlice(g: Geometry, yb: seq<Value>, xb: seq<Value>, yb': seq<Value>, xb': seq<Value>, d: Dir, e: Dir, p: seq<Value>)
    requires Shaped(g) && |yb| == 4 * SliceLen(g, Top) && |xb| == 4 * SliceLen(g, Right) && |p| == SliceLen(g, d)
    requires ReceivedInto(g, yb, xb, yb', xb', d, p) && e != d
    ensures |yb'| == |yb| && |xb'| == |xb|
    ensures GhostSliceOf(g, yb', xb', e) == GhostSliceOf(g, yb, xb, e)
  {
    var ey, dy := e == Top || e == Bottom, d == Top || d == Bottom;
    if ey && dy {
      KeepsSameY(g, yb, xb, yb', xb', d, e, p);
    } else if !ey && !dy {
      KeepsSameX(g, yb, xb, yb', xb', d, e, p);
    } else {
      KeepsOtherSide(g, yb, xb, yb', xb', d, e, p);
    }
  }

  /** ReceiveKeepsGhostSlice for top and bottom, which share the y allocation in disjoint slots. */
  lemma KeepsSameY(g: Geometry, yb: seq<Value>, xb: seq<Value>, yb': seq<Value>, xb': seq<Value>, d: Dir, e: Dir, p: seq<Value>)
    requires Shaped(g) && |yb| == 4 * SliceLen(g, Top) && |xb| == 4 * SliceLen(g, Right) && |p| == SliceLen(g, d)
    requires ReceivedInto(g, yb, xb, yb', xb', d, p) && e != d
    requires (e == Top || e == Bottom) && (d == Top || d == Bottom)
    ensures |yb'| == |yb| && |xb'| == |xb|
    ensures GhostSliceOf(g, yb', xb', e) == GhostSliceOf(g, yb, xb, e)
  {
    SpliceSlot(yb, yb', GhostSlot(d), GhostSlot(e), SliceLen(g, Top), p);
  }

  /** ReceiveKeepsGhostSlice for right and left, which share the x allocation in disjoint slots. */
  lemma KeepsSameX(g: Geometry, yb: seq<Value>, xb: seq<Value>, yb': seq<Value>, xb': seq<Value>, d: Dir, e: Dir, p: seq<Value>)
    requires Shaped(g) && |yb| == 4 * SliceLen(g, Top) && |xb| == 4 * SliceLen(g, Right) && |p| == SliceLen(g, d)
    requires ReceivedInto(g, yb, xb, yb', xb', d, p) && e != d
    requires (e == Right || e == Left) && (d == Right || d == Left)
    ensures |yb'| == |yb| && |xb'| == |xb|
    ensures GhostSliceOf(g, yb', xb', e) == GhostSliceOf(g, yb, xb, e)
  {
    SpliceSlot(xb, xb', GhostSlot(d), GhostSlot(e), SliceLen(g, Right), p);
  }

  /** ReceiveKeepsGhostSlice when e lies in the other allocation, which the handler leaves alone. */
  lemma KeepsOtherSide(g: Geometry, yb: seq<Value>, xb: seq<Value>, yb': seq<Value>, xb': seq<Value>, d: Dir, e: Dir, p: seq<Value>)
    requires Shaped(g) && |yb| == 4 * SliceLen(g, Top) && |xb| == 4 * SliceLen(g, Right) && |p| == SliceLen(g, d)
    requires ReceivedInto(g, yb, xb, yb', xb', d, p) && e != d
    requires (e == Top || e == Bottom) != (d == Top || d == Bottom)
    ensures |yb'| == |yb| && |xb'| == |xb|
    ensures GhostSliceOf(g, yb', xb', e) == GhostSliceOf(g, yb, xb, e)
  {
  }

  /** A slice written into one slot of a 4-slot allocation: that slot then holds it, every other
      slot of the same allocation is as it was. */
  lemma SpliceSlot(b: seq<Value>, b': seq<Value>, s: Slot, t: Slot, len: nat, p: seq<Value>)
    requires |b| == 4 * len && |p| == len && b' == Splice(b, SlotOffset(s, len), p)
    ensures |b'| == |b|
    ensures s == t ==> b'[SlotOffset(t, len)..SlotOffset(t, len) + len] == p
    ensures s != t && s.InY() == t.InY() ==>
              b'[SlotOffset(t, len)..SlotOffset(t, len) + len] == b[SlotOffset(t, len)..SlotOffset(t, len) + len]
  {
    if s != t && s.InY() == t.InY() {
      SlotsDisjoint(s, t, len);
      var o := SlotOffset(t, len);
      assert forall x :: o <= x < o + len ==> b'[x] == b[x];
    }
  }

  /** The neighbour in d, with geometry h and in-array t, has sent this rank its message toward
      Opposite(d): a request that did not fail, whose payload is what arrived here for d. */
  ghost predicate NeighborSent(g: Geometry, net: Transport, d: Dir, h: Geometry, t: seq<Value>, payload: seq<Value>) {
    && WellFormed(h) && SameGrid(g, h) && |t| == HaloLen(h) && |net.segAddr| == h.px * h.py
    && h.id == Neighbor(g.id, g.px, d)
    && HasNeighbor(h.id, h.px, h.py, Opposite(d))
    && Outgoing(h, t, Opposite(d), net).Ok?
    && payload == Outgoing(h, t, Opposite(d), net).value.payload
  }

  /** What the neighbour in d sends has exactly the slice length of d on this side. */
  lemma NeighborSentFits(g: Geometry, net: Transport, d: Dir, h: Geometry, t: seq<Value>, payload: seq<Value>)
    requires WellFormed(g) && HasNeighbor(g.id, g.px, g.py, d)
    requires NeighborSent(g, net, d, h, t, payload)
    ensures Shaped(g) && |payload| == SliceLen(g, d)
  {
    WellFormedIsShaped(g);
    OutgoingMeaning(h, t, Opposite(d), net);
    NeighborInGrid(g.id, g.px, g.py, d);
    SendRectIsNeighborGhost(h, g, Opposite(d));
    OppositeTwice(d);
  }

  /** The slices delivered for order[..k] stay in place when the message of order[k] arrives. */
  lemma DeliveredStay(g: Geometry, yb: seq<Value>, xb: seq<Value>, yb': seq<Value>, xb': seq<Value>,
                      order: seq<Dir>, k: nat, incoming: map<Dir, seq<Value>>)
    requires Shaped(g) && k < |order| && order[k] in incoming
    requires |yb| == |yb'| == 4 * SliceLen(g, Top) && |xb| == |xb'| == 4 * SliceLen(g, Right)
    requires forall a :: 0 <= a < k ==> order[a] in incoming && GhostSliceOf(g, yb, xb, order[a]) == incoming[order[a]]
    requires GhostSliceOf(g, yb', xb', order[k]) == incoming[order[k]]
    requires forall e :: e != order[k] ==> GhostSliceOf(g, yb', xb', e) == GhostSliceOf(g, yb, xb, e)
    ensures forall a :: 0 <= a <= k ==> GhostSliceOf(g, yb', xb', order[a]) == incoming[order[a]]
  {
    forall a | 0 <= a <= k
      ensures GhostSliceOf(g, yb', xb', order[a]) == incoming[order[a]]
    {
      if a < k && order[a] != order[k] {
        assert GhostSliceOf(g, yb', xb', order[a]) == GhostSliceOf(g, yb, xb, order[a]);
      }
    }
  }

  /** The incoming slice of every live direction d holds incoming[d]. */
  ghost predicate LiveSlicesHold(g: Geometry, yb: seq<Value>, xb: seq<Value>, incoming: map<Dir, seq<Value>>)
    requires WellFormed(g)
  {
    forall d :: HasNeighbor(g.id, g.px, g.py, d) ==>
      && g.px * g.py > 1 && |yb| == 4 * SliceLen(g, Top) && |xb| == 4 * SliceLen(g, Right)
      && d in incoming && GhostSliceOf(g, yb, xb, d) == incoming[d]
  }

  /** Once every direction of the arrival order has its slice, every live direction has. */
  lemma EveryLiveSliceDelivered(g: Geometry, yb: seq<Value>, xb: seq<Value>, order: seq<Dir>, incoming: map<Dir, seq<Value>>)
    requires WellFormed(g) && g.px * g.py > 1 && |yb| == 4 * SliceLen(g, Top) && |xb| == 4 * SliceLen(g, Right)
    requires forall d :: d in order <==> HasNeighbor(g.id, g.px, g.py, d)
    requires forall a :: 0 <= a < |order| ==> order[a] in incoming && GhostSliceOf(g, yb, xb, order[a]) == incoming[order[a]]
    ensures LiveSlicesHold(g, yb, xb, incoming)
  {
    forall d | HasNeighbor(g.id, g.px, g.py, d)
      ensures d in incoming && GhostSliceOf(g, yb, xb, d) == incoming[d]
    {
      var a :| 0 <= a < |order| && order[a] == d;
    }
  }

  /** An arrival order of the live directions (a permutation of them) holds each live direction,
      all that it holds are live, and it is num_neighbors long. */
  lemma ArrivalOrder(order: seq<Dir>, id: nat, px: nat, py: nat)
    requires 0 < px && multiset(order) == multiset(LiveDirections(id, px, py))
    ensures forall d :: d in order <==> HasNeighbor(id, px, py, d)
    ensures |order| == NumNeighbors(id, px, py)
  {
    NumNeighborsIsLiveCount(id, px, py);
    assert |order| == |multiset(order)|;
    forall d ensures d in order <==> d in LiveDirections(id, px, py) {
      assert d in order <==> d in multiset(order);
      assert d in LiveDirections(id, px, py) <==> d in multiset(LiveDirections(id, px, py));
    }
  }

  /** Every ghost cell of a live direction d holds the value that the neighbour in d has in that cell. */
  ghost predicate GhostsFromNeighbors(g: Geometry, s: seq<Value>, hs: map<Dir, Geometry>, ts: map<Dir, seq<Value>>)
    requires WellFormed(g)
  {
    forall d, i, j {:trigger GhostRect(g, d).Contains(i, j)} :: HasNeighbor(g.id, g.px, g.py, d) && GhostRect(g, d).Contains(i, j) ==>
      && d in hs && d in ts && Shaped(hs[d])
      && 0 <= CellIndex(g, i, j) < |s| && 0 <= CellIndex(hs[d], i, j) < |ts[d]|
      && s[CellIndex(g, i, j)] == ts[d][CellIndex(hs[d], i, j)]
  }

  /** The only rank a neighbour's send in the opposite direction can come from: the receiver of a
      message tagged d is the neighbour in d, which has a neighbour in Opposite(d), namely the sender. */
  lemma SenderIsOppositeNeighbor(h: Geometry, d: Dir)
    requires WellFormed(h) && HasNeighbor(h.id, h.px, h.py, d)
    ensures var g := Neighbor(h.id, h.px, d);
      && 0 <= g < h.px * h.py
      && HasNeighbor(g, h.px, h.py, Opposite(d)) && Neighbor(g, h.px, Opposite(d)) == h.id
  {
    NeighborInGrid(h.id, h.px, h.py, d);
  }

  // ---------------------------------------------------------------------------
  // One rank of the stencil, with its arrays and the completion counter
  // ---------------------------------------------------------------------------

  /** One rank: its tile, the in-array `in` with ghost border, the y-direction buffer
      (top_buf_out, top_buf_in, bottom_buf_out, bottom_buf_in) and the x-direction buffer
      (right/left out/in), and num_recieved_buffers. */
  class Tile {
    const g: Geometry
    const net: Transport
    const numNeighbors: nat
    const inGrid: array<Value>
    const yBuf: array<Value>
    const xBuf: array<Value>
    var numReceived: nat

    /** The fixed shape of the rank; it mentions only fields that never change. */
    ghost predicate Valid() {
      && WellFormed(g)
      && |net.segAddr| == g.px * g.py
      && numNeighbors == NumNeighbors(g.id, g.px, g.py)
      && inGrid.Length == HaloLen(g)
      && (g.px * g.py > 1 ==> yBuf.Length == 4 * SliceLen(g, Top) && xBuf.Length == 4 * SliceLen(g, Right))
      && inGrid != yBuf && inGrid != xBuf && yBuf != xBuf
    }

    /** The allocation holding a slice: the y buffer for top/bottom slices, the x buffer otherwise. */
    function BufferOf(slot: Slot): array<Value> {
      if slot.InY() then yBuf else xBuf
    }

    /** Set-up after Decompose: the in-array from its initial contents, the buffers only when
        there are several ranks, the neighbour count, and no message received yet. */
    constructor (g0: Geometry, net0: Transport, init: seq<Value>)
      requires WellFormed(g0) && |net0.segAddr| == g0.px * g0.py && |init| == HaloLen(g0)
      ensures Valid() && fresh(inGrid) && fresh(yBuf) && fresh(xBuf)
      ensures g == g0 && net == net0 && inGrid[..] == init && numReceived == 0
      ensures g.px * g.py == 1 ==> yBuf.Length == 0 && xBuf.Length == 0
    {
      WellFormedIsShaped(g0);
      g := g0;
      net := net0;
      numNeighbors := NumNeighbors(g0.id, g0.px, g0.py);
      inGrid := new Value[|init|](k requires 0 <= k < |init| => init[k]);
      if g0.px * g0.py > 1 {
        yBuf := new Value[4 * SliceLen(g0, Top)];
        xBuf := new Value[4 * SliceLen(g0, Right)];
      } else {
        yBuf := new Value[0];
        xBuf := new Value[0];
      }
      numReceived := 0;
    }

    /** Toward a neighbour, both rectangles of d lie in the halo with one slice's worth of cells,
        and both allocations d uses hold four such slices. */
    lemma LiveSlices(d: Dir)
      requires Valid() && HasNeighbor(g.id, g.px, g.py, d)
      ensures Shaped(g) && g.px * g.py > 1
      ensures RectInHalo(g, SendRect(g, d)) && RectInHalo(g, GhostRect(g, d))
      ensures Area(SendRect(g, d)) == SliceLen(g, d) && Area(GhostRect(g, d)) == SliceLen(g, d)
      ensures BufferOf(OutSlot(d)).Length == 4 * SliceLen(g, d)
      ensures BufferOf(GhostSlot(d)).Length == 4 * SliceLen(g, d)
    {
      WellFormedIsShaped(g);
      ExchangeRectsShape(g, d);
      NeighborMeansSeveralRanks(g.id, g.px, g.py, d);
    }

    /** The packing loops of one send block: the boundary toward d goes into its outgoing slice,
        and that slice is what the request carries. */
    method PackToward(d: Dir) returns (payload: seq<Value>)
      requires Valid() && HasNeighbor(g.id, g.px, g.py, d)
      modifies BufferOf(OutSlot(d))
      ensures Shaped(g) && g.px * g.py > 1 && RectInHalo(g, SendRect(g, d))
      ensures Area(SendRect(g, d)) == SliceLen(g, d)
      ensures BufferOf(OutSlot(d)).Length == 4 * SliceLen(g, d)
      ensures BufferOf(OutSlot(d))[..]
              == Splice(old(BufferOf(OutSlot(d))[..]), SlotOffset(OutSlot(d), SliceLen(g, d)), Pack(g, inGrid[..], SendRect(g, d)))
      ensures payload == Pack(g, inGrid[..], SendRect(g, d))
    {
      LiveSlices(d);
      var buf := BufferOf(OutSlot(d));
      var len := SliceLen(g, d);
      var off := SlotOffset(OutSlot(d), len);
      PackRect(g, inGrid, SendRect(g, d), buf, off);
      payload := buf[off..off + len];
    }

    /** One send block: pack the boundary toward d into its outgoing slice, then pick the request
        kind by size, or fail when the message is too large. */
    method SendToward(d: Dir) returns (r: Result<HaloMsg, HaloError>)
      requires Valid() && HasNeighbor(g.id, g.px, g.py, d)
      modifies BufferOf(OutSlot(d))
      ensures Shaped(g) && g.px * g.py > 1 && RectInHalo(g, SendRect(g, d))
      ensures Area(SendRect(g, d)) == SliceLen(g, d)
      ensures BufferOf(OutSlot(d)).Length == 4 * SliceLen(g, d)
      ensures BufferOf(OutSlot(d))[..]
              == Splice(old(BufferOf(OutSlot(d))[..]), SlotOffset(OutSlot(d), SliceLen(g, d)), Pack(g, inGrid[..], SendRect(g, d)))
      ensures r == Outgoing(g, inGrid[..], d, net)
    {
      var payload := PackToward(d);
      NeighborInGrid(g.id, g.px, g.py, d);
      var msgSize := MessageBytes(g.radius, EdgeLength(g, d), net.elemSize);
      var dest := Neighbor(g.id, g.px, d);
      var tier := SelectTier(msgSize, net.maxMedium, net.maxLong);
      if tier == Medium {
        r := Ok(HaloMsg(dest, d, payload, msgSize, Medium, None));
      } else if tier == Long {
        r := Ok(HaloMsg(dest, d, payload, msgSize, Long, Some(net.segAddr[dest])));
      } else {
        r := Err(MessageTooLarge);
      }
    }

    /** One guarded send block: nothing without a neighbour in d, else the send toward d
        appended to the messages sent so far. */
    method SendIfLive(d: Dir, msgs: seq<HaloMsg>) returns (r: Result<seq<HaloMsg>, HaloError>)
      requires Valid()
      modifies BufferOf(OutSlot(d))
      ensures HasNeighbor(g.id, g.px, g.py, d) ==> BufferOf(OutSlot(d)).Length == 4 * SliceLen(g, d)
      ensures r == SendStep(g, inGrid[..], net, Ok(msgs), d)
      ensures r.Ok? ==> BufferOf(OutSlot(d))[..] == PackOut(g, inGrid[..], old(BufferOf(OutSlot(d))[..]), d)
    {
      if HasNeighbor(g.id, g.px, g.py, d) {
        var m := SendToward(d);
        if m.Err? {
          return Err(m.error);
        }
        r := Ok(msgs + [m.value]);
      } else {
        r := Ok(msgs);
      }
    }

    /** The four send blocks of one iteration, in source order. On success the outgoing slices
        of the live directions hold the packed boundaries and the incoming slices are untouched. */
    method Exchange() returns (r: Result<seq<HaloMsg>, HaloError>)
      requires Valid()
      modifies yBuf, xBuf
      ensures r == ExchangeOutcome(g, inGrid[..], net)
      ensures r.Ok? ==> yBuf[..] == PackOut(g, inGrid[..], PackOut(g, inGrid[..], old(yBuf[..]), Top), Bottom)
      ensures r.Ok? ==> xBuf[..] == PackOut(g, inGrid[..], PackOut(g, inGrid[..], old(xBuf[..]), Right), Left)
    {
      HasNeighborSeveral(g);
      WellFormedIsShaped(g);
      r := SendIfLive(Top, []);
      if r.Err? {
        return;
      }
      r := SendIfLive(Bottom, r.value);
      if r.Err? {
        return;
      }
      r := SendIfLive(Right, r.value);
      if r.Err? {
        return;
      }
      r := SendIfLive(Left, r.value);
    }

    /** transfer_request_handler: a message tagged d comes from the neighbour on the opposite
        side, so its payload goes into the incoming slice of that side, and the arrival is counted. */
    method Deliver(tag: Dir, payload: seq<Value>)
      requires Valid() && HasNeighbor(g.id, g.px, g.py, Opposite(tag))
      requires Shaped(g) && |payload| <= SliceLen(g, tag)
      modifies BufferOf(InSlotForTag(tag)), this
      ensures BufferOf(InSlotForTag(tag)).Length == 4 * SliceLen(g, tag)
      ensures BufferOf(InSlotForTag(tag))[..]
              == Splice(old(BufferOf(InSlotForTag(tag))[..]), SlotOffset(InSlotForTag(tag), SliceLen(g, tag)), payload)
      ensures numReceived == old(numReceived) + 1
    {
      NeighborMeansSeveralRanks(g.id, g.px, g.py, Opposite(tag));
      var buf := BufferOf(InSlotForTag(tag));
      CopyInto(buf, SlotOffset(InSlotForTag(tag), SliceLen(g, tag)), payload);
      numReceived := numReceived + 1;
    }

    /** The wait (GASNET_BLOCKUNTIL: every neighbour's message has arrived), the reset of the
        counter, and the four unpack blocks. */
    method CollectAndUnpack()
      requires Valid() && numReceived == numNeighbors
      modifies inGrid, this
      ensures numReceived == 0
      ensures inGrid[..] == UnpackGhosts(g, old(inGrid[..]), yBuf[..], xBuf[..])
    {
      numReceived := 0;
      UnpackIfLive(Top);
      UnpackIfLive(Bottom);
      UnpackIfLive(Right);
      UnpackIfLive(Left);
    }

    /** The arrival of the message of the neighbour in d (tag Opposite(d)): its payload becomes
        the ghost slice of d, the other ghost slices stay, and one more arrival is counted. */
    method ReceiveFrom(d: Dir, p: seq<Value>)
      requires Valid() && Shaped(g) && HasNeighbor(g.id, g.px, g.py, d) && |p| == SliceLen(g, d)
      modifies BufferOf(GhostSlot(d)), this
      ensures Valid() && numReceived == old(numReceived) + 1 && g.px * g.py > 1
      ensures GhostSliceOf(g, yBuf[..], xBuf[..], d) == p
      ensures forall e :: e != d ==>
                GhostSliceOf(g, yBuf[..], xBuf[..], e) == GhostSliceOf(g, old(yBuf[..]), old(xBuf[..]), e)
    {
      LiveSlices(d);
      OppositeTwice(d);
      ghost var yb, xb := yBuf[..], xBuf[..];
      Deliver(Opposite(d), p);
      ReceiveSetsGhostSlice(g, yb, xb, yBuf[..], xBuf[..], d, p);
    }
    /** The arrivals of one exchange: the neighbour in each live direction d sends one message,
        tagged Opposite(d), with the payload incoming[d]; they arrive in any order (order lists
        the live directions once each) and each is handled by transfer_request_handler. Then the
        arrival count equals num_neighbors, so the wait is met, and the incoming slice of every
        live direction holds what arrived for it. */
    method ReceiveAll(order: seq<Dir>, incoming: map<Dir, seq<Value>>)
      requires Valid() && Shaped(g) && numReceived == 0
      requires multiset(order) == multiset(LiveDirections(g.id, g.px, g.py))
      requires forall d :: HasNeighbor(g.id, g.px, g.py, d) ==> d in incoming && |incoming[d]| == SliceLen(g, d)
      modifies yBuf, xBuf, this
      ensures Valid() && numReceived == numNeighbors
      ensures LiveSlicesHold(g, yBuf[..], xBuf[..], incoming)
    {
      ArrivalOrder(order, g.id, g.px, g.py);
      if |order| > 0 {
        NeighborMeansSeveralRanks(g.id, g.px, g.py, order[0]);
        DeliverEach(order, incoming);
      }
    }

    /** The messages of the directions in order, handled one after another. */
    method DeliverEach(order: seq<Dir>, incoming: map<Dir, seq<Value>>)
      requires Valid() && Shaped(g) && g.px * g.py > 1
      requires forall d :: d in order <==> HasNeighbor(g.id, g.px, g.py, d)
      requires forall d :: HasNeighbor(g.id, g.px, g.py, d) ==> d in incoming && |incoming[d]| == SliceLen(g, d)
      modifies yBuf, xBuf, this
      ensures numReceived == old(numReceived) + |order|
      ensures LiveSlicesHold(g, yBuf[..], xBuf[..], incoming)
    {
      var k := 0;
      while k < |order|
        invariant 0 <= k <= |order|
        invariant numReceived == old(numReceived) + k
        invariant forall a :: 0 <= a < k ==> GhostSliceOf(g, yBuf[..], xBuf[..], order[a]) == incoming[order[a]]
      {
        ghost var yb, xb := yBuf[..], xBuf[..];
        ReceiveFrom(order[k], incoming[order[k]]);
        DeliveredStay(g, yb, xb, yBuf[..], xBuf[..], order, k, incoming);
        k := k + 1;
      }
      EveryLiveSliceDelivered(g, yBuf[..], xBuf[..], order, incoming);
    }

    /** The receiving half of one exchange with every live neighbour's message: the arrivals,
        the wait, the reset and the four unpack blocks. The counter ends at 0, the in-array is
        the result of the unpack blocks (so every cell outside the live ghost rectangles keeps
        its value), and every ghost cell of a live direction holds the neighbour's value there. */
    method ReceiveAndUnpack(order: seq<Dir>, incoming: map<Dir, seq<Value>>,
                            ghost hs: map<Dir, Geometry>, ghost ts: map<Dir, seq<Value>>)
      requires Valid() && Shaped(g) && numReceived == 0
      requires multiset(order) == multiset(LiveDirections(g.id, g.px, g.py))
      requires forall d :: HasNeighbor(g.id, g.px, g.py, d) ==>
                 d in incoming && d in hs && d in ts && NeighborSent(g, net, d, hs[d], ts[d], incoming[d])
      modifies yBuf, xBuf, inGrid, this
      ensures Valid() && numReceived == 0
      ensures inGrid[..] == UnpackGhosts(g, old(inGrid[..]), yBuf[..], xBuf[..])
      ensures GhostsFromNeighbors(g, inGrid[..], hs, ts)
    {
      forall d | HasNeighbor(g.id, g.px, g.py, d)
        ensures |incoming[d]| == SliceLen(g, d)
      {
        NeighborSentFits(g, net, d, hs[d], ts[d], incoming[d]);
      }
      ghost var s0 := inGrid[..];
      ReceiveAll(order, incoming);
      CollectAndUnpack();
      NeighborsFillGhosts(g, s0, yBuf[..], xBuf[..], net, incoming, hs, ts);
    }

    /** One guarded unpack block: the incoming slice of d written into the ghost rectangle of d. */
    method UnpackIfLive(d: Dir)
      requires Valid()
      modifies inGrid
      ensures HasNeighbor(g.id, g.px, g.py, d) ==> BufferOf(GhostSlot(d)).Length == 4 * SliceLen(g, d)
      ensures inGrid[..] == UnpackBlock(g, old(inGrid[..]), BufferOf(GhostSlot(d))[..], d)
    {
      WellFormedIsShaped(g);
      HasNeighborSeveral(g);
      if HasNeighbor(g.id, g.px, g.py, d) {
        LiveSlices(d);
        UnpackRect(g, BufferOf(GhostSlot(d)), SlotOffset(GhostSlot(d), SliceLen(g, d)), GhostRect(g, d), inGrid);
      }
    }
  }

  /** One guarded pack block on a buffer: the outgoing slice of d holds the packed boundary of d. */
  function PackOut(g: Geometry, s: seq<Value>, buf: seq<Value>, d: Dir): (b: seq<Value>)
    requires WellFormed(g) && |s| == HaloLen(g)
    requires HasNeighbor(g.id, g.px, g.py, d) ==> |buf| == 4 * SliceLen(g, d)
    ensures |b| == |buf|
  {
    if HasNeighbor(g.id, g.px, g.py, d) then
      WellFormedIsShaped(g);
      ExchangeRectsShape(g, d);
      Splice(buf, SlotOffset(OutSlot(d), SliceLen(g, d)), Pack(g, s, SendRect(g, d)))
    else buf
  }
}
