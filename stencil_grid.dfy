/** The integer side of the 2D stencil of stencil/gasnet/stencil.c: parameter
    checks, the block decomposition of the n-by-n grid over a Px-by-Py grid of
    ranks, rank coordinates and neighbours, the choice between a medium and a
    long active message, the `INDEXIN` layout of a tile with its ghost border,
    the four slices of each communication buffer, and the index bounds of the
    stencil-apply loop. */
module StencilGrid {
  import opened Outcomes
  import IndexMath

  // ---------------------------------------------------------------------------
  // Parameter checks (errorCheckParameters)
  // ---------------------------------------------------------------------------

  /** The fatal parameter errors, in the order they are tested. */
  datatype ParamError =
    | Usage               // argc != 3
    | TooFewIterations    // iterations < 1
    | GridSmallerThanRanks // n*n < number of ranks
    | NegativeRadius      // radius < 0
    | RadiusExceedsGrid   // 2*radius+1 > n

  /** The first failing check of errorCheckParameters, or None when the run may proceed
      (built with the star stencil, so the `!STAR` exit is not taken). */
  function CheckParameters(argc: int, iterations: int, nsquare: int, numProcs: int, radius: int, n: int)
    : (r: Option<ParamError>)
    ensures r == None <==>
      argc == 3 && iterations >= 1 && nsquare >= numProcs && radius >= 0 && 2 * radius + 1 <= n
    ensures r == Some(Usage) <==> argc != 3
    ensures r == Some(TooFewIterations) <==> argc == 3 && iterations < 1
    ensures r == Some(GridSmallerThanRanks) <==> argc == 3 && iterations >= 1 && nsquare < numProcs
    ensures r == Some(NegativeRadius) <==>
      argc == 3 && iterations >= 1 && nsquare >= numProcs && radius < 0
    ensures r == Some(RadiusExceedsGrid) <==>
      argc == 3 && iterations >= 1 && nsquare >= numProcs && radius >= 0 && 2 * radius + 1 > n
  {
    if argc != 3 then Some(Usage)
    else if iterations < 1 then Some(TooFewIterations)
    else if nsquare < numProcs then Some(GridSmallerThanRanks)
    else if radius < 0 then Some(NegativeRadius)
    else if 2 * radius + 1 > n then Some(RadiusExceedsGrid)
    else None
  }

  /** Accepted parameters give a grid with at least one point per rank and room for the stencil. */
  lemma AcceptedParameters(argc: int, iterations: int, numProcs: int, radius: int, n: int)
    requires numProcs >= 1
    requires CheckParameters(argc, iterations, n * n, numProcs, radius, n) == None
    ensures n >= 1 && radius >= 0 && n >= 2 * radius + 1 && n * n >= numProcs
  {
  }

  // ---------------------------------------------------------------------------
  // Block decomposition of one axis
  // ---------------------------------------------------------------------------

  /** The inclusive index range [start, end] of a tile along one axis; it is empty when end == start - 1. */
  datatype Span = Span(start: int, end: int) {
    function Size(): int { end - start + 1 }
  }

  /** The number of points the tile of coordinate k gets: one extra point for the
      first n % p coordinates. */
  function TileSize(n: nat, p: nat, k: nat): nat
    requires 0 < p
  {
    if k < n % p then n / p + 1 else n / p
  }

  /** Reference definition: the number of points in the tiles of coordinates 0..k-1. */
  function PointsBefore(n: nat, p: nat, k: nat): nat
    requires 0 < p
  {
    if k == 0 then 0 else PointsBefore(n, p, k - 1) + TileSize(n, p, k - 1)
  }

  /** Tile bounds of process coordinate k out of p along an axis of n points, as
      computed with width = n/p and leftover = n%p. */
  function TileBounds(n: nat, p: nat, k: nat): (s: Span)
    requires 0 < p && k < p
    ensures s.Size() == TileSize(n, p, k)
    ensures 0 <= s.start
  {
    var width := n / p;
    var leftover := n % p;
    if k < leftover then
      var start := (width + 1) * k;
      Span(start, start + width)
    else
      var start := (width + 1) * leftover + width * (k - leftover);
      Span(start, start + width - 1)
  }

  /** A tile starts right after the points of all tiles before it. */
  lemma {:induction false} TileStartIsPrefix(n: nat, p: nat, k: nat)
    requires 0 < p && k < p
    ensures TileBounds(n, p, k).start == PointsBefore(n, p, k)
  {
    if k > 0 {
      TileStartIsPrefix(n, p, k - 1);
      StartStep(n / p, n % p, k);
    }
  }

  /** The start formula of TileBounds, for width w and leftover l, grows by one tile size per step. */
  lemma StartStep(w: int, l: int, k: int)
    requires 0 < k
    ensures (if k < l then (w + 1) * k else (w + 1) * l + w * (k - l))
         == (if k - 1 < l then (w + 1) * (k - 1) else (w + 1) * l + w * (k - 1 - l))
            + (if k - 1 < l then w + 1 else w)
  {
    if k < l {
      assert (w + 1) * k == (w + 1) * (k - 1) + (w + 1);
    } else if k - 1 < l {
      assert k == l;
    } else {
      assert w * (k - l) == w * (k - 1 - l) + w;
    }
  }

  /** Consecutive tiles are contiguous and disjoint: the next one starts right after this one ends. */
  lemma TilesContiguous(n: nat, p: nat, k: nat)
    requires 0 < p && k + 1 < p
    ensures TileBounds(n, p, k + 1).start == TileBounds(n, p, k).end + 1
  {
    TileStartIsPrefix(n, p, k);
    TileStartIsPrefix(n, p, k + 1);
  }

  /** The first tile starts at 0 and the last one ends at n - 1: together the tiles cover the axis. */
  lemma TilesCoverAxis(n: nat, p: nat)
    requires 0 < p
    ensures TileBounds(n, p, 0).start == 0
    ensures TileBounds(n, p, p - 1).end == n - 1
  {
    var width := n / p;
    var leftover := n % p;
    assert n == width * p + leftover;
    assert (width + 1) * leftover + width * (p - 1 - leftover) + width == width * p + leftover;
  }

  // ---------------------------------------------------------------------------
  // Tile geometry of one rank, with its fatal errors
  // ---------------------------------------------------------------------------

  /** Fatal errors of the decomposition of one rank's tile. */
  datatype SetupError = NoWork | TileSmallerThanRadius

  /** The tile of rank `id` in a px-by-py rank grid over an n-by-n grid, with a ghost border of width `radius`. */
  datatype Geometry = Geometry(n: nat, px: nat, py: nat, id: nat, radius: nat,
                               istart: int, iend: int, jstart: int, jend: int)
  {
    function Width(): int { iend - istart + 1 }
    function Height(): int { jend - jstart + 1 }
  }

  /** A geometry as stencil.c leaves it once all setup checks passed. */
  ghost predicate WellFormed(g: Geometry) {
    && 0 < g.px && 0 < g.py
    && g.istart == PointsBefore(g.n, g.px, g.id % g.px) && g.Width() == TileSize(g.n, g.px, g.id % g.px)
    && g.jstart == PointsBefore(g.n, g.py, g.id / g.px) && g.Height() == TileSize(g.n, g.py, g.id / g.px)
    && g.id < g.px * g.py && g.id / g.px < g.py
    && g.Width() >= 1 && g.Height() >= 1
    && g.Width() >= g.radius && g.Height() >= g.radius
  }

  /** The tile bounds of rank `id`, or the fatal error stencil.c exits with:
      an empty tile in x, then an empty tile in y, then a tile narrower than the radius. */
  function Decompose(n: nat, px: nat, py: nat, id: nat, radius: nat): (r: Result<Geometry, SetupError>)
    requires 0 < px && 0 < py && id < px * py
    ensures r == Err(NoWork) <==> TileSize(n, px, id % px) == 0 || TileSize(n, py, id / px) == 0
    ensures r == Err(TileSmallerThanRadius) <==>
      && TileSize(n, px, id % px) != 0 && TileSize(n, py, id / px) != 0
      && (TileSize(n, px, id % px) < radius || TileSize(n, py, id / px) < radius)
    ensures r.Ok? ==> WellFormed(r.value) && r.value.id == id && r.value.n == n
                      && r.value.px == px && r.value.py == py && r.value.radius == radius
  {
    IdCoordsInRange(id, px, py);
    match SetupCheck(TileSize(n, px, id % px), TileSize(n, py, id / px), radius)
    case Some(e) => Err(e)
    case None => Ok(TileOf(n, px, py, id, radius, id % px, id / px))
  }

  /** The geometry of rank `id`, of tile coordinates (xk, yk), once its tile bounds have passed
      the setup checks. */
  function TileOf(n: nat, px: nat, py: nat, id: nat, radius: nat, xk: nat, yk: nat): (g: Geometry)
    requires 0 < px && 0 < py && id < px * py
    requires xk < px && yk < py && id % px == xk && id / px == yk
    requires TileSize(n, px, xk) >= 1 && TileSize(n, py, yk) >= 1
    requires TileSize(n, px, xk) >= radius && TileSize(n, py, yk) >= radius
    ensures WellFormed(g) && g.id == id && g.n == n && g.px == px && g.py == py && g.radius == radius
  {
    var x := TileBounds(n, px, xk);
    var y := TileBounds(n, py, yk);
    TileStartIsPrefix(n, px, xk);
    TileStartIsPrefix(n, py, yk);
    Geometry(n, px, py, id, radius, x.start, x.end, y.start, y.end)
  }

  /** The exits after the bounds are known: an empty tile in either axis, then a tile narrower than the radius. */
  function SetupCheck(width: int, height: int, radius: nat): (e: Option<SetupError>)
    ensures e == Some(NoWork) <==> width == 0 || height == 0
    ensures e == Some(TileSmallerThanRadius) <==> width != 0 && height != 0 && (width < radius || height < radius)
    ensures e.None? <==> width != 0 && height != 0 && width >= radius && height >= radius
  {
    if width == 0 || height == 0 then Some(NoWork)
    else if width < radius || height < radius then Some(TileSmallerThanRadius)
    else None
  }

  // ---------------------------------------------------------------------------
  // Rank grid, neighbours and the neighbour count
  // ---------------------------------------------------------------------------

  /** The exchange directions; their tags are the C enum values top=0, bottom=1, right=2, left=3. */
  datatype Dir = Top | Bottom | Right | Left

  function Opposite(d: Dir): (o: Dir)
    ensures o != d
  {
    match d
    case Top => Bottom
    case Bottom => Top
    case Right => Left
    case Left => Right
  }

  lemma OppositeTwice(d: Dir)
    ensures Opposite(Opposite(d)) == d
  {
  }

  /** Grid coordinates of a rank: x = id % px, y = id / px. */
  lemma IdCoordsInRange(id: nat, px: nat, py: nat)
    requires 0 < px && 0 < py && id < px * py
    ensures id % px < px && id / px < py
  {
    IndexMath.Unflatten(id, px, py);
  }

  /** Rank of the neighbour in direction d, whether or not it exists: ±1 in x, ±px in y. */
  function Neighbor(id: int, px: int, d: Dir): int {
    match d
    case Right => id + 1
    case Left => id - 1
    case Top => id + px
    case Bottom => id - px
  }

  /** The edge condition that guards the send in direction d. */
  predicate HasNeighbor(id: nat, px: nat, py: nat, d: Dir)
    requires 0 < px
  {
    match d
    case Top => id / px < py - 1
    case Bottom => id / px > 0
    case Right => id % px < px - 1
    case Left => id % px > 0
  }

  /** Steps of a direction in grid coordinates. */
  function StepX(d: Dir): int {
    match d
    case Right => 1
    case Left => -1
    case _ => 0
  }

  function StepY(d: Dir): int {
    match d
    case Top => 1
    case Bottom => -1
    case _ => 0
  }

  /** A neighbour that the guard lets through is a rank of the grid one grid step away,
      and that rank's neighbour in the opposite direction is this rank. */
  lemma NeighborInGrid(id: nat, px: nat, py: nat, d: Dir)
    requires 0 < px && 0 < py && id < px * py
    requires HasNeighbor(id, px, py, d)
    ensures var nb := Neighbor(id, px, d);
      && 0 <= nb < px * py
      && nb != id
      && nb % px == id % px + StepX(d)
      && nb / px == id / px + StepY(d)
      && HasNeighbor(nb, px, py, Opposite(d))
      && Neighbor(nb, px, Opposite(d)) == id
  {
    var x, y := id % px, id / px;
    IndexMath.Unflatten(id, px, py);
    var nx, ny := x + StepX(d), y + StepY(d);
    var nb := Neighbor(id, px, d);
    assert nb == ny * px + nx by {
      match d
      case Top => assert ny * px == y * px + px;
      case Bottom => assert ny * px == y * px - px;
      case _ =>
    }
    IndexMath.DivModOf(ny, nx, px);
    IndexMath.FlatBelow(ny, nx, px, py);
  }

  /** The neighbour count of lines 231-238: one per edge condition that holds. */
  function NumNeighbors(id: nat, px: nat, py: nat): (c: nat)
    requires 0 < px
    ensures c <= 4
    ensures c == 4 <==> 0 < id % px < px - 1 && 0 < id / px < py - 1
  {
    (if id / px < py - 1 then 1 else 0)
    + (if id / px > 0 then 1 else 0)
    + (if id % px < px - 1 then 1 else 0)
    + (if id % px > 0 then 1 else 0)
  }

  /** The directions with a neighbour, in the order the sends are issued. */
  function LiveDirections(id: nat, px: nat, py: nat): (ds: seq<Dir>)
    requires 0 < px
  {
    Flagged(HasNeighbor(id, px, py, Top), HasNeighbor(id, px, py, Bottom),
            HasNeighbor(id, px, py, Right), HasNeighbor(id, px, py, Left))
  }

  /** The directions whose flag is set, in the order top, bottom, right, left. */
  function Flagged(t: bool, b: bool, r: bool, l: bool): seq<Dir> {
    (if t then [Top] else []) + (if b then [Bottom] else []) + (if r then [Right] else []) + (if l then [Left] else [])
  }

  function Flag(d: Dir, t: bool, b: bool, r: bool, l: bool): bool {
    match d
    case Top => t
    case Bottom => b
    case Right => r
    case Left => l
  }

  /** The flagged list holds each flagged direction once, and nothing else. */
  lemma FlaggedFacts(t: bool, b: bool, r: bool, l: bool)
    ensures |Flagged(t, b, r, l)| == (if t then 1 else 0) + (if b then 1 else 0) + (if r then 1 else 0) + (if l then 1 else 0)
    ensures forall d: Dir :: d in Flagged(t, b, r, l) <==> Flag(d, t, b, r, l)
    ensures forall a, c :: 0 <= a < c < |Flagged(t, b, r, l)| ==> Flagged(t, b, r, l)[a] != Flagged(t, b, r, l)[c]
  {
    var ts, bs, rs, ls := if t then [Top] else [], if b then [Bottom] else [], if r then [Right] else [], if l then [Left] else [];
    assert Flagged(t, b, r, l) == ts + bs + rs + ls;
    forall d: Dir
      ensures d in Flagged(t, b, r, l) <==> Flag(d, t, b, r, l)
    {
      assert d in ts + bs + rs + ls <==> d in ts || d in bs || d in rs || d in ls;
      assert d in ts <==> t && d == Top;
      assert d in bs <==> b && d == Bottom;
      assert d in rs <==> r && d == Right;
      assert d in ls <==> l && d == Left;
    }
  }

  /** The neighbour count is built from the same edge conditions as the sends: it is
      exactly the number of directions a message is sent to, and each of them once. */
  lemma NumNeighborsIsLiveCount(id: nat, px: nat, py: nat)
    requires 0 < px
    ensures |LiveDirections(id, px, py)| == NumNeighbors(id, px, py)
    ensures forall d: Dir :: d in LiveDirections(id, px, py) <==> HasNeighbor(id, px, py, d)
    ensures forall a, b :: 0 <= a < b < |LiveDirections(id, px, py)| ==>
              LiveDirections(id, px, py)[a] != LiveDirections(id, px, py)[b]
  {
    FlaggedFacts(HasNeighbor(id, px, py, Top), HasNeighbor(id, px, py, Bottom),
                 HasNeighbor(id, px, py, Right), HasNeighbor(id, px, py, Left));
    forall d: Dir
      ensures Flag(d, HasNeighbor(id, px, py, Top), HasNeighbor(id, px, py, Bottom),
                   HasNeighbor(id, px, py, Right), HasNeighbor(id, px, py, Left)) == HasNeighbor(id, px, py, d)
    {
    }
  }

  /** A rank with a neighbour is not alone: after the setup the communication
      buffers (allocated only when there is more than one rank) exist. */
  lemma NeighborMeansSeveralRanks(id: nat, px: nat, py: nat, d: Dir)
    requires 0 < px && 0 < py && id < px * py
    requires HasNeighbor(id, px, py, d)
    ensures px * py > 1
  {
    NeighborInGrid(id, px, py, d);
  }

  // ---------------------------------------------------------------------------
  // Size tier of a ghost message
  // ---------------------------------------------------------------------------

  /** How a message is sent: `gasnet_AMRequestMedium1`, `gasnet_AMRequestLong1`, or not at all (the program exits). */
  datatype Tier = Medium | Long | TooLarge

  /** The tier chosen for a message of msgSize bytes, both thresholds strict. */
  function SelectTier(msgSize: nat, maxMedium: nat, maxLong: nat): (t: Tier)
    ensures t == Medium <==> msgSize < maxMedium
    ensures t == Long <==> maxMedium <= msgSize < maxLong
    ensures t == TooLarge <==> maxMedium <= msgSize && maxLong <= msgSize
  {
    if msgSize < maxMedium then Medium
    else if msgSize < maxLong then Long
    else TooLarge
  }

  function TierRank(t: Tier): nat {
    match t
    case Medium => 0
    case Long => 1
    case TooLarge => 2
  }

  /** A larger message never gets a cheaper tier. */
  lemma TierMonotone(a: nat, b: nat, maxMedium: nat, maxLong: nat)
    requires a <= b
    ensures TierRank(SelectTier(a, maxMedium, maxLong)) <= TierRank(SelectTier(b, maxMedium, maxLong))
  {
  }

  /** Bytes of a ghost message: radius rows (or columns) of `edge` elements of elemSize bytes. */
  function MessageBytes(radius: nat, edge: nat, elemSize: nat): nat {
    radius * edge * elemSize
  }

  /** The edge length of the message in direction d: the tile width for top/bottom, its height for right/left. */
  function EdgeLength(g: Geometry, d: Dir): int {
    if d == Top || d == Bottom then g.Width() else g.Height()
  }

  // ---------------------------------------------------------------------------
  // The in-array layout (INDEXIN)
  // ---------------------------------------------------------------------------

  /** INDEXIN(i,j) = i + R + (j + R) * (width + 2R), over tile-local coordinates. */
  function IndexIn(li: int, lj: int, width: nat, radius: nat): int {
    li + radius + (lj + radius) * (width + 2 * radius)
  }

  /** On the tile with its ghost border INDEXIN stays inside the allocation
      of (width+2R)*(height+2R) elements, and it can be decoded back. */
  lemma IndexInBounds(li: int, lj: int, width: nat, height: nat, radius: nat)
    requires 0 <= li + radius < width + 2 * radius && 0 <= lj + radius < height + 2 * radius
    ensures 0 <= IndexIn(li, lj, width, radius) < (width + 2 * radius) * (height + 2 * radius)
  {
    IndexMath.FlatBelow(lj + radius, li + radius, width + 2 * radius, height + 2 * radius);
  }

  /** INDEXIN can be decoded back into tile-local coordinates. */
  lemma IndexInDecode(li: int, lj: int, width: nat, radius: nat)
    requires 0 <= li + radius < width + 2 * radius
    ensures IndexIn(li, lj, width, radius) % (width + 2 * radius) == li + radius
    ensures IndexIn(li, lj, width, radius) / (width + 2 * radius) == lj + radius
  {
    IndexMath.DivModOf(lj + radius, li + radius, width + 2 * radius);
  }

  /** On the tile with its ghost border INDEXIN is injective. */
  lemma IndexInInjective(li: int, lj: int, li': int, lj': int, width: nat, height: nat, radius: nat)
    requires 0 <= li + radius < width + 2 * radius && 0 <= lj + radius < height + 2 * radius
    requires 0 <= li' + radius < width + 2 * radius && 0 <= lj' + radius < height + 2 * radius
    requires IndexIn(li, lj, width, radius) == IndexIn(li', lj', width, radius)
    ensures li == li' && lj == lj'
  {
    IndexInDecode(li, lj, width, radius);
    IndexInDecode(li', lj', width, radius);
  }

  /** Number of elements of the in-array of a tile (line 462, in elements). */
  function HaloLen(g: Geometry): int {
    (g.Width() + 2 * g.radius) * (g.Height() + 2 * g.radius)
  }

  // ---------------------------------------------------------------------------
  // Rectangles of the exchange
  // ---------------------------------------------------------------------------

  /** An inclusive rectangle [i0, i1] x [j0, j1] in global grid coordinates, traversed row by row. */
  datatype Rect = Rect(i0: int, i1: int, j0: int, j1: int) {
    function Cols(): int { i1 - i0 + 1 }
    function Rows(): int { j1 - j0 + 1 }
    predicate Contains(i: int, j: int) { i0 <= i <= i1 && j0 <= j <= j1 }
  }

  /** The boundary rows or columns of the tile sent in direction d (lines 251, 272, 295, 316). */
  function SendRect(g: Geometry, d: Dir): Rect {
    var r := g.radius;
    match d
    case Top => Rect(g.istart, g.iend, g.jend - r + 1, g.jend)
    case Bottom => Rect(g.istart, g.iend, g.jstart, g.jstart + r - 1)
    case Right => Rect(g.iend - r + 1, g.iend, g.jstart, g.jend)
    case Left => Rect(g.istart, g.istart + r - 1, g.jstart, g.jend)
  }

  /** The ghost rows or columns filled from the incoming buffer of direction d (lines 341, 348, 355, 362). */
  function GhostRect(g: Geometry, d: Dir): Rect {
    var r := g.radius;
    match d
    case Top => Rect(g.istart, g.iend, g.jend + 1, g.jend + r)
    case Bottom => Rect(g.istart, g.iend, g.jstart - r, g.jstart - 1)
    case Right => Rect(g.iend + 1, g.iend + r, g.jstart, g.jend)
    case Left => Rect(g.istart - r, g.istart - 1, g.jstart, g.jend)
  }

  /** The tile itself, without ghosts. */
  function TileRect(g: Geometry): Rect {
    Rect(g.istart, g.iend, g.jstart, g.jend)
  }

  /** A rectangle of non-negative extent inside the tile together with its ghost border. */
  predicate RectInHalo(g: Geometry, rect: Rect) {
    && 0 <= rect.Cols() && 0 <= rect.Rows()
    && g.istart - g.radius <= rect.i0 && rect.i1 <= g.iend + g.radius
    && g.jstart - g.radius <= rect.j0 && rect.j1 <= g.jend + g.radius
  }

  /** The send and ghost rectangles of a well-formed tile lie inside its halo,
      span radius rows (or columns) of the edge length, and send rectangles lie inside the tile. */
  lemma ExchangeRectsShape(g: Geometry, d: Dir)
    requires WellFormed(g)
    ensures RectInHalo(g, SendRect(g, d)) && RectInHalo(g, GhostRect(g, d))
    ensures SendRect(g, d).Cols() * SendRect(g, d).Rows() == g.radius * EdgeLength(g, d)
    ensures GhostRect(g, d).Cols() * GhostRect(g, d).Rows() == g.radius * EdgeLength(g, d)
    ensures forall i, j :: SendRect(g, d).Contains(i, j) ==> TileRect(g).Contains(i, j)
    ensures forall i, j :: GhostRect(g, d).Contains(i, j) ==> !TileRect(g).Contains(i, j)
  {
    RectsOfSizedTile(g, d);
  }

  /** The shape facts again, from the tile extents alone. */
  lemma RectsOfSizedTile(g: Geometry, d: Dir)
    requires g.Width() >= 1 && g.Height() >= 1 && g.Width() >= g.radius && g.Height() >= g.radius
    ensures RectInHalo(g, SendRect(g, d)) && RectInHalo(g, GhostRect(g, d))
    ensures SendRect(g, d).Cols() * SendRect(g, d).Rows() == g.radius * EdgeLength(g, d)
    ensures GhostRect(g, d).Cols() * GhostRect(g, d).Rows() == g.radius * EdgeLength(g, d)
    ensures forall i, j :: SendRect(g, d).Contains(i, j) ==> TileRect(g).Contains(i, j)
    ensures forall i, j :: GhostRect(g, d).Contains(i, j) ==> !TileRect(g).Contains(i, j)
  {
    match d
    case Top =>
      assert SendRect(g, d).Rows() == g.radius && GhostRect(g, d).Rows() == g.radius;
    case Bottom =>
      assert SendRect(g, d).Rows() == g.radius && GhostRect(g, d).Rows() == g.radius;
    case Right =>
      assert SendRect(g, d).Cols() == g.radius && GhostRect(g, d).Cols() == g.radius;
    case Left =>
      assert SendRect(g, d).Cols() == g.radius && GhostRect(g, d).Cols() == g.radius;
  }

  /** Two tiles of the same decomposition of the same grid. */
  predicate SameGrid(g: Geometry, h: Geometry) {
    g.n == h.n && g.px == h.px && g.py == h.py && g.radius == h.radius
  }

  /** What a rank sends toward direction d covers exactly the ghost rectangle on the
      opposite side of the neighbour there, in global coordinates; in particular both
      messages of a pair have the same edge length. */
  lemma SendRectIsNeighborGhost(gs: Geometry, gr: Geometry, d: Dir)
    requires WellFormed(gs) && WellFormed(gr) && SameGrid(gs, gr)
    requires HasNeighbor(gs.id, gs.px, gs.py, d) && gr.id == Neighbor(gs.id, gs.px, d)
    ensures SendRect(gs, d) == GhostRect(gr, Opposite(d))
    ensures EdgeLength(gs, d) == EdgeLength(gr, Opposite(d))
  {
    NeighborInGrid(gs.id, gs.px, gs.py, d);
    var xs, ys := gs.id % gs.px, gs.id / gs.px;
    match d
    case Top => assert PointsBefore(gs.n, gs.py, ys + 1) == gs.jend + 1;
    case Bottom => assert PointsBefore(gs.n, gs.py, ys) == gr.jend + 1;
    case Right => assert PointsBefore(gs.n, gs.px, xs + 1) == gs.iend + 1;
    case Left => assert PointsBefore(gs.n, gs.px, xs) == gr.iend + 1;
  }

  /** The four ghost rectangles are pairwise disjoint (the corners belong to none). */
  lemma GhostRectsDisjoint(g: Geometry, d: Dir, e: Dir, i: int, j: int)
    requires WellFormed(g) && d != e
    requires GhostRect(g, d).Contains(i, j)
    ensures !GhostRect(g, e).Contains(i, j)
  {
  }

  // ---------------------------------------------------------------------------
  // The sub-allocation of the communication buffers (allocate_comms_buffers)
  // ---------------------------------------------------------------------------

  /** The eight buffer slices; the y-direction ones share one allocation of 4*R*width
      elements, the x-direction ones one of 4*R*height. */
  datatype Slot = TopOut | TopIn | BottomOut | BottomIn | RightOut | RightIn | LeftOut | LeftIn {
    predicate InY() { this == TopOut || this == TopIn || this == BottomOut || this == BottomIn }
    /** Position of the slice inside its allocation, in units of R*edge. */
    function Index(): nat {
      match this
      case TopOut => 0
      case TopIn => 1
      case BottomOut => 2
      case BottomIn => 3
      case RightOut => 0
      case RightIn => 1
      case LeftOut => 2
      case LeftIn => 3
    }
  }

  /** Offset of a slice inside its allocation, of slices of sliceLen = R*edge elements each. */
  function SlotOffset(s: Slot, sliceLen: nat): (off: nat)
    ensures off + sliceLen <= 4 * sliceLen
    ensures s.Index() == 0 ==> off == 0
  {
    s.Index() * sliceLen
  }

  /** Two different slices of the same allocation do not overlap. */
  lemma SlotsDisjoint(s: Slot, t: Slot, sliceLen: nat)
    requires s != t && s.InY() == t.InY()
    ensures SlotOffset(s, sliceLen) + sliceLen <= SlotOffset(t, sliceLen)
         || SlotOffset(t, sliceLen) + sliceLen <= SlotOffset(s, sliceLen)
  {
    assert s.Index() != t.Index();
    if s.Index() < t.Index() {
      assert (t.Index() - s.Index()) * sliceLen >= sliceLen;
    } else {
      assert (s.Index() - t.Index()) * sliceLen >= sliceLen;
    }
  }

  /** The outgoing slice packed for direction d. */
  function OutSlot(d: Dir): (s: Slot)
    ensures s.InY() <==> (d == Top || d == Bottom)
  {
    match d
    case Top => TopOut
    case Bottom => BottomOut
    case Right => RightOut
    case Left => LeftOut
  }

  /** The incoming slice unpacked into the ghost rectangle of direction d. */
  function GhostSlot(d: Dir): (s: Slot)
    ensures s.InY() <==> (d == Top || d == Bottom)
    ensures s != OutSlot(d) && s != OutSlot(Opposite(d))
  {
    match d
    case Top => TopIn
    case Bottom => BottomIn
    case Right => RightIn
    case Left => LeftIn
  }

  /** The incoming slice the arrival handler copies a message with direction tag d into
      (top -> bottom_buf_in, bottom -> top_buf_in, right -> left_buf_in, left -> right_buf_in):
      the ghost slice of the opposite side, since the sender lies on that side. */
  function InSlotForTag(d: Dir): (s: Slot)
    ensures s == GhostSlot(Opposite(d))
    ensures s.InY() <==> (d == Top || d == Bottom)
  {
    match d
    case Top => BottomIn
    case Bottom => TopIn
    case Right => LeftIn
    case Left => RightIn
  }

  // ---------------------------------------------------------------------------
  // Index bounds of the stencil-apply loop (lines 370-377)
  // ---------------------------------------------------------------------------

  function Max(a: int, b: int): int { if a < b then b else a }
  function Min(a: int, b: int): int { if a < b then a else b }

  /** The points (i, j) the apply loop updates. */
  predicate ApplyPoint(g: Geometry, i: int, j: int) {
    && Max(g.jstart, g.radius) <= j <= Min(g.n - g.radius - 1, g.jend)
    && Max(g.istart, g.radius) <= i <= Min(g.n - g.radius - 1, g.iend)
  }

  /** The cells the star stencil reads for point (i, j): its column and its row, radius R each way. */
  predicate StarRead(g: Geometry, i: int, j: int, a: int, b: int) {
    (a == i && j - g.radius <= b <= j + g.radius) || (b == j && i - g.radius <= a <= i + g.radius)
  }

  /** The tiles at the edges of the rank grid touch the edges of the global grid. */
  lemma EdgeTiles(g: Geometry)
    requires WellFormed(g)
    ensures g.id % g.px == 0 ==> g.istart == 0
    ensures g.id % g.px == g.px - 1 ==> g.iend == g.n - 1
    ensures g.id / g.px == 0 ==> g.jstart == 0
    ensures g.id / g.px == g.py - 1 ==> g.jend == g.n - 1
    ensures g.id % g.px < g.px && g.id / g.px < g.py
  {
    LastTileEnds(g.n, g.px);
    LastTileEnds(g.n, g.py);
  }

  /** The last tile of an axis ends at n - 1. */
  lemma LastTileEnds(n: nat, p: nat)
    requires 0 < p
    ensures PointsBefore(n, p, p - 1) + TileSize(n, p, p - 1) == n
  {
    TilesCoverAxis(n, p);
    TileStartIsPrefix(n, p, p - 1);
  }

  /** The apply loop reads `IN` only inside the tile and its ghost border, at indices inside
      the allocation; and every cell it reads outside the tile lies in the ghost rectangle of
      a direction that has a neighbour, so it was filled by the exchange. */
  lemma ApplyReadsFilledCells(g: Geometry, i: int, j: int, a: int, b: int)
    requires WellFormed(g)
    requires ApplyPoint(g, i, j) && StarRead(g, i, j, a, b)
    ensures g.istart - g.radius <= a <= g.iend + g.radius && g.jstart - g.radius <= b <= g.jend + g.radius
    ensures 0 <= IndexIn(a - g.istart, b - g.jstart, g.Width(), g.radius) < HaloLen(g)
    ensures TileRect(g).Contains(a, b)
         || exists d: Dir :: HasNeighbor(g.id, g.px, g.py, d) && GhostRect(g, d).Contains(a, b)
  {
    EdgeTiles(g);
    ApplyReadsNearTile(g, i, j, a, b);
    IndexInBounds(a - g.istart, b - g.jstart, g.Width(), g.Height(), g.radius);
  }

  /** The linear part of ApplyReadsFilledCells: from the edge facts of EdgeTiles alone. */
  lemma ApplyReadsNearTile(g: Geometry, i: int, j: int, a: int, b: int)
    requires 0 < g.px && g.Width() >= 1 && g.Height() >= 1
    requires g.id % g.px < g.px && g.id / g.px < g.py
    requires g.id % g.px == 0 ==> g.istart == 0
    requires g.id % g.px == g.px - 1 ==> g.iend == g.n - 1
    requires g.id / g.px == 0 ==> g.jstart == 0
    requires g.id / g.px == g.py - 1 ==> g.jend == g.n - 1
    requires ApplyPoint(g, i, j) && StarRead(g, i, j, a, b)
    ensures g.istart - g.radius <= a <= g.iend + g.radius && g.jstart - g.radius <= b <= g.jend + g.radius
    ensures TileRect(g).Contains(a, b)
         || exists d: Dir :: HasNeighbor(g.id, g.px, g.py, d) && GhostRect(g, d).Contains(a, b)
  {
    if !TileRect(g).Contains(a, b) {
      var d := if b > g.jend then Top else if b < g.jstart then Bottom else if a > g.iend then Right else Left;
      assert HasNeighbor(g.id, g.px, g.py, d) && GhostRect(g, d).Contains(a, b);
    }
  }
}
