# GASNet examples: a verified model of the communication logic

This is a Dafny model of the sequential logic under the Active Message calls of the GASNet
example programs. It covers four pieces.

- **2D halo exchange** (`stencil/gasnet/stencil.c`). The model covers:
  - the parameter checks;
  - the integer decomposition of an `n`-point axis over a process grid;
  - rank coordinates, neighbours and the neighbour count;
  - the choice between a medium request, a long request and a fatal error;
  - the `INDEXIN` layout of the in-array with its ghost border;
  - packing of boundary rows and columns into the outgoing slices of the two communication buffers, each cut into four slices;
  - the arrival handler, which routes a direction tag to the opposite incoming slice and counts the arrival;
  - the wait and reset;
  - unpacking into the ghost cells;
  - the whole receive side: whatever order the neighbours' messages arrive in, once each has arrived and the unpack has run, every ghost cell equals the neighbour's cell;
  - the index bounds of the apply loop.

  Modules `StencilGrid` (pure arithmetic) and `HaloExchange` (packing specifications and the class `Tile`, whose methods work on arrays in place).
- **Tagged channel** (`my_mpi/my_mpi.cpp`, `my_mpi/my_mpi.hpp`). The model covers:
  - the inbox of envelopes that the request handler appends to;
  - the receive, which finds and erases the first envelope with an id;
  - the pending counter;
  - the typed layer that turns vectors into bytes and back.

  Modules `Channel` (class `Endpoint`) and `TypedChannel`.
- **Ping-pong benchmarks** (`micro_benchmarks/test_short.hpp`, `test_medium.hpp`, `test_long.hpp`). The model covers:
  - the sequence-number protocol shared by all three (module `PingPong`), including an interleaving model of two ranks and the size check of the medium and long benchmarks;
  - each benchmark's namespace state, handlers, send and driver loop, as a class.

  Modules `ShortBenchmark`, `MediumBenchmark` and `LongBenchmark`.
- **1D chain** (`stencil_1d.cpp`). The model covers:
  - the interior loop;
  - the border requests, with their fallbacks at the ends of the chain, and their reply handlers;
  - the completion count;
  - the gather at offset `rank * points_per_node`;
  - the per-iteration reset.

  All ranks are driven together. The result is proved equal to a sequential reference: the central difference of the whole chain. Module `Chain1D`.

Asynchronous delivery is modelled as explicit steps that call the handler methods. Every `GASNET_BLOCKUNTIL` wait becomes a precondition, or a state the proof shows is reached. Grid values of the 2D stencil have type `Value`, a synonym for `real` that stands for `DTYPE` (`double` or `float`). No contract uses their arithmetic: the model only moves them. Chain values are `real`, and the difference quotient is a parameter. `Outcomes` holds `Result` and `Option`.

Shared helpers:
- `Buffers` holds `Splice`, `CopyInto` (a `memcpy` loop) and `Fill` (a `std::fill` loop).
- `IndexMath` holds division facts.

## Model

| member | source | states |
|---|---|---|
| StencilGrid.CheckParameters | stencil/gasnet/stencil.c:515-538 | `errorCheckParameters` reports the first failing check, in source order. Each error is stated as an iff. Usage iff `argc != 3`. Too few iterations iff `argc == 3` and `iterations < 1`. Grid smaller than ranks iff the earlier checks pass and `n*n < ranks`. Negative radius iff the earlier checks pass and `radius < 0`. Radius exceeds grid iff the earlier checks pass and `2*radius+1 > n`. None exactly when every check passes. (In the program an `argc` of 1 or 2 never reaches this function; see "Left out".) |
| StencilGrid.AcceptedParameters | stencil/gasnet/stencil.c:525-538 | Parameters that pass give `n >= 1`, `radius >= 0`, `n >= 2*radius+1` and at least one point per rank. |
| StencilGrid.TileBounds | stencil/gasnet/stencil.c:186-196 | Coordinate k gets `n/p + 1` points when `k < n%p` and `n/p` otherwise. Its start is non-negative. |
| StencilGrid.TileStartIsPrefix | stencil/gasnet/stencil.c:186-196 | A tile starts after exactly the points of all earlier tiles (an independent prefix-sum definition). |
| StencilGrid.TilesContiguous | stencil/gasnet/stencil.c:186-196 | The next tile starts right after this one ends, so tiles are contiguous and disjoint. |
| StencilGrid.TilesCoverAxis | stencil/gasnet/stencil.c:202-212 | The first tile starts at 0 and the last ends at `n-1`. |
| StencilGrid.Decompose | stencil/gasnet/stencil.c:186-221 | Fails with "no work" exactly when a tile size is 0. Fails with "tile smaller than radius" exactly when both sizes are non-zero and one is below the radius. Otherwise it returns a well-formed geometry for that rank. |
| StencilGrid.TileOf | stencil/gasnet/stencil.c:186-221 | Once both tile sizes are at least 1 and at least the radius, the bounds computed for rank `id` make a well-formed geometry. |
| StencilGrid.SetupCheck | stencil/gasnet/stencil.c:196-222 | "No work" exactly when a tile size is 0. "Tile smaller than radius" exactly when both sizes are non-zero and one is below R. No error exactly when both sizes are at least 1 and at least R. |
| StencilGrid.Opposite | stencil/gasnet/stencil.c:72-86 | The opposite of a direction is a different direction. |
| StencilGrid.IdCoordsInRange | stencil/gasnet/stencil.c:173-174 | `my_ID%Px < Px` and `my_ID/Px < Py` for any rank of the grid. |
| StencilGrid.NeighborInGrid | stencil/gasnet/stencil.c:173-179 | A neighbour let through by a send guard has these properties: it is a rank in `[0, Px*Py)`; it is not the sender; it is one grid step away in the direction's axis; the sender is its neighbour in the opposite direction. |
| StencilGrid.NumNeighbors | stencil/gasnet/stencil.c:231-238 | The count is at most 4. It is exactly 4 iff the rank is interior in both axes. |
| StencilGrid.NumNeighborsIsLiveCount | stencil/gasnet/stencil.c:231-238 | The count equals the number of directions whose send guard (lines 249, 270, 293, 314) holds. Those directions are listed once each, in send order. |
| StencilGrid.NeighborMeansSeveralRanks | stencil/gasnet/stencil.c:226-227 | A rank with a neighbour lives in a grid of more than one rank, so its communication buffers were allocated. |
| StencilGrid.SelectTier | stencil/gasnet/stencil.c:257-267 | Medium iff `size < max_medium`; long iff `max_medium <= size < max_long`; fatal iff neither. Both thresholds are strict. |
| StencilGrid.TierMonotone | stencil/gasnet/stencil.c:257-267 | A larger message never gets a cheaper tier. |
| StencilGrid.IndexInBounds | stencil/gasnet/stencil.c:23 | On the tile with its ghost border, `INDEXIN` stays in `[0, (width+2R)*(height+2R))`, the allocation of line 462. |
| StencilGrid.IndexInDecode | stencil/gasnet/stencil.c:23 | `INDEXIN` can be decoded back into the local coordinates. |
| StencilGrid.IndexInInjective | stencil/gasnet/stencil.c:23 | `INDEXIN` is injective on the tile with its ghost border. |
| StencilGrid.ExchangeRectsShape | stencil/gasnet/stencil.c:249-367 | The send and ghost rectangles of each direction lie in the halo and have `R*width` or `R*height` cells. Send rectangles are inside the tile; ghost rectangles are outside it. |
| StencilGrid.SendRectIsNeighborGhost | stencil/gasnet/stencil.c:251-255 | The cells a rank sends toward d are exactly the ghost cells of the opposite direction on the neighbour. They have the same edge length. |
| StencilGrid.GhostRectsDisjoint | stencil/gasnet/stencil.c:340-367 | The four ghost rectangles are pairwise disjoint. |
| StencilGrid.SlotOffset | stencil/gasnet/stencil.c:487-503 | Each slice is `R*edge` long and lies inside the `4*R*edge` allocation; the first starts at 0. |
| StencilGrid.SlotsDisjoint | stencil/gasnet/stencil.c:487-503 | Two different slices of the same allocation do not overlap. |
| StencilGrid.OutSlot | stencil/gasnet/stencil.c:253 | A direction's outgoing slice is in the y allocation iff the direction is top or bottom. |
| StencilGrid.GhostSlot | stencil/gasnet/stencil.c:343 | The same holds for the incoming slice. It is neither the outgoing slice of the direction nor that of the opposite direction. |
| StencilGrid.InSlotForTag | stencil/gasnet/stencil.c:72-86 | The handler copies tag d into the incoming slice of the opposite direction: top into `bottom_buf_in`, and so on. |
| StencilGrid.EdgeTiles | stencil/gasnet/stencil.c:186-212 | Tiles at the edges of the rank grid touch the edges of the global grid. |
| StencilGrid.ApplyReadsFilledCells | stencil/gasnet/stencil.c:370-377 | Every cell the star stencil reads for an updated point has these properties: it is in the halo; its `INDEXIN` is inside the allocation; it is in the tile or in the ghost rectangle of a direction that has a neighbour. |
| StencilGrid.ApplyReadsNearTile | stencil/gasnet/stencil.c:370-377 | The same bound, from the edge facts alone. |
| HaloExchange.WellFormedIsShaped | stencil/gasnet/stencil.c:197-221 | A tile that passed the setup checks is non-empty in both directions and has a non-empty in-array. |
| HaloExchange.CellIndexInRange | stencil/gasnet/stencil.c:25 | `IN(i,j)` of a halo cell is inside the in-array. |
| HaloExchange.CellAtIndex | stencil/gasnet/stencil.c:25 | Decoding the index of a halo cell gives the cell back. |
| HaloExchange.IndexOfCellAt | stencil/gasnet/stencil.c:25 | Every in-array position is the index of exactly the halo cell decoded from it. |
| HaloExchange.FlatInRange | stencil/gasnet/stencil.c:251-255 | The running index `kk` of a rectangle cell lies below the rectangle's area. |
| HaloExchange.FlatInjective | stencil/gasnet/stencil.c:251-255 | Two cells with the same `kk` are the same cell. |
| HaloExchange.PackAtCell | stencil/gasnet/stencil.c:251-255 | Position `kk` of a packing holds the cell `(i, j)` whose row-major position is `kk`. |
| HaloExchange.UnpackCell | stencil/gasnet/stencil.c:340-346 | Unpacking writes element `kk` of the buffer into cell `(i, j)` of the rectangle and leaves every other cell unchanged. |
| HaloExchange.UnpackOfPack | stencil/gasnet/stencil.c:348-352 | Packing a rectangle from one in-array and unpacking it into another copies every cell of the rectangle. |
| HaloExchange.GhostCellsMatchNeighbor | stencil/gasnet/stencil.c:295-299 | After unpacking what the neighbour in d packed toward the opposite direction, each ghost cell of d holds the neighbour's value of that cell. |
| HaloExchange.PackRect | stencil/gasnet/stencil.c:251-255 | The nested `kk++` loops write exactly the packing of the rectangle into the buffer at the slice offset. Nothing else in the buffer changes. |
| HaloExchange.UnpackRect | stencil/gasnet/stencil.c:341-345 | The nested `kk++` unpack loops leave the in-array equal to the unpack specification. |
| HaloExchange.RowStep | stencil/gasnet/stencil.c:251-255 | The index after the end of one row is the start of the next. The rectangle starts at 0 and ends at its area. |
| HaloExchange.UnpackStep | stencil/gasnet/stencil.c:341-345 | Writing one cell extends the unpacked prefix by that cell only. |
| HaloExchange.OutgoingMeaning | stencil/gasnet/stencil.c:249-334 | A send fails iff the byte size reaches both limits. Otherwise its destination is the rank one grid step away. Its tag is the direction. Its payload is the packed boundary of `R*edge` elements, and its byte count is that times `sizeof(DTYPE)`. It uses a medium request below `max_medium`, otherwise a long request to the neighbour's segment base address. |
| HaloExchange.ExchangeSendsOnePerNeighbor | stencil/gasnet/stencil.c:249-334 | The four guarded blocks succeed iff every send to a neighbour succeeds. They then issue exactly `num_neighbors` messages, the k-th toward the k-th live direction. |
| HaloExchange.SendStepExtends | stencil/gasnet/stencil.c:249-334 | Each guarded block keeps the invariant between the messages issued so far and the directions handled. |
| HaloExchange.UnpackBlock | stencil/gasnet/stencil.c:340-346 | A guarded unpack block keeps the in-array's length. |
| HaloExchange.UnpackGhosts | stencil/gasnet/stencil.c:337-367 | The four unpack blocks keep the in-array's length. |
| HaloExchange.HasNeighborSeveral | stencil/gasnet/stencil.c:226-227 | A tile with any neighbour is in a grid of several ranks. |
| HaloExchange.UnpackGhostsLive | stencil/gasnet/stencil.c:337-367 | After the four unpack blocks, each cell of a live ghost rectangle holds element `kk` of that direction's incoming slice. |
| HaloExchange.UnpackGhostsLiveTop | stencil/gasnet/stencil.c:340-346 | The same, for the top ghost rows. |
| HaloExchange.UnpackGhostsLiveBottom | stencil/gasnet/stencil.c:347-353 | The same, for the bottom ghost rows. |
| HaloExchange.UnpackGhostsLiveRight | stencil/gasnet/stencil.c:354-360 | The same, for the right ghost columns. |
| HaloExchange.UnpackGhostsLiveLeft | stencil/gasnet/stencil.c:361-367 | The same, for the left ghost columns. |
| HaloExchange.KeptByOtherBlocks | stencil/gasnet/stencil.c:337-367 | The unpack block of another direction leaves a ghost cell of d unchanged. |
| HaloExchange.UnpackGhostsElsewhere | stencil/gasnet/stencil.c:337-367 | The unpack leaves every other halo cell unchanged: the tile, the ghosts without a neighbour and the corners. |
| HaloExchange.UnpackBlockCell | stencil/gasnet/stencil.c:340-346 | A block writes its slice into its live ghost rectangle and changes no other cell. |
| HaloExchange.HaloRoundTrip | stencil/gasnet/stencil.c:249-367 | Suppose the incoming slice of d holds the payload the neighbour in d sent toward the opposite direction. Then after the unpack, every ghost cell of d holds the neighbour's value for that cell. |
| HaloExchange.SenderIsOppositeNeighbor | stencil/gasnet/stencil.c:72-86 | A message sent toward d arrives at a rank whose opposite-direction neighbour is the sender. |
| HaloExchange.Tile.constructor | stencil/gasnet/stencil.c:223-238 | Sets up the in-array from its initial contents and allocates the buffers (empty for a single rank). The neighbour count is recorded and no message has arrived. |
| HaloExchange.Tile.PackToward | stencil/gasnet/stencil.c:251-255 | The packing loops of one block. The outgoing slice of d becomes the packed boundary rectangle and the rest of its allocation is unchanged. The returned payload is that packed boundary. |
| HaloExchange.Tile.SendToward | stencil/gasnet/stencil.c:249-268 | Packs the boundary toward d into the outgoing slice and returns exactly `Outgoing`: the medium or long request, or the fatal error. |
| HaloExchange.Tile.SendIfLive | stencil/gasnet/stencil.c:249-269 | A guarded block: it returns `SendStep`, and on success the outgoing slice holds the packed boundary. |
| HaloExchange.Tile.Exchange | stencil/gasnet/stencil.c:249-334 | The four blocks in order: they return `ExchangeOutcome`. On success both buffers hold the packed boundaries of the live directions and nothing else has changed. |
| HaloExchange.Tile.Deliver | stencil/gasnet/stencil.c:67-90 | `transfer_request_handler`: copies the payload into the opposite incoming slice, leaves the rest of that buffer alone, and increments the arrival count once. |
| HaloExchange.Tile.CollectAndUnpack | stencil/gasnet/stencil.c:337-367 | The wait (arrivals equal the neighbour count) becomes a precondition. The count is reset to 0 and the in-array becomes the result of the four unpack blocks. |
| HaloExchange.Tile.UnpackIfLive | stencil/gasnet/stencil.c:340-346 | A guarded unpack block leaves the in-array equal to `UnpackBlock`. |
| HaloExchange.Tile.ReceiveFrom | stencil/gasnet/stencil.c:67-90 | The arrival of the message of the neighbour in d, tagged with the opposite direction: the ghost slice of d becomes its payload, every other ghost slice stays as it was, and one more arrival is counted. |
| HaloExchange.Tile.DeliverEach | stencil/gasnet/stencil.c:67-90 | Messages from the live neighbours arrive one after another, in any order that holds each live direction: each arrival is counted, and afterwards every live ghost slice holds its payload. |
| HaloExchange.Tile.ReceiveAll | stencil/gasnet/stencil.c:67-90 | One message per live neighbour, each through the handler, in any arrival order: the arrival count reaches the neighbour count that the wait at line 337 waits for, and every live ghost slice holds what arrived for that direction. |
| HaloExchange.Tile.ReceiveAndUnpack | stencil/gasnet/stencil.c:337-367 | Every live neighbour sends its `Outgoing` request toward this rank, in any order, and the handler (lines 67-90) takes each in. Then the wait is passed and the unpack runs, the count is back to 0, and every cell of each live ghost rectangle equals the neighbour's cell at the same global position. |
| HaloExchange.NeighborsFillGhosts | stencil/gasnet/stencil.c:249-367 | Suppose every live ghost slice holds what the neighbour in that direction sent. Then after the unpack every cell of every live ghost rectangle equals that neighbour's cell. |
| HaloExchange.ReceiveSetsGhostSlice | stencil/gasnet/stencil.c:67-90 | The handler's `memcpy` on buffer values: the incoming slice of d holds the payload afterwards, and every other ghost slice is unchanged. |
| HaloExchange.NeighborSentFits | stencil/gasnet/stencil.c:249-257 | What the neighbour in d sends toward this rank has exactly the slice length of d on this side, so the handler's copy (line 88) fits the incoming slice. |
| HaloExchange.ArrivalOrder | stencil/gasnet/stencil.c:231-238 | An arrival order holding each live direction once holds exactly the live directions, and its length is `num_neighbors`, the count the wait at line 337 compares with. |
| HaloExchange.PackOut | stencil/gasnet/stencil.c:249-255 | A guarded pack block keeps the buffer's length. |
| Buffers.CopyInto | stencil/gasnet/stencil.c:88 | The `memcpy` into a buffer at an offset: the destination becomes the splice of the source at the offset. |
| Buffers.Splice | micro_benchmarks/test_medium.hpp:44 | The spliced region holds the copied bytes and everything else is unchanged. |
| Channel.FirstMatch | my_mpi/my_mpi.cpp:72 | `find_if` by id: None iff no envelope has the id; otherwise the position of an envelope with the id, with no earlier one having it. |
| Channel.FirstMatchUnique | my_mpi/my_mpi.cpp:72 | The first match is the only position with the id and no earlier match. |
| Channel.RemoveAt | my_mpi/my_mpi.cpp:77 | `erase` removes exactly one envelope and keeps the others in their relative order. |
| Channel.StreamAppend | my_mpi/my_mpi.cpp:36 | Appending an envelope appends its data to the stream of its own id only. |
| Channel.StreamRemoveFirst | my_mpi/my_mpi.cpp:72-77 | Removing the first match of an id removes the head of that id's stream. The data received is that head. |
| Channel.StreamRemoveOther | my_mpi/my_mpi.cpp:77 | Removing an envelope of another id leaves a stream unchanged. |
| Channel.Endpoint.constructor | my_mpi/my_mpi.cpp:31-32 | Starts with an empty inbox and no pending requests. |
| Channel.Endpoint.SendRequest | my_mpi/my_mpi.cpp:56-61 | Issues the medium request (handler 200, the data, the id) to the destination. Pending goes up by one and the inbox is unchanged. |
| Channel.Endpoint.ReceiveRequest | my_mpi/my_mpi.cpp:34-38 | Appends an envelope with the id and a copy of exactly `size` bytes to the end of the inbox. Sends exactly one reply (handler 201). |
| Channel.Endpoint.ReceiveReply | my_mpi/my_mpi.cpp:40-43 | Pending goes down by one and the inbox is unchanged. |
| Channel.Endpoint.WaitForMessage | my_mpi/my_mpi.cpp:63-80 | The search loop returns the data and size of the first envelope with the id and erases exactly it. The rest of the inbox stays in order. The wait for a match is a precondition. |
| Channel.Endpoint.Shutdown | my_mpi/my_mpi.cpp:83-88 | Requires pending == 0 (the drain) and exits with code 0. |
| Channel.ReceiveIsFifoPerTag | my_mpi/my_mpi.cpp:36-77 | A receive takes the oldest envelope of its id. It removes exactly that one from its stream and leaves the stream of every other id unchanged. |
| Channel.ArrivalAppendsToOwnStream | my_mpi/my_mpi.cpp:36 | An arrival goes to the end of its own id's stream and leaves the others unchanged. |
| TypedChannel.ToBytesLength | my_mpi/my_mpi.hpp:34-37 | The bytes of a vector number exactly `size * sizeof(T)`. |
| TypedChannel.FromBytesLength | my_mpi/my_mpi.hpp:42-45 | `recv_data` builds `bytes / sizeof(T)` elements, each `sizeof(T)` bytes long. |
| TypedChannel.FromBytesKeepsBytes | my_mpi/my_mpi.hpp:44-47 | The returned elements are the envelope's bytes in order. They are a prefix, and what is left over is less than one element. |
| TypedChannel.FromToBytes | my_mpi/my_mpi.hpp:44-47 | Reading back the bytes of a vector gives the vector. |
| TypedChannel.SendData | my_mpi/my_mpi.hpp:33-37 | Sends one request holding the vector's bytes under the id, exactly `size * sizeof(T)` bytes long. Pending goes up by one. |
| TypedChannel.RecvData | my_mpi/my_mpi.hpp:39-48 | Returns the elements read from the first envelope with the id and removes exactly that envelope. |
| TypedChannel.TransferRoundTrip | my_mpi/my_mpi.hpp:34-48 | `send_data(v)` is delivered (the request handler, then the reply handler), followed by `recv_data` with no other traffic on the id. The request is addressed to `dest`, whose endpoint is the receiver; the sender may be that same endpoint, as in a one-rank run of `my_mpi/test.cpp`. The receiver gets `v`, the sender's pending count is restored and the receiver's inbox is as before. |
| PingPong.Neighbour | micro_benchmarks/test_short.hpp:61 | The neighbour of a rank of the pair is the other rank. |
| PingPong.Accept | micro_benchmarks/test_short.hpp:34-45 | Refuses iff `recv - local_number != 2`. On acceptance the gate opens and `local_number` grows by 2. |
| PingPong.Send | micro_benchmarks/test_short.hpp:52-57 | Only with the gate open: it closes the gate and sends `local_number + 1`. |
| PingPong.InitInv | micro_benchmarks/test_short.hpp:82-83 | The start states (0, open) and (-1, closed) satisfy the alternation invariant. |
| PingPong.SendKeepsInv | micro_benchmarks/test_short.hpp:52-57 | Every send the gate allows keeps the invariant. |
| PingPong.DeliverNeverFails | micro_benchmarks/test_short.hpp:34-45 | Under the invariant the handler never throws, and delivery keeps the invariant. |
| PingPong.ExactlyOneEnabled | micro_benchmarks/test_short.hpp:52-57 | At any moment exactly one step is possible: one rank may send, or one request is in flight. Rank 0 is at most one send ahead. |
| PingPong.FinalCounters | micro_benchmarks/test_short.hpp:96-99 | After n sends each with nothing in flight, rank 0 holds `2n` (gate open) and rank 1 holds `2n-1` (gate closed). |
| PingPong.RoundsReachFinal | micro_benchmarks/test_short.hpp:88-99 | n rounds of the benchmark schedule never fail and end with counters `2n` and `2n-1`. |
| PingPong.CheckSizeMeaning | micro_benchmarks/test_medium.hpp:69-70 | The size check passes iff `0 <= message_size <= limit`. A size equal to the limit passes. A negative size fails because it becomes a huge `size_t`. |
| ShortBenchmark.ShortRank.constructor | micro_benchmarks/test_short.hpp:21-29 | `local_number`, `reply_number` and the gate all start at zero or false. |
| ShortBenchmark.ShortRank.Reset | micro_benchmarks/test_short.hpp:82-83 | Rank 0 starts with (0, open) and the other rank with (-1, closed). |
| ShortBenchmark.ShortRank.HandleRequest | micro_benchmarks/test_short.hpp:34-45 | Fails iff the number is not `local_number + 2`, and then changes nothing. Otherwise it takes the number and opens the gate. |
| ShortBenchmark.ShortRank.HandleReply | micro_benchmarks/test_short.hpp:47-50 | `reply_number` goes up by one and nothing else changes. |
| ShortBenchmark.ShortRank.SendShort | micro_benchmarks/test_short.hpp:52-57 | With the gate open: it closes the gate and sends handler 200 with `local_number + 1` to the destination. |
| ShortBenchmark.Benchmark | micro_benchmarks/test_short.hpp:59-102 | Two ranks, each request delivered at once. No handler throws. The 2n requests alternate destination and carry 1, 2, …, 2n. Rank 0 ends at `2n` and rank 1 at `2n-1`. |
| MediumBenchmark.MediumRank.constructor | micro_benchmarks/test_medium.hpp:28-34 | The counters start at zero and the gate closed, with no buffer. |
| MediumBenchmark.MediumRank.Allocate | micro_benchmarks/test_medium.hpp:74 | A fresh buffer of `message_size` bytes. |
| MediumBenchmark.MediumRank.Reset | micro_benchmarks/test_medium.hpp:95-96 | The start states. |
| MediumBenchmark.MediumRank.HandleRequest | micro_benchmarks/test_medium.hpp:39-51 | Fails iff the number is not `local_number + 2`, and then changes nothing. Otherwise it copies the `size` bytes to the front of `m::data`, opens the gate and takes the number. |
| MediumBenchmark.MediumRank.HandleReply | micro_benchmarks/test_medium.hpp:53-56 | `reply_number` goes up by one. |
| MediumBenchmark.MediumRank.SendMedium | micro_benchmarks/test_medium.hpp:59-64 | With the gate open: it closes the gate and sends the first `size` bytes of `m::data` with `local_number + 1` under handler 202. |
| MediumBenchmark.Round | micro_benchmarks/test_medium.hpp:101-104 | One send of each rank with its delivery: the counters advance by 2 and rank 0's bytes end up in both buffers. |
| MediumBenchmark.Benchmark | micro_benchmarks/test_medium.hpp:67-117 | Fails iff `message_size` is negative or above `gasnet_AMMaxMedium()` (equality passes), and then changes nothing. Otherwise both buffers have `message_size` bytes. The 2n requests alternate and carry 1…2n and rank 0's bytes. Both buffers end equal, with counters `2n` and `2n-1`. |
| LongBenchmark.LongRank.constructor | micro_benchmarks/test_long.hpp:24-33 | The counters start at zero and the gate closed, with no buffer. |
| LongBenchmark.LongRank.Allocate | micro_benchmarks/test_long.hpp:76 | A fresh buffer of `message_size` bytes. |
| LongBenchmark.LongRank.Reset | micro_benchmarks/test_long.hpp:97-98 | The start states. |
| LongBenchmark.LongRank.HandleRequest | micro_benchmarks/test_long.hpp:38-50 | Fails iff the number is not `local_number + 2`, and then changes nothing. Otherwise it copies the `size` bytes to the front of `l::data`, opens the gate and takes the number. |
| LongBenchmark.LongRank.HandleReply | micro_benchmarks/test_long.hpp:52-55 | `reply_number` goes up by one. |
| LongBenchmark.LongRank.SendLong | micro_benchmarks/test_long.hpp:57-62 | With the gate open: it closes the gate and sends the first `size` bytes of `l::data` with `local_number + 1` to the given destination address under handler 204. |
| LongBenchmark.Round | micro_benchmarks/test_long.hpp:103-106 | One send of each rank, each aimed at the other rank's segment base: the counters advance by 2 and the bytes end up in both buffers. |
| LongBenchmark.Benchmark | micro_benchmarks/test_long.hpp:65-119 | Fails iff `message_size` is negative or above `gasnet_AMMaxLongRequest()`, and then changes nothing. Otherwise every request goes to the other rank's segment base address from the segment table and carries 1…2n and rank 0's bytes. The final counters are `2n` and `2n-1`. |
| Chain1D.Derivative | stencil_1d.cpp:104-134 | Reference: the central difference at every inner point of the whole chain, with a copy of the neighbouring result at each end. |
| Chain1D.FlattenAt | stencil_1d.cpp:68 | Point j of rank i is point `i*points_per_node + j` of the whole chain. |
| Chain1D.DerivativeOnRank | stencil_1d.cpp:107-132 | The reference at a rank's point, in the terms the rank sees: its own points, the right neighbour's `front()` and the left neighbour's `back()`, or the fallback copy at the ends. |
| Chain1D.RankPart | stencil_1d.cpp:68 | Rank i's part of the reference has `points_per_node` points. |
| Chain1D.RulesGiveDerivative | stencil_1d.cpp:107-132 | A `new_chain` filled by the interior, border and fallback rules is exactly the rank's part of the reference. |
| Chain1D.RightSource | stencil_1d.cpp:113-121 | A rank requests its right border from `rank+1` iff it is not the last rank. |
| Chain1D.LeftSource | stencil_1d.cpp:124-132 | A rank requests its left border from `rank-1` iff it is not rank 0. |
| Chain1D.ChainRank.constructor | stencil_1d.cpp:35-37 | The rank's points are given; `new_chain` is zero; `total_chain` is empty; both counters are 0. |
| Chain1D.ChainRank.ComputeInterior | stencil_1d.cpp:107-110 | Writes only `new_chain[j]` for `1 <= j <= ppn-2`, each from `chain[j-1]` and `chain[j+1]`. Both borders are left unchanged. |
| Chain1D.ChainRank.RightBorder | stencil_1d.cpp:113-121 | Requests from `RightSource`. Without a right neighbour it copies `new_chain[ppn-2]` into the last point and counts one completion. |
| Chain1D.ChainRank.LeftBorder | stencil_1d.cpp:124-132 | Requests from `LeftSource`. On rank 0 it copies `new_chain[1]` into the first point and counts one completion. |
| Chain1D.ChainRank.AnswerRightBorder | stencil_1d.cpp:39-43 | Replies with `chain.front()`. |
| Chain1D.ChainRank.TakeRightBorder | stencil_1d.cpp:45-51 | Writes only the last point, from the point before it and the neighbour's value. Counts one completion. |
| Chain1D.ChainRank.AnswerLeftBorder | stencil_1d.cpp:53-57 | Replies with `chain.back()`. |
| Chain1D.ChainRank.TakeLeftBorder | stencil_1d.cpp:59-64 | Writes only the first point, from the neighbour's value and the point after it. Counts one completion. |
| Chain1D.ChainRank.AnswerCollect | stencil_1d.cpp:66-69 | Replies with the whole `new_chain` and offset `rank*points_per_node`. |
| Chain1D.ChainRank.ResizeTotal | stencil_1d.cpp:140 | `resize` to `points_per_node*nodes`: old points up to the new length stay and added points are zero. |
| Chain1D.ChainRank.TakeCollect | stencil_1d.cpp:71-75 | Copies the values into `total_chain` at the offset, changes nothing else, and counts one reply. |
| Chain1D.ChainRank.EndIteration | stencil_1d.cpp:161-163 | Both counters go to 0 and `new_chain` is zero-filled. |
| Chain1D.ComputeRank | stencil_1d.cpp:106-134 | One rank's compute phase, with replies delivered: each border is completed once, by its fallback or by a reply, so `computed` goes up by exactly 2, and `new_chain` becomes its part of the reference. |
| Chain1D.ComputePhase | stencil_1d.cpp:106-134 | On every rank, including the edge ranks, `computed == 2` (the wait holds) and `new_chain` is its part of the reference. |
| Chain1D.CollectFrom | stencil_1d.cpp:144 | One collect request and its reply: rank k's block lands at offset `k*ppn`, after the blocks already written. |
| Chain1D.GatherPhase | stencil_1d.cpp:138-147 | After `nodes` replies `num_collected == nodes`, and `total_chain` is every rank's `new_chain` in rank order. |
| Chain1D.EndPhase | stencil_1d.cpp:159-163 | Every rank's counters are 0 and `new_chain` is zero, with `total_chain` unchanged. |
| Chain1D.Iteration | stencil_1d.cpp:104-164 | After one iteration rank 0's `total_chain` is the derivative of the whole chain, and all counters and `new_chain`s are reset. |
| Chain1D.MainLoop | stencil_1d.cpp:104-164 | After any positive number of iterations the gathered result is the derivative of the whole chain, with all counters 0. |
| Chain1D.PartsMakeDerivative | stencil_1d.cpp:138-147 | The rank parts of the reference, placed one after another, form the reference. |

## Left out

- GASNet init, attach and exit, the Active Message calls themselves, barriers, and `std::atomic`: delivery is modelled as sequential handler calls and each `GASNET_BLOCKUNTIL` as a precondition. Handler reentrancy, exceptions across the transport, and concurrent interleavings beyond the two-rank world of `PingPong` are not modelled.
- The rank grid from `factor()`: its definition is not part of this model. `Px` and `Py` are parameters with `id < Px*Py`.
- The argument reads before the parameter checks (`stencil/gasnet/stencil.c:164-165`): `main` calls `atoi(*++argv)` twice before `errorCheckParameters`. With `argc` of 1 or 2, one of those calls receives the terminating null entry of `argv`, which is undefined behaviour in C. So the usage message is reliably reached only for `argc >= 4`. The model covers `errorCheckParameters` on its own, with `iterations` and `n` as given values, and does not model the undefined reads.
- The `#if !STAR` exit of `errorCheckParameters`: the model describes the star build, where the checks run.
- Floating-point numerics. These are not modelled:
  - the weighted stencil update, the weights, and the `+= 1.0` refresh;
  - the norm and reductions, and result validation;
  - `dx` and `func` of the 1D chain;
  - the `(int)sum == -10` count.

  The 2D stencil only moves its grid values and never computes with them. The chain quotient `(r - l) / (2 dx)` is a parameter, and the initial chain is a parameter.
- Timing and statistics: `mcl.hpp`, `result.hpp`, the chrono timers and warm-up timing.
- Channel.Endpoint.SendRequest, TypedChannel.TransferRoundTrip: the `"nullptr error"` message of `send_gasnet_request` (my_mpi/my_mpi.cpp:58) is output and is not modelled; it fires, for instance, for an empty vector whose `data()` is null, and the request is sent anyway. `send_gasnet_request` never compares `size` with `gasnet_AMMaxMedium()`, so the program delivers a payload only within that limit, while the model proves the round trip for every size.
- Drivers: `pingpong_gasnet.cpp`, `pingpong_mpi.cpp`, `my_mpi/test.cpp` and the other example programs.
- `malloc` and `new` failures, `delete[]` of the benchmark buffers (test_medium.hpp:114, test_long.hpp:116), and the envelope leak of my_mpi.cpp:25: the model copies byte sequences and does not track heap ownership. `reinterpret_cast` aliasing becomes explicit conversion between elements and bytes: each element is its `sizeof(T)`-byte representation.
- The reply path under `DO_REPLY`: only the reply handlers' counter increments are modelled, so the reply id that test_long.hpp:48 uses is not. The `DO_WARMUP` loops are not modelled either.
- 32-bit overflow of the `int` counters: 2N stays far below it for N = 500.
- The contents of a freshly allocated buffer: they are unspecified in the model as in the source. The benchmarks prove that both buffers end equal to rank 0's initial bytes.
- ShortBenchmark.Benchmark, MediumBenchmark.Benchmark, LongBenchmark.Benchmark: each is proved for a schedule in which every request is delivered as soon as it is sent. `PingPong.ExactlyOneEnabled` shows that the gate allows no other order.
- Chain1D.ChainRank: `chain` is an immutable sequence field rather than a mutable vector, because the source writes it only in the set-up before the iterations (`stencil_1d.cpp:35` and `stencil_1d.cpp:98-102`); the constructor takes the set-up result as its argument. Writes to it, and any aliasing of it, are therefore not modelled.
- Time stepping of the chain: the source never copies `new_chain` back into `chain`, so every iteration computes the same result, and `Chain1D.MainLoop` proves exactly that.
- The stencil's message-size tier: the thresholds are strict, as the code has them, and a size equal to `max_medium` goes long.
- HaloExchange.Tile.Deliver: takes each payload as a value, so it does not capture where long requests land. Every long request to rank r lands at `seginfo_table[r].addr`, the base of r's segment, whatever its direction (`stencil/gasnet/stencil.c:262`, `283`, `306`, `327`). `HaloExchange.OutgoingMeaning` states this: `remoteAddr` is `segAddr[dest]`. So when two neighbours of r both send long requests, the second can overwrite the first in r's segment before the handler has copied it out, and the model does not capture that overwrite.
- The segment size of the stencil (`stencil/gasnet/stencil.c:146-152`): the segment is 64 KiB, but `msg_size` is compared only with `gasnet_AMMaxLongRequest()`. A long message larger than the segment is therefore not rejected. The model has no segment size and does not capture this either.
- StencilGrid.IndexInBounds, HaloExchange.CellIndexInRange: these do not model the 32-bit `int` arithmetic of `INDEXIN` (`stencil/gasnet/stencil.c:23`). The in-array is allocated with a `long` size (`stencil/gasnet/stencil.c:462`), but its indices are computed in `int`. `CellIndex`, `IndexIn` and the other index functions use unbounded integers, so they match the source only while `(width+2R)*(height+2R)` is at most 2^31-1.
