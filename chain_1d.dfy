/** The 1D chain of stencil_1d.cpp: every rank owns points_per_node consecutive points of a
    global chain, computes the central difference at its inner points, gets the value beyond
    each border from the neighbouring rank by a request and its reply (or, at the two ends of the
    global chain, copies the next inner result), and rank 0 gathers every rank's results at
    offset rank * points_per_node. The difference quotient (right - left) / (2 dx) is left
    abstract as a function of the two neighbouring values. */
module Chain1D {
  import opened Outcomes
  import opened Buffers

  /** points_per_node. */
  const PointsPerNode: nat := 20

  /** The difference quotient of the values left and right of a point. */
  type Quotient = (real, real) -> real

  /** The reply of req_collect_chain: the sender's new_chain and where it goes in total_chain. */
  datatype CollectMsg = CollectMsg(values: seq<real>, offset: nat)

  // ---------------------------------------------------------------------------
  // The sequential reference: the derivative of the whole chain
  // ---------------------------------------------------------------------------

  /** The chains of all ranks one after another. */
  function Flatten(cs: seq<seq<real>>): seq<real> {
    if cs == [] then [] else cs[0] + Flatten(cs[1..])
  }

  /** Every rank holds points_per_node points. */
  predicate Shaped(cs: seq<seq<real>>) {
    forall i :: 0 <= i < |cs| ==> |cs[i]| == PointsPerNode
  }

  /** The central difference at an inner point x of g. */
  function Central(g: seq<real>, q: Quotient, x: nat): real
    requires 1 <= x < |g| - 1
  {
    q(g[x - 1], g[x + 1])
  }

  /** The derivative of the whole chain: the central difference at every inner point, and at
      each end a copy of the result next to it. */
  function Derivative(g: seq<real>, q: Quotient): (d: seq<real>)
    requires |g| >= 3
    ensures |d| == |g|
    ensures forall x :: 1 <= x < |g| - 1 ==> d[x] == Central(g, q, x)
    ensures d[0] == d[1] && d[|g| - 1] == d[|g| - 2]
  {
    seq(|g|, x requires 0 <= x < |g| =>
      if x == 0 then Central(g, q, 1)
      else if x == |g| - 1 then Central(g, q, |g| - 2)
      else Central(g, q, x))
  }

  lemma {:induction false} FlattenLength(cs: seq<seq<real>>)
    requires Shaped(cs)
    ensures |Flatten(cs)| == |cs| * PointsPerNode
  {
    if cs != [] {
      FlattenLength(cs[1..]);
    }
  }

  /** Point j of rank i is point i * points_per_node + j of the whole chain. */
  lemma {:induction false} FlattenAt(cs: seq<seq<real>>, i: nat, j: nat)
    requires Shaped(cs) && i < |cs| && j < PointsPerNode
    ensures |Flatten(cs)| == |cs| * PointsPerNode
    ensures Flatten(cs)[i * PointsPerNode + j] == cs[i][j]
  {
    FlattenLength(cs);
    if i > 0 {
      FlattenAt(cs[1..], i - 1, j);
      FlattenLength(cs[1..]);
    }
  }

  lemma {:induction false} FlattenSnoc(cs: seq<seq<real>>, c: seq<real>)
    ensures Flatten(cs + [c]) == Flatten(cs) + c
  {
    if cs == [] {
      assert [] + [c] == [c];
    } else {
      assert (cs + [c])[1..] == cs[1..] + [c];
      FlattenSnoc(cs[1..], c);
    }
  }

  /** What rank i's new_chain must hold at point j, put in the terms each rank sees: its own
      points, the first point of the rank to its right and the last point of the rank to its left,
      or at the ends of the chain the result next to the end. */
  lemma DerivativeOnRank(cs: seq<seq<real>>, q: Quotient, i: nat, j: nat)
    requires Shaped(cs) && i < |cs| && j < PointsPerNode
    ensures |Flatten(cs)| == |cs| * PointsPerNode
    ensures var d := Derivative(Flatten(cs), q);
      d[i * PointsPerNode + j] ==
        if 1 <= j < PointsPerNode - 1 then q(cs[i][j - 1], cs[i][j + 1])
        else if j == PointsPerNode - 1 then
          (if i < |cs| - 1 then q(cs[i][j - 1], cs[i + 1][0]) else q(cs[i][j - 2], cs[i][j]))
        else
          (if i > 0 then q(cs[i - 1][PointsPerNode - 1], cs[i][1]) else q(cs[i][0], cs[i][2]))
  {
    FlattenLength(cs);
    if 1 <= j < PointsPerNode - 1 {
      DerivativeInside(cs, q, i, j);
    } else if j == PointsPerNode - 1 {
      DerivativeAtRightBorder(cs, q, i);
    } else {
      DerivativeAtLeftBorder(cs, q, i);
    }
  }

  lemma DerivativeInside(cs: seq<seq<real>>, q: Quotient, i: nat, j: nat)
    requires Shaped(cs) && i < |cs| && 1 <= j < PointsPerNode - 1
    ensures |Flatten(cs)| == |cs| * PointsPerNode
    ensures Derivative(Flatten(cs), q)[i * PointsPerNode + j] == q(cs[i][j - 1], cs[i][j + 1])
  {
    FlattenAt(cs, i, j - 1);
    FlattenAt(cs, i, j + 1);
    assert Central(Flatten(cs), q, i * PointsPerNode + j) == q(cs[i][j - 1], cs[i][j + 1]);
  }

  lemma DerivativeAtRightBorder(cs: seq<seq<real>>, q: Quotient, i: nat)
    requires Shaped(cs) && i < |cs|
    ensures |Flatten(cs)| == |cs| * PointsPerNode
    ensures var j := PointsPerNode - 1;
      Derivative(Flatten(cs), q)[i * PointsPerNode + j] ==
        if i < |cs| - 1 then q(cs[i][j - 1], cs[i + 1][0]) else q(cs[i][j - 2], cs[i][j])
  {
    var j := PointsPerNode - 1;
    FlattenAt(cs, i, j - 1);
    if i < |cs| - 1 {
      FlattenAt(cs, i + 1, 0);
      assert Central(Flatten(cs), q, i * PointsPerNode + j) == q(cs[i][j - 1], cs[i + 1][0]);
    } else {
      FlattenAt(cs, i, j - 2);
      FlattenAt(cs, i, j);
      assert Central(Flatten(cs), q, i * PointsPerNode + j - 1) == q(cs[i][j - 2], cs[i][j]);
    }
  }

  lemma DerivativeAtLeftBorder(cs: seq<seq<real>>, q: Quotient, i: nat)
    requires Shaped(cs) && i < |cs|
    ensures |Flatten(cs)| == |cs| * PointsPerNode
    ensures Derivative(Flatten(cs), q)[i * PointsPerNode] ==
      if i > 0 then q(cs[i - 1][PointsPerNode - 1], cs[i][1]) else q(cs[i][0], cs[i][2])
  {
    FlattenAt(cs, i, 1);
    if i > 0 {
      FlattenAt(cs, i - 1, PointsPerNode - 1);
      assert Central(Flatten(cs), q, i * PointsPerNode) == q(cs[i - 1][PointsPerNode - 1], cs[i][1]);
    } else {
      FlattenAt(cs, i, 0);
      FlattenAt(cs, i, 2);
      assert Central(Flatten(cs), q, 1) == q(cs[i][0], cs[i][2]);
    }
  }

  /** The part of the derivative that belongs to rank i. */
  function RankPart(cs: seq<seq<real>>, q: Quotient, i: nat): (p: seq<real>)
    requires Shaped(cs) && i < |cs|
    ensures |p| == PointsPerNode
  {
    FlattenLength(cs);
    Derivative(Flatten(cs), q)[i * PointsPerNode .. i * PointsPerNode + PointsPerNode]
  }

  /** The rules by which rank k fills its new_chain nc: the quotient of its own neighbouring points
      inside, at the right border the quotient with the right neighbour's first point (or, on the
      last rank, a copy of the point before), at the left border the quotient with the left
      neighbour's last point (or, on rank 0, a copy of the point after). */
  ghost predicate FollowsRules(cs: seq<seq<real>>, q: Quotient, k: nat, nc: seq<real>)
    requires Shaped(cs) && k < |cs|
  {
    && |nc| == PointsPerNode
    && (forall j :: 1 <= j < PointsPerNode - 1 ==> nc[j] == q(cs[k][j - 1], cs[k][j + 1]))
    && nc[PointsPerNode - 1] == (if k < |cs| - 1 then q(cs[k][PointsPerNode - 2], cs[k + 1][0]) else nc[PointsPerNode - 2])
    && nc[0] == (if k > 0 then q(cs[k - 1][PointsPerNode - 1], cs[k][1]) else nc[1])
  }

  /** Filling new_chain by those rules gives exactly the rank's part of the derivative of the whole chain. */
  lemma RulesGiveDerivative(cs: seq<seq<real>>, q: Quotient, k: nat, nc: seq<real>)
    requires Shaped(cs) && k < |cs| && FollowsRules(cs, q, k, nc)
    ensures nc == RankPart(cs, q, k)
  {
    forall j | 0 <= j < PointsPerNode
      ensures nc[j] == RankPart(cs, q, k)[j]
    {
      DerivativeOnRank(cs, q, k, j);
      if j == PointsPerNode - 1 {
        DerivativeOnRank(cs, q, k, j - 1);
      } else if j == 0 {
        DerivativeOnRank(cs, q, k, 1);
      }
    }
  }

  /** The border a rank requests from its right neighbour, if it has one (the last rank has none). */
  function RightSource(rank: nat, nodes: nat): (r: Option<nat>)
    requires rank < nodes
    ensures r.Some? <==> rank < nodes - 1
    ensures r.Some? ==> r.value == rank + 1 && r.value < nodes
  {
    if rank < nodes - 1 then Some(rank + 1) else None
  }

  /** The border a rank requests from its left neighbour, if it has one (rank 0 has none). */
  function LeftSource(rank: nat): (r: Option<nat>)
    ensures r.Some? <==> rank > 0
    ensures r.Some? ==> r.value == rank - 1
  {
    if rank > 0 then Some(rank - 1) else None
  }

  // ---------------------------------------------------------------------------
  // The state of one rank
  // ---------------------------------------------------------------------------

  class ChainRank {
    const rank: nat
    const nodes: nat
    const quotient: Quotient
    /** chain, which is never written after the set-up, and new_chain, points_per_node values each. */
    const chain: seq<real>
    const newChain: array<real>
    /** total_chain, meaningful on rank 0. */
    var totalChain: array<real>
    var computed: nat
    var numCollected: nat

    /** The fixed shape of the rank; it mentions only fields that never change. */
    ghost predicate Valid() {
      && rank < nodes
      && |chain| == PointsPerNode && newChain.Length == PointsPerNode
    }

    /** The globals after the set-up loop: the rank's points (their values come from the initial
        function, left abstract), new_chain zero, total_chain empty, both counters zero. */
    constructor (r: nat, n: nat, q: Quotient, init: seq<real>)
      requires r < n && |init| == PointsPerNode
      ensures Valid() && rank == r && nodes == n && quotient == q
      ensures chain == init && newChain[..] == seq(PointsPerNode, _ => 0.0)
      ensures totalChain.Length == 0 && computed == 0 && numCollected == 0
      ensures fresh(newChain) && fresh(totalChain)
    {
      rank, nodes, quotient := r, n, q;
      chain := init;
      newChain := new real[PointsPerNode](_ => 0.0);
      totalChain := new real[0];
      computed, numCollected := 0, 0;
    }

    /** The inner loop: point j for 1 <= j < points_per_node - 1 gets the quotient of chain[j-1]
        and chain[j+1]; the two border points are not written. */
    method ComputeInterior()
      requires Valid()
      modifies newChain
      ensures forall j :: 0 <= j < PointsPerNode ==>
        newChain[j] == if 1 <= j < PointsPerNode - 1 then quotient(chain[j - 1], chain[j + 1]) else old(newChain[j])
    {
      var j := 1;
      while j < PointsPerNode - 1
        invariant 1 <= j <= PointsPerNode - 1
        invariant forall x :: 0 <= x < PointsPerNode ==>
          newChain[x] == if 1 <= x < j then quotient(chain[x - 1], chain[x + 1]) else old(newChain[x])
      {
        newChain[j] := quotient(chain[j - 1], chain[j + 1]);
        j := j + 1;
      }
    }

    /** The right border: request it from rank + 1 (handler 200), or on the last rank copy
        new_chain[points_per_node - 2] into the last point and count the completion. */
    method RightBorder() returns (dest: Option<nat>)
      requires Valid()
      modifies this, newChain
      ensures dest == RightSource(rank, nodes)
      ensures dest.Some? ==> newChain[..] == old(newChain[..]) && computed == old(computed)
      ensures dest.None? ==> newChain[..] == old(newChain[..])[PointsPerNode - 1 := old(newChain[PointsPerNode - 2])]
      ensures dest.None? ==> computed == old(computed) + 1
      ensures totalChain == old(totalChain) && numCollected == old(numCollected)
    {
      if rank < nodes - 1 {
        dest := Some(rank + 1);
      } else {
        newChain[PointsPerNode - 1] := newChain[PointsPerNode - 2];
        computed := computed + 1;
        dest := None;
      }
    }

    /** The left border: request it from rank - 1 (handler 202), or on rank 0 copy new_chain[1]
        into the first point and count the completion. */
    method LeftBorder() returns (dest: Option<nat>)
      requires Valid()
      modifies this, newChain
      ensures dest == LeftSource(rank)
      ensures dest.Some? ==> newChain[..] == old(newChain[..]) && computed == old(computed)
      ensures dest.None? ==> newChain[..] == old(newChain[..])[0 := old(newChain[1])]
      ensures dest.None? ==> computed == old(computed) + 1
      ensures totalChain == old(totalChain) && numCollected == old(numCollected)
    {
      if rank > 0 {
        dest := Some(rank - 1);
      } else {
        newChain[0] := newChain[1];
        computed := computed + 1;
        dest := None;
      }
    }

    /** req_compute_right_border: reply (handler 201) with the first point of the chain. */
    method AnswerRightBorder() returns (el: real)
      requires Valid()
      ensures el == chain[0]
    {
      el := chain[0];
    }

    /** rep_compute_right_border: the last point gets the quotient of the point before it and
        the neighbour's first point; one completion more. */
    method TakeRightBorder(r: real)
      requires Valid()
      modifies this, newChain
      ensures newChain[..] == old(newChain[..])[PointsPerNode - 1 := quotient(chain[PointsPerNode - 2], r)]
      ensures computed == old(computed) + 1
      ensures totalChain == old(totalChain) && numCollected == old(numCollected)
    {
      newChain[PointsPerNode - 1] := quotient(chain[PointsPerNode - 2], r);
      computed := computed + 1;
    }

    /** req_compute_left_border: reply (handler 203) with the last point of the chain. */
    method AnswerLeftBorder() returns (el: real)
      requires Valid()
      ensures el == chain[PointsPerNode - 1]
    {
      el := chain[PointsPerNode - 1];
    }

    /** rep_compute_left_border: the first point gets the quotient of the neighbour's last point
        and the point after it; one completion more. */
    method TakeLeftBorder(l: real)
      requires Valid()
      modifies this, newChain
      ensures newChain[..] == old(newChain[..])[0 := quotient(l, chain[1])]
      ensures computed == old(computed) + 1
      ensures totalChain == old(totalChain) && numCollected == old(numCollected)
    {
      newChain[0] := quotient(l, chain[1]);
      computed := computed + 1;
    }

    /** req_collect_chain: reply (handler 205) with the whole of new_chain and the offset
        rank * points_per_node. */
    method AnswerCollect() returns (m: CollectMsg)
      requires Valid()
      ensures m.values == newChain[..] && m.offset == rank * PointsPerNode
    {
      m := CollectMsg(newChain[..], rank * PointsPerNode);
    }

    /** total_chain.resize(points_per_node * nodes): the old points up to the new length stay,
        added points are zero. */
    method ResizeTotal()
      requires Valid()
      modifies this
      ensures totalChain.Length == PointsPerNode * nodes
      ensures totalChain == old(totalChain) || fresh(totalChain)
      ensures forall x :: 0 <= x < totalChain.Length ==>
        totalChain[x] == if x < old(totalChain.Length) then old(totalChain[x]) else 0.0
      ensures computed == old(computed) && numCollected == old(numCollected)
    {
      var n := PointsPerNode * nodes;
      if totalChain.Length != n {
        var prev := totalChain;
        totalChain := new real[n](x reads prev requires 0 <= x < n => if x < prev.Length then prev[x] else 0.0);
      }
    }

    /** rep_collect_chain: copy the values to total_chain at the offset; one reply more. */
    method TakeCollect(values: seq<real>, offset: nat)
      requires Valid() && offset + |values| <= totalChain.Length
      modifies this, totalChain
      ensures totalChain == old(totalChain) && totalChain[..] == Splice(old(totalChain[..]), offset, values)
      ensures numCollected == old(numCollected) + 1 && computed == old(computed)
    {
      CopyInto(totalChain, offset, values);
      numCollected := numCollected + 1;
    }

    /** The end of an iteration: both counters back to zero and new_chain zero-filled. */
    method EndIteration()
      requires Valid()
      modifies this, newChain
      ensures computed == 0 && numCollected == 0 && totalChain == old(totalChain)
      ensures newChain[..] == seq(PointsPerNode, _ => 0.0)
    {
      computed := 0;
      numCollected := 0;
      Fill(newChain, 0.0);
    }
  }

  // ---------------------------------------------------------------------------
  // All ranks together: one iteration of the main loop, delivered step by step
  // ---------------------------------------------------------------------------

  /** ranks[i] is rank i of |ranks|, all with the same quotient, and no two of them share a
      buffer. */
  ghost predicate Cluster(ranks: seq<ChainRank>) {
    && |ranks| >= 1
    && (forall i :: 0 <= i < |ranks| ==>
          && ranks[i].Valid() && ranks[i].rank == i && ranks[i].nodes == |ranks|
          && ranks[i].quotient == ranks[0].quotient)
    && (forall i, j :: 0 <= i < |ranks| && 0 <= j < |ranks| && i != j ==>
          ranks[i].newChain != ranks[j].newChain)
  }

  /** Rank 0's total_chain is none of the ranks' new_chain. */
  ghost predicate RootApart(ranks: seq<ChainRank>)
    requires |ranks| >= 1
    reads ranks[0]
  {
    forall i :: 0 <= i < |ranks| ==> ranks[0].totalChain != ranks[i].newChain
  }

  /** The points of every rank, as cs records them. */
  ghost predicate Points(ranks: seq<ChainRank>, cs: seq<seq<real>>)
  {
    |cs| == |ranks| && forall i :: 0 <= i < |ranks| ==> ranks[i].chain == cs[i]
  }

  /** Rank k's part of the compute phase: the inner loop, then the right and the left border, each
      reply handled as soon as it is asked for. Its new_chain ends up as its part of the derivative
      of the whole chain, with two completions counted. */
  method ComputeRank(ranks: seq<ChainRank>, ghost cs: seq<seq<real>>, k: nat)
    requires Cluster(ranks) && Points(ranks, cs) && k < |ranks|
    modifies ranks[k], ranks[k].newChain
    ensures Points(ranks, cs) && Shaped(cs)
    ensures ranks[k].newChain[..] == RankPart(cs, ranks[0].quotient, k)
    ensures ranks[k].computed == old(ranks[k].computed) + 2
    ensures ranks[k].numCollected == old(ranks[k].numCollected) && ranks[k].totalChain == old(ranks[k].totalChain)
  {
    var me := ranks[k];
    var q := ranks[0].quotient;
    assert Shaped(cs) by {
      forall i | 0 <= i < |cs|
        ensures |cs[i]| == PointsPerNode
      {
        assert ranks[i].chain == cs[i];
      }
    }
    me.ComputeInterior();
    var right := me.RightBorder();
    if right.Some? {
      var el := ranks[right.value].AnswerRightBorder();
      me.TakeRightBorder(el);
    }
    var left := me.LeftBorder();
    if left.Some? {
      var el := ranks[left.value].AnswerLeftBorder();
      me.TakeLeftBorder(el);
    }
    assert FollowsRules(cs, q, k, me.newChain[..]);
    RulesGiveDerivative(cs, q, k, me.newChain[..]);
  }

  /** The compute phase on every rank, up to GASNET_BLOCKUNTIL(computed == 2): every rank's wait
      is satisfied, and every rank's new_chain holds its part of the derivative of the whole chain. */
  method ComputePhase(ranks: seq<ChainRank>, ghost cs: seq<seq<real>>)
    requires Cluster(ranks) && Points(ranks, cs)
    requires forall i :: 0 <= i < |ranks| ==> ranks[i].computed == 0
    modifies set i | 0 <= i < |ranks| :: ranks[i]
    modifies set i | 0 <= i < |ranks| :: ranks[i].newChain
    ensures Points(ranks, cs) && Shaped(cs)
    ensures forall i :: 0 <= i < |ranks| ==>
      ranks[i].computed == 2 && ranks[i].newChain[..] == RankPart(cs, ranks[0].quotient, i)
    ensures forall i :: 0 <= i < |ranks| ==>
      ranks[i].numCollected == old(ranks[i].numCollected) && ranks[i].totalChain == old(ranks[i].totalChain)
  {
    var k := 0;
    while k < |ranks|
      invariant 0 <= k <= |ranks|
      invariant Points(ranks, cs)
      invariant forall i :: 0 <= i < k ==>
        ranks[i].computed == 2 && ranks[i].newChain[..] == RankPart(cs, ranks[0].quotient, i)
      invariant forall i :: k <= i < |ranks| ==> ranks[i].computed == 0
      invariant forall i :: 0 <= i < |ranks| ==>
        ranks[i].numCollected == old(ranks[i].numCollected) && ranks[i].totalChain == old(ranks[i].totalChain)
    {
      ComputeRank(ranks, cs, k);
      k := k + 1;
    }
  }

  /** One collect request of rank 0 to rank k and its reply: rank k's new_chain lands at
      offset k * points_per_node, right after what the earlier replies wrote. */
  method CollectFrom(ranks: seq<ChainRank>, ghost cs: seq<seq<real>>, ghost parts: seq<seq<real>>, k: nat)
    requires Cluster(ranks) && RootApart(ranks) && Points(ranks, cs) && Shaped(parts) && |parts| == |ranks| && k < |ranks|
    requires forall i :: 0 <= i < |ranks| ==> ranks[i].newChain[..] == parts[i]
    requires ranks[0].totalChain.Length == PointsPerNode * |ranks|
    requires |Flatten(parts[..k])| == k * PointsPerNode
    requires ranks[0].totalChain[..k * PointsPerNode] == Flatten(parts[..k])
    modifies ranks[0], ranks[0].totalChain
    ensures RootApart(ranks) && Points(ranks, cs)
    ensures forall i :: 0 <= i < |ranks| ==> ranks[i].newChain[..] == parts[i]
    ensures ranks[0].totalChain == old(ranks[0].totalChain)
    ensures ranks[0].numCollected == old(ranks[0].numCollected) + 1 && ranks[0].computed == old(ranks[0].computed)
    ensures |Flatten(parts[..k + 1])| == (k + 1) * PointsPerNode
    ensures ranks[0].totalChain[..(k + 1) * PointsPerNode] == Flatten(parts[..k + 1])
  {
    var root := ranks[0];
    var m := ranks[k].AnswerCollect();
    ghost var before := root.totalChain[..];
    root.TakeCollect(m.values, m.offset);
    assert parts[..k + 1] == parts[..k] + [parts[k]];
    FlattenSnoc(parts[..k], parts[k]);
    assert root.totalChain[..(k + 1) * PointsPerNode] == before[..k * PointsPerNode] + parts[k];
  }

  /** The gather on rank 0: resize total_chain, ask every rank (itself included) for its
      new_chain and copy each reply to its offset, until num_collected == nodes. total_chain is
      then every rank's new_chain in rank order. */
  method GatherPhase(ranks: seq<ChainRank>, ghost cs: seq<seq<real>>, ghost parts: seq<seq<real>>)
    requires Cluster(ranks) && RootApart(ranks) && Points(ranks, cs) && |parts| == |ranks| && ranks[0].numCollected == 0
    requires forall i :: 0 <= i < |ranks| ==> ranks[i].newChain[..] == parts[i]
    modifies ranks[0], ranks[0].totalChain
    ensures RootApart(ranks) && Points(ranks, cs) && Shaped(parts)
    ensures forall i :: 0 <= i < |ranks| ==> ranks[i].newChain[..] == parts[i]
    ensures ranks[0].numCollected == |ranks| && ranks[0].totalChain[..] == Flatten(parts)
    ensures fresh(ranks[0].totalChain) || ranks[0].totalChain == old(ranks[0].totalChain)
    ensures ranks[0].computed == old(ranks[0].computed)
  {
    var root := ranks[0];
    assert Shaped(parts) by {
      forall i | 0 <= i < |parts|
        ensures |parts[i]| == PointsPerNode
      {
        assert ranks[i].newChain[..] == parts[i];
      }
    }
    root.ResizeTotal();
    FlattenLength(parts);
    var k := 0;
    while k < |ranks|
      invariant 0 <= k <= |ranks|
      invariant RootApart(ranks) && Points(ranks, cs) && root.numCollected == k && root.computed == old(root.computed)
      invariant root.totalChain.Length == PointsPerNode * |ranks|
      invariant forall i :: 0 <= i < |ranks| ==> ranks[i].newChain[..] == parts[i]
      invariant fresh(root.totalChain) || root.totalChain == old(root.totalChain)
      invariant |Flatten(parts[..k])| == k * PointsPerNode
      invariant root.totalChain[..k * PointsPerNode] == Flatten(parts[..k])
    {
      CollectFrom(ranks, cs, parts, k);
      k := k + 1;
    }
    assert parts[..|ranks|] == parts;
    assert root.totalChain[..] == root.totalChain[..|ranks| * PointsPerNode];
  }

  /** The reset at the end of an iteration on every rank. */
  method EndPhase(ranks: seq<ChainRank>, ghost cs: seq<seq<real>>)
    requires Cluster(ranks) && RootApart(ranks) && Points(ranks, cs)
    modifies set i | 0 <= i < |ranks| :: ranks[i]
    modifies set i | 0 <= i < |ranks| :: ranks[i].newChain
    ensures RootApart(ranks) && Points(ranks, cs)
    ensures ranks[0].totalChain[..] == old(ranks[0].totalChain[..])
    ensures forall i :: 0 <= i < |ranks| ==>
      && ranks[i].computed == 0 && ranks[i].numCollected == 0
      && ranks[i].newChain[..] == seq(PointsPerNode, _ => 0.0)
      && ranks[i].totalChain == old(ranks[i].totalChain)
  {
    var k := 0;
    while k < |ranks|
      invariant 0 <= k <= |ranks|
      invariant RootApart(ranks) && Points(ranks, cs)
      invariant ranks[0].totalChain[..] == old(ranks[0].totalChain[..])
      invariant forall i :: 0 <= i < k ==>
        && ranks[i].computed == 0 && ranks[i].numCollected == 0
        && ranks[i].newChain[..] == seq(PointsPerNode, _ => 0.0)
      invariant forall i :: 0 <= i < |ranks| ==> ranks[i].totalChain == old(ranks[i].totalChain)
    {
      ranks[k].EndIteration();
      k := k + 1;
    }
  }

  /** One iteration of the main loop on all ranks: after the gather rank 0's total_chain is the
      derivative of the whole chain, and the iteration ends with all counters zero and every
      new_chain zero-filled, ready for the next one. */
  method Iteration(ranks: seq<ChainRank>, ghost cs: seq<seq<real>>)
    requires Cluster(ranks) && RootApart(ranks) && Points(ranks, cs)
    requires forall i :: 0 <= i < |ranks| ==> ranks[i].computed == 0 && ranks[i].numCollected == 0
    modifies set i | 0 <= i < |ranks| :: ranks[i]
    modifies set i | 0 <= i < |ranks| :: ranks[i].newChain
    modifies ranks[0].totalChain
    ensures RootApart(ranks) && Points(ranks, cs) && Shaped(cs)
    ensures |Flatten(cs)| >= 3 && ranks[0].totalChain[..] == Derivative(Flatten(cs), ranks[0].quotient)
    ensures fresh(ranks[0].totalChain) || ranks[0].totalChain == old(ranks[0].totalChain)
    ensures forall i :: 0 <= i < |ranks| ==>
      && ranks[i].computed == 0 && ranks[i].numCollected == 0
      && ranks[i].newChain[..] == seq(PointsPerNode, _ => 0.0)
  {
    var q := ranks[0].quotient;
    ComputePhase(ranks, cs);
    ghost var parts := seq(|ranks|, i requires 0 <= i < |ranks| => RankPart(cs, q, i));
    GatherPhase(ranks, cs, parts);
    FlattenLength(cs);
    PartsMakeDerivative(cs, q, parts);
    EndPhase(ranks, cs);
  }

  /** The main loop: the given number of iterations, each leaving the same gathered result. */
  method MainLoop(ranks: seq<ChainRank>, ghost cs: seq<seq<real>>, iterations: nat)
    requires Cluster(ranks) && RootApart(ranks) && Points(ranks, cs)
    requires forall i :: 0 <= i < |ranks| ==> ranks[i].computed == 0 && ranks[i].numCollected == 0
    modifies set i | 0 <= i < |ranks| :: ranks[i]
    modifies set i | 0 <= i < |ranks| :: ranks[i].newChain
    modifies ranks[0].totalChain
    ensures RootApart(ranks) && Points(ranks, cs) && Shaped(cs) && |Flatten(cs)| >= 3
    ensures iterations > 0 ==> ranks[0].totalChain[..] == Derivative(Flatten(cs), ranks[0].quotient)
    ensures forall i :: 0 <= i < |ranks| ==> ranks[i].computed == 0 && ranks[i].numCollected == 0
  {
    assert Shaped(cs) by {
      forall i | 0 <= i < |cs|
        ensures |cs[i]| == PointsPerNode
      {
        assert ranks[i].chain == cs[i];
      }
    }
    FlattenLength(cs);
    var iter := 0;
    while iter < iterations
      invariant 0 <= iter <= iterations
      invariant RootApart(ranks) && Points(ranks, cs)
      invariant fresh(ranks[0].totalChain) || ranks[0].totalChain == old(ranks[0].totalChain)
      invariant iter > 0 ==> ranks[0].totalChain[..] == Derivative(Flatten(cs), ranks[0].quotient)
      invariant forall i :: 0 <= i < |ranks| ==> ranks[i].computed == 0 && ranks[i].numCollected == 0
    {
      Iteration(ranks, cs);
      iter := iter + 1;
    }
  }

  /** The rank parts of the derivative, one after another, are the derivative. */
  lemma PartsMakeDerivative(cs: seq<seq<real>>, q: Quotient, parts: seq<seq<real>>)
    requires Shaped(cs) && |cs| >= 1 && |parts| == |cs|
    requires forall i :: 0 <= i < |cs| ==> parts[i] == RankPart(cs, q, i)
    ensures |Flatten(cs)| >= 3 && Flatten(parts) == Derivative(Flatten(cs), q)
  {
    FlattenLength(cs);
    var d := Derivative(Flatten(cs), q);
    assert Shaped(parts);
    FlattenLength(parts);
    forall x | 0 <= x < |d|
      ensures Flatten(parts)[x] == d[x]
    {
      var i, j := x / PointsPerNode, x % PointsPerNode;
      assert x == i * PointsPerNode + j;
      FlattenAt(parts, i, j);
      RankPartAt(cs, q, i, j);
    }
  }

  lemma RankPartAt(cs: seq<seq<real>>, q: Quotient, i: nat, j: nat)
    requires Shaped(cs) && i < |cs| && j < PointsPerNode
    ensures |Flatten(cs)| == |cs| * PointsPerNode
    ensures RankPart(cs, q, i)[j] == Derivative(Flatten(cs), q)[i * PointsPerNode + j]
  {
    FlattenLength(cs);
  }
}
