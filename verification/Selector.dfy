/** Weighted choice of the lanes to dispatch (cibos-kernel/src/selector.rs): sampling
    without replacement, each draw by a ticket walked along the weights. */
module Selector {
  import opened Entropy
  import opened LittleEndian
  import opened Sequences

  type Lane = nat

  const U32_MAX: nat := 0xFFFF_FFFF

  datatype Weighted = Weighted(lane: Lane, weight: nat)

  /** Weight zero counts as one. */
  function Pool(ready: seq<Weighted>): (p: seq<Weighted>)
    ensures |p| == |ready| && forall i :: 0 <= i < |p| ==> p[i].weight >= 1 && p[i].lane == ready[i].lane
    ensures forall i :: 0 <= i < |p| && ready[i].weight <= U32_MAX ==> p[i].weight <= U32_MAX
  {
    seq(|ready|, i requires 0 <= i < |ready| => if ready[i].weight < 1 then Weighted(ready[i].lane, 1) else ready[i])
  }

  /** Sum of the first `i` weights. */
  function Prefix(pool: seq<Weighted>, i: nat): nat
    requires i <= |pool|
  {
    if i == 0 then 0 else Prefix(pool, i - 1) + pool[i - 1].weight
  }

  function Total(pool: seq<Weighted>): nat {
    Prefix(pool, |pool|)
  }

  /** Walk the pool from `i`, spending the ticket; a ticket never spent picks the first. */
  function Walk(pool: seq<Weighted>, ticket: nat, i: nat): nat
    decreases |pool| - i
  {
    if i >= |pool| then 0 else if ticket < pool[i].weight then i else Walk(pool, ticket - pool[i].weight, i + 1)
  }

  function Pick(pool: seq<Weighted>, ticket: nat): nat {
    Walk(pool, ticket, 0)
  }

  lemma {:induction false} PrefixGrows(pool: seq<Weighted>, i: nat, j: nat)
    requires i <= j <= |pool|
    ensures Prefix(pool, i) <= Prefix(pool, j)
    decreases j
  {
    if i < j {
      PrefixGrows(pool, i, j - 1);
    }
  }

  /** The walk stops where the running sum of weights passes the ticket. */
  lemma {:induction false} WalkSpec(pool: seq<Weighted>, ticket: nat, i: nat)
    requires i <= |pool| && Prefix(pool, i) + ticket < Total(pool)
    ensures var r := Walk(pool, ticket, i);
            i <= r < |pool| && Prefix(pool, r) <= Prefix(pool, i) + ticket < Prefix(pool, r + 1)
    decreases |pool| - i
  {
    if i < |pool| && ticket >= pool[i].weight {
      WalkSpec(pool, ticket - pool[i].weight, i + 1);
    }
  }

  /** Below the total, a ticket picks lane `i` exactly when it falls in that lane's share. */
  lemma PickExactly(pool: seq<Weighted>, ticket: nat, i: nat)
    requires ticket < Total(pool) && i < |pool|
    ensures Pick(pool, ticket) < |pool|
    ensures Pick(pool, ticket) == i <==> Prefix(pool, i) <= ticket < Prefix(pool, i + 1)
  {
    WalkSpec(pool, ticket, 0);
    var r := Pick(pool, ticket);
    if r < i {
      PrefixGrows(pool, r + 1, i);
    } else if i < r {
      PrefixGrows(pool, i + 1, r);
    }
  }

  /** The numbers `lo..lo + n`. */
  ghost function Interval(lo: nat, n: nat): (r: set<nat>)
    ensures |r| == n && forall t: nat :: t in r <==> lo <= t < lo + n
  {
    if n == 0 then {} else Interval(lo, n - 1) + {lo + n - 1}
  }

  /** As many tickets pick a lane as its weight says. */
  lemma SharesMatchWeights(pool: seq<Weighted>, i: nat)
    requires i < |pool|
    ensures |set t: nat | t < Total(pool) && Pick(pool, t) == i| == pool[i].weight
  {
    var picks := set t: nat | t < Total(pool) && Pick(pool, t) == i;
    var share := Interval(Prefix(pool, i), pool[i].weight);
    PrefixGrows(pool, i + 1, |pool|);
    forall t: nat
      ensures t in picks <==> t in share
    {
      if t < Total(pool) {
        PickExactly(pool, t, i);
      }
    }
    assert picks == share;
  }

  /** The weight that counts: at least one. */
  function Counted(w: Weighted): nat {
    if w.weight == 0 then 1 else w.weight
  }

  /** The lane `w` of `ready` with the weight that counts. */
  predicate StandsFor(e: Weighted, w: Weighted) {
    e.lane == w.lane && e.weight == Counted(w)
  }

  /** In the first draw exactly as many tickets pick a lane as its weight says, zero counting as
      one; all tickets together are the sum of the weights. */
  lemma FirstDraw(ready: seq<Weighted>, i: nat)
    requires i < |ready|
    ensures StandsFor(Pool(ready)[i], ready[i])
    ensures |set t: nat | t < Total(Pool(ready)) && Pick(Pool(ready), t) == i| == Counted(ready[i])
  {
    SharesMatchWeights(Pool(ready), i);
  }

  /** Whatever was drawn, each entry left stands for a lane of `ready` at the same weight. */
  lemma {:induction false} LeftAsBefore(ready: seq<Weighted>, tickets: seq<nat>, k: nat) returns (i: nat)
    requires k < |Remain(Pool(ready), tickets)|
    ensures i < |ready| && StandsFor(Remain(Pool(ready), tickets)[k], ready[i])
    decreases |tickets|
  {
    if tickets == [] {
      i := k;
    } else {
      var front := tickets[..|tickets| - 1];
      var p := Remain(Pool(ready), front);
      var x := Pick(p, tickets[|tickets| - 1]);
      i := LeftAsBefore(ready, front, if x < |p| && k == x then |p| - 1 else k);
    }
  }

  /** In every later draw each lane that is left has as many tickets as in the first. */
  lemma LaterDraw(ready: seq<Weighted>, tickets: seq<nat>, k: nat, i: nat)
    requires Distinct(Lanes(ready)) && k < |Remain(Pool(ready), tickets)| && i < |ready|
    requires Remain(Pool(ready), tickets)[k].lane == ready[i].lane
    ensures var left := Remain(Pool(ready), tickets);
            |set t: nat | t < Total(left) && Pick(left, t) == k| == Counted(ready[i])
  {
    hide Pick, Total, Pool, Remain;
    var left := Remain(Pool(ready), tickets);
    var n := LeftAsBefore(ready, tickets, k);
    assert Lanes(ready)[n] == Lanes(ready)[i];
    assert n == i;
    SharesMatchWeights(left, k);
  }

  // ---- drawing without replacement -----------------------------------------

  function SwapRemove(pool: seq<Weighted>, i: nat): (r: seq<Weighted>)
    requires i < |pool|
    ensures |r| == |pool| - 1
  {
    pool[i := pool[|pool| - 1]][..|pool| - 1]
  }

  /** What is left of the pool after drawing with `tickets`. */
  function Remain(pool: seq<Weighted>, tickets: seq<nat>): seq<Weighted> {
    if tickets == [] then pool
    else
      var p := Remain(pool, tickets[..|tickets| - 1]);
      var i := Pick(p, tickets[|tickets| - 1]);
      if i < |p| then SwapRemove(p, i) else p
  }

  function Draws(pool: seq<Weighted>, tickets: seq<nat>): seq<Lane> {
    if tickets == [] then []
    else
      var p := Remain(pool, tickets[..|tickets| - 1]);
      var i := Pick(p, tickets[|tickets| - 1]);
      Draws(pool, tickets[..|tickets| - 1]) + if i < |p| then [p[i].lane] else []
  }

  /** Every ticket was below the total weight left when it was drawn. */
  ghost predicate Legal(pool: seq<Weighted>, tickets: seq<nat>) {
    tickets == [] || (Legal(pool, tickets[..|tickets| - 1])
                      && tickets[|tickets| - 1] < Total(Remain(pool, tickets[..|tickets| - 1])))
  }

  /** A draw takes the lane its ticket picks; the last lane of the pool moves into its place. */
  lemma AfterDraw(pool: seq<Weighted>, tickets: seq<nat>, t: nat)
    requires Legal(pool, tickets + [t])
    ensures var p, r := Remain(pool, tickets), Remain(pool, tickets + [t]);
            var i := Pick(p, t);
            && i < |p| && |r| == |p| - 1 && (forall k :: 0 <= k < |r| ==> r[k] == p[if k == i then |p| - 1 else k])
            && Draws(pool, tickets + [t]) == Draws(pool, tickets) + [p[i].lane]
  {
    hide Walk;
    var p := Remain(pool, tickets);
    assert (tickets + [t])[..|tickets|] == tickets;
    PickExactly(p, t, 0);
  }

  function Lanes(pool: seq<Weighted>): (s: seq<Lane>)
    ensures |s| == |pool| && forall i :: 0 <= i < |s| ==> s[i] == pool[i].lane
  {
    seq(|pool|, i requires 0 <= i < |pool| => pool[i].lane)
  }

  lemma SwapOut(front: seq<Lane>, p: Lane, mid: seq<Lane>, last: Lane)
    ensures multiset(front + [p] + mid + [last]) == multiset{p} + multiset(front + [last] + mid)
  {
  }

  lemma SwapRemoveLanes(pool: seq<Weighted>, i: nat)
    requires i < |pool|
    ensures multiset(Lanes(pool)) == multiset{pool[i].lane} + multiset(Lanes(SwapRemove(pool, i)))
  {
    var n := |pool| - 1;
    var a, b := Lanes(pool), Lanes(SwapRemove(pool, i));
    if i == n {
      assert a == b + [a[n]];
    } else {
      assert a == a[..i] + [a[i]] + a[i + 1..n] + [a[n]];
      assert b == a[..i] + [a[n]] + a[i + 1..n];
      SwapOut(a[..i], a[i], a[i + 1..n], a[n]);
    }
  }

  /** Each draw takes one lane out of the pool: drawn and remaining lanes together are
      the lanes there were. */
  lemma {:induction false} DrawsPartition(pool: seq<Weighted>, tickets: seq<nat>)
    requires Legal(pool, tickets)
    ensures |Draws(pool, tickets)| == |tickets| <= |pool| && |Remain(pool, tickets)| == |pool| - |tickets|
    ensures multiset(Draws(pool, tickets)) + multiset(Lanes(Remain(pool, tickets))) == multiset(Lanes(pool))
    decreases |tickets|
  {
    if tickets != [] {
      var front, t := tickets[..|tickets| - 1], tickets[|tickets| - 1];
      DrawsPartition(pool, front);
      var p := Remain(pool, front);
      WalkSpec(p, t, 0);
      SwapRemoveLanes(p, Pick(p, t));
    }
  }

  /** Distinct lanes stay distinct. */
  lemma DrawsDistinct(pool: seq<Weighted>, chosen: seq<Lane>)
    requires multiset(chosen) <= multiset(Lanes(pool))
    requires Distinct(Lanes(pool))
    ensures Distinct(chosen)
    ensures forall l: Lane :: l in chosen ==> exists i :: 0 <= i < |pool| && pool[i].lane == l
  {
    var lanes := Lanes(pool);
    forall l: Lane
      ensures multiset(lanes)[l] <= 1
    {
      AtMostOnce(lanes, l);
    }
    forall i, j | 0 <= i < j < |chosen|
      ensures chosen[i] != chosen[j]
    {
      if chosen[i] == chosen[j] {
        Repeated(chosen, i, j);
      }
    }
    forall l: Lane | l in chosen
      ensures exists i :: 0 <= i < |pool| && pool[i].lane == l
    {
      assert l in multiset(chosen) && l in multiset(lanes) && l in lanes;
      var i :| 0 <= i < |lanes| && lanes[i] == l;
    }
  }

  lemma {:induction false} AtMostOnce(s: seq<Lane>, l: Lane)
    requires Distinct(s)
    ensures multiset(s)[l] <= 1
  {
    if s != [] {
      var n := |s| - 1;
      AtMostOnce(s[..n], l);
      assert s == s[..n] + [s[n]];
      assert s[n] !in s[..n];
    }
  }

  lemma Repeated(s: seq<Lane>, i: nat, j: nat)
    requires i < j < |s| && s[i] == s[j]
    ensures multiset(s)[s[i]] >= 2
  {
    assert s == s[..i] + [s[i]] + s[i + 1..j] + [s[j]] + s[j + 1..];
  }

  // ---- the selector --------------------------------------------------------

  lemma {:induction false} TotalBounds(pool: seq<Weighted>, i: nat)
    requires Weights(pool) && i <= |pool|
    ensures i <= Prefix(pool, i) <= i * U32_MAX
  {
    if i > 0 {
      TotalBounds(pool, i - 1);
    }
  }

  /** Ticket `j` is the bounded draw at position `at[j]` of the random stream, for the weight then
      left in the pool. */
  ghost predicate TicketFrom(hash: seq<Byte> -> Digest, key: Digest, pool: seq<Weighted>, tickets: seq<nat>,
                             at: seq<nat>, j: nat)
    requires j < |tickets| && |at| == |tickets| + 1
  {
    var left := Total(Remain(pool, tickets[..j]));
    left > 0 && IsDraw(hash, key, at[j], left, tickets[j], at[j + 1])
  }

  ghost predicate FromStream(hash: seq<Byte> -> Digest, key: Digest, pool: seq<Weighted>, tickets: seq<nat>,
                             at: seq<nat>)
  {
    |at| == |tickets| + 1 && forall j: nat :: j < |tickets| ==> TicketFrom(hash, key, pool, tickets, at, j)
  }

  lemma StreamGoesOn(hash: seq<Byte> -> Digest, key: Digest, pool: seq<Weighted>, tickets: seq<nat>, at: seq<nat>,
                     drawn: nat, end: nat)
    requires FromStream(hash, key, pool, tickets, at) && Total(Remain(pool, tickets)) > 0
    requires IsDraw(hash, key, at[|tickets|], Total(Remain(pool, tickets)), drawn, end)
    ensures FromStream(hash, key, pool, tickets + [drawn], at + [end])
  {
    hide IsDraw, Remain, Total;
    forall j: nat | j < |tickets| + 1
      ensures TicketFrom(hash, key, pool, tickets + [drawn], at + [end], j)
    {
      assert (tickets + [drawn])[..j] == tickets[..j];
      if j < |tickets| {
        assert TicketFrom(hash, key, pool, tickets, at, j);
      } else {
        assert tickets[..j] == tickets;
      }
    }
  }

  /** One draw: a ticket below the total weight, walked along the pool. */
  method Draw(pool: seq<Weighted>, rng: Csprng) returns (picked: nat, ghost drawn: nat)
    requires rng.Valid() && Productive(rng.hash, rng.key) && 0 < Total(pool) <= U64_MAX
    modifies rng
    ensures rng.Valid() && drawn < Total(pool) && picked == Pick(pool, drawn) && picked < |pool|
    ensures IsDraw(rng.hash, rng.key, old(rng.Pos()), Total(pool), drawn, rng.Pos())
  {
    hide Accepted, StreamWord, IsDraw;
    var total := Total(pool);
    assert Eventually(rng.hash, rng.key, rng.Pos(), total);
    ghost var k :| Accepted(rng.hash, rng.key, rng.Pos(), k, total);
    var ticket: nat, draws := rng.NextBounded(total, k);
    drawn := ticket;
    WalkSpec(pool, drawn, 0);
    picked := 0;
    var i := 0;
    while i < |pool|
      invariant i <= |pool| && Walk(pool, ticket, i) == Pick(pool, drawn)
      invariant i == |pool| ==> picked == Pick(pool, drawn)
    {
      if ticket < pool[i].weight {
        picked := i;
        break;
      }
      ticket, i := ticket - pool[i].weight, i + 1;
    }
  }

  ghost predicate Weights(pool: seq<Weighted>) {
    forall k :: 0 <= k < |pool| ==> 1 <= pool[k].weight <= U32_MAX
  }

  lemma PoolTotal(pool: seq<Weighted>)
    requires 0 < |pool| <= U32_MAX && Weights(pool)
    ensures 0 < Total(pool) <= U64_MAX
  {
    TotalBounds(pool, |pool|);
    assert |pool| * U32_MAX <= U32_MAX * U32_MAX;
  }

  lemma SwapRemoveWeights(pool: seq<Weighted>, i: nat)
    requires Weights(pool) && i < |pool|
    ensures Weights(SwapRemove(pool, i))
  {
  }

  /** Every lane when there are contexts enough, otherwise one lane per context drawn by
      weight without replacement. */
  method Select(ready: seq<Weighted>, contexts: nat, rng: Csprng)
    returns (chosen: seq<Lane>, ghost tickets: seq<nat>, ghost at: seq<nat>)
    requires rng.Valid() && Productive(rng.hash, rng.key)
    requires |ready| <= U32_MAX && forall i :: 0 <= i < |ready| ==> ready[i].weight <= U32_MAX
    modifies rng
    ensures rng.Valid()
    ensures |chosen| == if |ready| <= contexts then |ready| else contexts
    ensures multiset(chosen) <= multiset(Lanes(ready))
    ensures |ready| <= contexts ==> chosen == Lanes(ready)
    ensures |ready| > contexts ==> Legal(Pool(ready), tickets) && chosen == Draws(Pool(ready), tickets)
    ensures |ready| > contexts ==> FromStream(rng.hash, rng.key, Pool(ready), tickets, at)
    ensures |ready| > contexts ==> at[0] == old(rng.Pos()) && at[|tickets|] == rng.Pos()
    ensures |ready| <= contexts ==> rng.Pos() == old(rng.Pos())
  {
    hide Productive, Weights, Pick, Total, SwapRemove;
    tickets, at := [], [rng.Pos()];
    if contexts == 0 || |ready| == 0 {
      return [], [], at;
    }
    if |ready| <= contexts {
      return Lanes(ready), [], at;
    }
    var pool := Pool(ready);
    PoolWeights(ready);
    chosen := [];
    while |chosen| < contexts
      invariant |chosen| == |tickets| <= contexts && rng.Valid() && Legal(Pool(ready), tickets)
      invariant pool == Remain(Pool(ready), tickets) && chosen == Draws(Pool(ready), tickets)
      invariant Weights(pool) && |pool| == |ready| - |tickets|
      invariant FromStream(rng.hash, rng.key, Pool(ready), tickets, at)
      invariant at[0] == old(rng.Pos()) && at[|tickets|] == rng.Pos()
    {
      PoolTotal(pool);
      var picked, drawn := Draw(pool, rng);
      SwapRemoveWeights(pool, picked);
      chosen := chosen + [pool[picked].lane];
      pool := SwapRemove(pool, picked);
      assert (tickets + [drawn])[..|tickets|] == tickets;
      StreamGoesOn(rng.hash, rng.key, Pool(ready), tickets, at, drawn, rng.Pos());
      tickets, at := tickets + [drawn], at + [rng.Pos()];
    }
    DrawsPartition(Pool(ready), tickets);
  }

  lemma PoolWeights(ready: seq<Weighted>)
    requires forall i :: 0 <= i < |ready| ==> ready[i].weight <= U32_MAX
    ensures Weights(Pool(ready)) && Lanes(Pool(ready)) == Lanes(ready)
  {
  }
}
