/** What an allocation and a deallocation leave behind, block by block and in the terms of the
    request alone (cibos-app/src/heap.rs). */
module HeapExact {
  import opened Division
  import opened AppHeap
  import opened Options
  import opened Sequences

  // ---- allocation ----------------------------------------------------------

  /** Block `b` can hold `w` bytes at `p`: aligned as asked and to 8, at least as many as asked and
      a multiple of 8, behind 24 bytes of bookkeeping. */
  ghost predicate Suits(h: Heap, b: nat, size: nat, shift: nat, p: nat, w: nat) {
    && p % 8 == 0 && p % Pow2(shift) == 0 && w % 8 == 0 && w >= 1 && w >= size
    && b + 24 <= p && p + w <= h.End(b)
  }

  ghost predicate HasRoom(h: Heap, b: nat, size: nat, shift: nat) {
    exists p: nat, w: nat :: Suits(h, b, size, shift, p, w)
  }

  lemma LeastMultiple(v: nat, k: nat, p: nat)
    requires p >= v && p % Pow2(k) == 0
    ensures AlignUp(v, k) <= p
  {
    hide AlignUp, Pow2;
    var q := AlignUpSpec(v, k);
    var n := Pow2(k);
    var r := p / n;
    assert p == r * n;
    if r < q {
      MulMono(r + 1, q, n);
    }
  }

  lemma EightIsPow2()
    ensures Pow2(3) == 8
  {
  }

  /** The payload and size the code computes are the least that suit. */
  lemma LeastSuits(h: Heap, b: nat, size: nat, shift: nat, p: nat, w: nat)
    requires Suits(h, b, size, shift, p, w)
    ensures PayloadAt(b, shift) <= p && Want(size) <= w
  {
    hide AlignUp, Pow2;
    EightIsPow2();
    LeastMultiple(b + BLOCK_HDR + WORD, MaxShift(shift), p);
    LeastMultiple(if size < 1 then 1 else size, MIN_SHIFT, w);
  }

  lemma ComputedSuits(h: Heap, b: nat, size: nat, shift: nat)
    requires Fits(h, b, size, shift)
    ensures Suits(h, b, size, shift, PayloadAt(b, shift), Want(size))
  {
    hide AlignUp, Pow2;
    RequestAligned(b, size, shift);
    PayloadAligned(b, shift);
  }

  lemma FitsIsRoom(h: Heap, b: nat, size: nat, shift: nat)
    ensures Fits(h, b, size, shift) <==> HasRoom(h, b, size, shift)
  {
    hide PayloadAt, Want, Suits;
    if Fits(h, b, size, shift) {
      ComputedSuits(h, b, size, shift);
    }
    if p: nat, w: nat :| Suits(h, b, size, shift, p, w) {
      LeastSuits(h, b, size, shift, p, w);
      SuitsEnd(h, b, size, shift, p, w);
    }
  }

  lemma SuitsEnd(h: Heap, b: nat, size: nat, shift: nat, p: nat, w: nat)
    requires Suits(h, b, size, shift, p, w)
    ensures p + w <= h.End(b)
  {
  }

  lemma WantIsTight(size: nat)
    ensures Want(size) < (if size < 1 then 1 else size) + 8
  {
    EightIsPow2();
    var q := AlignUpSpec(if size < 1 then 1 else size, MIN_SHIFT);
  }

  /** The heap after an allocation of `w` bytes at `p` in the `i`-th free block. The rest of the
      block, if it can hold a header of 16 bytes, takes its place in the list; otherwise the
      allocation keeps the whole block. */
  ghost predicate Taken(h: Heap, i: nat, p: nat, w: nat, h': Heap)
    requires i < |h.free| && h.free[i] <= p + w
  {
    var b := h.free[i];
    var rest := h.End(b) - (p + w);
    && h'.lo == h.lo && h'.hi == h.hi && h'.live == h.live[b := Live(p, w)]
    && (rest < 16 ==> h'.blocks == h.blocks && h'.free == h.free[..i] + h.free[i + 1..])
    && (rest >= 16 ==>
          && h'.blocks == h.blocks[b := p + w - b][p + w := rest]
          && h'.free == h.free[..i] + [p + w] + h.free[i + 1..])
  }

  /** An allocation fails exactly when no free block has room for the request, and then changes
      nothing. Otherwise it takes the first free block that has, at the least payload address
      that suits, with less than 8 bytes more than asked for. */
  lemma AllocExactly(h: Heap, size: nat, shift: nat) returns (i: nat, w: nat)
    requires Sound(h)
    ensures var (h', r) := Alloc(h, size, shift);
            && (r.None? <==> forall b: nat :: b in h.free ==> !HasRoom(h, b, size, shift))
            && (r.None? ==> h' == h)
            && (r.Some? ==>
                  && i < |h.free| && Suits(h, h.free[i], size, shift, r.value, w)
                  && Taken(h, i, r.value, w, h') && w < (if size < 1 then 1 else size) + 8
                  && (forall p: nat, x: nat :: Suits(h, h.free[i], size, shift, p, x) ==> r.value <= p)
                  && (forall k: nat :: k < i ==> !HasRoom(h, h.free[k], size, shift)))
  {
    hide PayloadAt, Want, Suits, HasRoom, Fits, Sound, Taken;
    i, w := FirstFit(h, 0, size, shift), Want(size);
    forall b: nat
      ensures Fits(h, b, size, shift) <==> HasRoom(h, b, size, shift)
    {
      FitsIsRoom(h, b, size, shift);
    }
    if i < |h.free| {
      var b := h.free[i];
      assert b in h.free;
      ComputedSuits(h, b, size, shift);
      WantIsTight(size);
      forall p: nat, x: nat | Suits(h, b, size, shift, p, x)
        ensures PayloadAt(b, shift) <= p
      {
        LeastSuits(h, b, size, shift, p, x);
      }
      RequestAligned(b, size, shift);
      FitsRoom(h, i, size, shift);
      CarveTakes(h, i, PayloadAt(b, shift), w);
    } else {
      forall b: nat | b in h.free
        ensures !HasRoom(h, b, size, shift)
      {
        var k :| 0 <= k < |h.free| && h.free[k] == b;
      }
    }
  }

  lemma FitsRoom(h: Heap, i: nat, size: nat, shift: nat)
    requires i < |h.free| && Fits(h, h.free[i], size, shift)
    ensures Room(h, i, PayloadAt(h.free[i], shift), Want(size))
  {
    hide PayloadAt, Want;
    RequestAligned(h.free[i], size, shift);
  }

  lemma CarveTakes(h: Heap, i: nat, p: nat, w: nat)
    requires Room(h, i, p, w)
    ensures Taken(h, i, p, w, Carve(h, i, p, w))
  {
    var b := h.free[i];
    assert h.free[i := p + w] == h.free[..i] + [p + w] + h.free[i + 1..];
  }

  // ---- deallocation --------------------------------------------------------

  /** Allocations keep the sizes of their blocks. */
  ghost predicate SizesKept(h: Heap, h': Heap) {
    forall x: nat :: x in h.live ==> h'.Size(x) == h.Size(x)
  }

  /** The list holds nothing new and nothing has changed places. */
  ghost predicate OrderKept(h: Heap, h': Heap) {
    && (forall x: nat :: x in h'.free ==> x in h.free)
    && (forall x: nat, y: nat {:trigger Place(h', x), Place(h', y)} :: x in h'.free && y in h'.free ==>
          (Place(h', x) < Place(h', y) <==> Place(h, x) < Place(h, y)))
  }

  lemma MergeKeepsOrder(h: Heap, a: nat, e: nat)
    requires Sound(h) && Adjacent(h, a, e)
    ensures OrderKept(h, Merge(h, a, e)) && SizesKept(h, Merge(h, a, e)) && Sound(Merge(h, a, e))
    ensures Merge(h, a, e).live == h.live
  {
    hide Merge, Place, Sound;
    MergeAbsorbs(h, a, e);
    MergedFree(h, a, e);
    MergedSizes(h, a, e);
    var h' := Merge(h, a, e);
    forall x: nat, y: nat {:trigger Place(h', x), Place(h', y)} | x in h'.free && y in h'.free
      ensures Place(h', x) < Place(h', y) <==> Place(h, x) < Place(h, y)
    {
      MergePlaces(h, a, e, x);
      MergePlaces(h, a, e, y);
      PlaceInjective(h, x, e);
      PlaceInjective(h, y, e);
    }
  }

  lemma MergedFree(h: Heap, a: nat, e: nat)
    requires Sound(h) && Adjacent(h, a, e)
    ensures forall x: nat :: x in Merge(h, a, e).free ==> x in h.free && x != e
    ensures Merge(h, a, e).live == h.live && e in h.free
  {
    hide Tiled, Join;
    var i := IndexOf(h.free, e);
    forall x: nat
      ensures x in Merge(h, a, e).free ==> x in h.free && x != e
    {
      RemoveIn(h.free, i, x);
    }
  }

  lemma MergedSizes(h: Heap, a: nat, e: nat)
    requires Sound(h) && Adjacent(h, a, e)
    ensures SizesKept(h, Merge(h, a, e))
  {
    hide Tiled, Remove, IndexOf;
  }

  lemma OrderTwice(a: Heap, b: Heap, c: Heap)
    requires OrderKept(a, b) && OrderKept(b, c) && SizesKept(a, b) && SizesKept(b, c) && a.live == b.live
    ensures OrderKept(a, c) && SizesKept(a, c)
  {
    hide Place;
  }

  lemma {:induction false} CoalesceKeepsOrder(h: Heap, i: nat)
    requires Sound(h)
    ensures OrderKept(h, CoalesceFrom(h, i)) && SizesKept(h, CoalesceFrom(h, i))
    decreases |h.free| - i
  {
    hide Sound, OrderKept, SizesKept, Merge, Place, IndexOf;
    SameOrder(h);
    if i < |h.free| {
      var a := h.free[i];
      var e := h.End(a);
      assert a in h.free;
      if e in h.free && e != a {
        MergeKeepsOrder(h, a, e);
        MergeShortens(h, a, e);
        CoalesceKeepsOrder(Merge(h, a, e), if IndexOf(h.free, e) < i then i else i + 1);
        OrderTwice(h, Merge(h, a, e), CoalesceFrom(h, i));
      } else {
        CoalesceKeepsOrder(h, i + 1);
      }
    }
  }

  lemma MergeShortens(h: Heap, a: nat, e: nat)
    requires e in h.free
    ensures |Merge(h, a, e).free| == |h.free| - 1
  {
  }

  lemma SameOrder(h: Heap)
    ensures OrderKept(h, h) && SizesKept(h, h)
  {
  }

  /** Freeing block `b`: the other allocations keep their blocks, `b` is free, alone or as part of
      a larger free block, and the list is the old one with `b` in front and without the blocks
      that were absorbed. With no two free blocks adjacent this determines the heap. */
  lemma DeallocExactly(h: Heap, b: nat)
    requires Sound(h) && Coalesced(h) && b in h.live
    ensures var h' := Dealloc(h, b);
            && Sound(h') && Coalesced(h') && h'.live == h.live - {b}
            && (forall x: nat :: x in h'.live ==> h'.Size(x) == h.Size(x))
            && OrderKept(h.(free := [b] + h.free), h')
            && (exists x: nat :: x in h'.free && x <= b && h.End(b) <= h'.End(x))
  {
    hide Sound, Coalesced, CoalesceFrom, OrderKept, Place;
    DeallocCorrect(h, b);
    PushKeepsSound(h, b);
    var q := Pushed(h, b);
    CoalesceKeepsOrder(q, 0);
    SamePlaces(h, b);
    BlockIsFree(h, b, Dealloc(h, b));
  }

  lemma SamePlaces(h: Heap, b: nat)
    requires OrderKept(Pushed(h, b), Dealloc(h, b))
    ensures OrderKept(h.(free := [b] + h.free), Dealloc(h, b))
  {
    hide CoalesceFrom;
    var p, q := Pushed(h, b), h.(free := [b] + h.free);
    assert forall x: nat :: Place(p, x) == Place(q, x);
  }

  /** In `h'` a byte of block `b` of `h` belongs to no allocation. */
  lemma NotLive(h: Heap, h': Heap, b: nat, x: nat, at: nat)
    requires Sound(h) && Sound(h') && b in h.live && h'.live == h.live - {b} && x in h'.blocks
    requires forall y: nat :: y in h'.live ==> h'.Size(y) == h.Size(y)
    requires b <= at < h.End(b) && x <= at < h'.End(x)
    ensures x in h'.free && x !in h'.live
  {
    hide Followed, LiveOk, Distinct;
    assert x in h.live ==> x in h.blocks && h.End(x) - x == h.Size(x);
    assert b in h.blocks;
  }

  lemma BlockIsFree(h: Heap, b: nat, h': Heap)
    requires Sound(h) && Sound(h') && Coalesced(h') && b in h.live && h'.live == h.live - {b}
    requires h'.lo == h.lo && h'.hi == h.hi
    requires forall y: nat :: y in h'.live ==> h'.Size(y) == h.Size(y)
    ensures exists x: nat :: x in h'.free && x <= b && h.End(b) <= h'.End(x)
  {
    hide Sound, Coalesced;
    BlockInRegion(h, b);
    EveryByteOwned(h', b);
    var x: nat :| x in h'.blocks && x <= b < h'.End(x);
    NotLive(h, h', b, x, b);
    if h'.End(x) < h.End(b) {
      var z := NextBlock(h', x);
      NotLive(h, h', b, z, z);
      NoneAdjacent(h', x, z);
    }
  }

  lemma NoneAdjacent(h: Heap, x: nat, z: nat)
    requires Coalesced(h)
    ensures !Adjacent(h, x, z)
  {
  }

  lemma BlockInRegion(h: Heap, b: nat)
    requires Sound(h) && b in h.live
    ensures h.lo <= b < h.End(b) <= h.hi
  {
    hide Followed, LiveOk, Distinct;
    assert b in h.blocks;
    assert InRegion(h.lo, h.hi, h.blocks, b);
  }

  lemma NextBlock(h: Heap, x: nat) returns (z: nat)
    requires Sound(h) && x in h.blocks && h.End(x) < h.hi
    ensures z == h.End(x) && z in h.blocks && z < h.End(z)
  {
    hide LiveOk, Distinct;
    z := h.End(x);
    assert Followed(h.hi, h.blocks, x);
    assert InRegion(h.lo, h.hi, h.blocks, z);
  }
}
