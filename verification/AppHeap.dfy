/** The application heap (cibos-app/src/heap.rs): a first-fit free list that splits on
    allocation and coalesces on deallocation. Here the heap is the set of blocks it is cut
    into, the order of its free list, and the allocations not yet freed. */
module AppHeap {
  import opened Division
  import opened LittleEndian
  import opened Options
  import opened Sequences

  const BLOCK_HDR: nat := 16
  const WORD: nat := 8
  const MIN_SHIFT: nat := 3

  /** An allocation: the aligned payload address and its rounded-up size. */
  datatype Live = Live(payload: nat, want: nat)

  /** Region `lo..hi`; blocks by base address; free list, first to last; allocations by
      the base of the block that holds them. */
  datatype Heap = Heap(lo: nat, hi: nat, blocks: map<nat, nat>, free: seq<nat>, live: map<nat, Live>) {
    function Size(b: nat): nat { SizeIn(blocks, b) }

    function End(b: nat): nat { EndIn(blocks, b) }
  }

  function SizeIn(bs: map<nat, nat>, b: nat): nat {
    if b in bs then bs[b] else 0
  }

  function EndIn(bs: map<nat, nat>, b: nat): nat {
    b + SizeIn(bs, b)
  }

  // ---- alignment -----------------------------------------------------------

  /** Clear the low `k` bits. */
  function ClearLow(v: nat, k: nat): nat {
    if k == 0 then v else 2 * ClearLow(v / 2, k - 1)
  }

  /** `(v + a - 1) & !(a - 1)` for the power of two `a = 1 << k`. */
  function AlignUp(v: nat, k: nat): nat {
    ClearLow(v + Pow2(k) - 1, k)
  }

  lemma {:induction false} ClearLowSpec(v: nat, k: nat) returns (q: nat)
    ensures ClearLow(v, k) == q * Pow2(k) && ClearLow(v, k) <= v < ClearLow(v, k) + Pow2(k)
  {
    if k == 0 {
      q := v;
    } else {
      q := ClearLowSpec(v / 2, k - 1);
      var m := Pow2(k - 1);
      assert 2 * (q * m) == q * (2 * m);
    }
  }

  /** The least multiple of the alignment at or above `v`. */
  lemma AlignUpSpec(v: nat, k: nat) returns (q: nat)
    ensures AlignUp(v, k) == q * Pow2(k) && v <= AlignUp(v, k) < v + Pow2(k)
  {
    q := ClearLowSpec(v + Pow2(k) - 1, k);
  }

  lemma {:induction false} Pow2IsMultiple(k: nat) returns (m: nat)
    requires k >= MIN_SHIFT
    ensures Pow2(k) == WORD * m
  {
    if k == MIN_SHIFT {
      m := 1;
    } else {
      m := Pow2IsMultiple(k - 1);
      m := 2 * m;
    }
  }

  function MaxShift(k: nat): (r: nat)
    ensures r >= MIN_SHIFT && r >= k
  {
    if k < MIN_SHIFT then MIN_SHIFT else k
  }

  /** Aligned to a power of two of at least a word, so to a word. */
  lemma AlignUpWord(v: nat, k: nat)
    requires k >= MIN_SHIFT
    ensures v <= AlignUp(v, k) && AlignUp(v, k) % WORD == 0
  {
    hide AlignUp, Pow2;
    var q := AlignUpSpec(v, k);
    var m := Pow2IsMultiple(k);
    assert q * (WORD * m) == (q * m) * WORD;
    MultipleMod(q * m, WORD);
  }

  // ---- operations ----------------------------------------------------------

  /** Size requests round up to a word, the empty request to one word. */
  function Want(size: nat): nat {
    AlignUp(if size < 1 then 1 else size, MIN_SHIFT)
  }

  /** Payload address in a block at `b`: past the header and the stashed base. */
  function PayloadAt(b: nat, shift: nat): nat {
    AlignUp(b + BLOCK_HDR + WORD, MaxShift(shift))
  }

  predicate Fits(h: Heap, b: nat, size: nat, shift: nat) {
    PayloadAt(b, shift) + Want(size) <= h.End(b)
  }

  lemma RequestAligned(b: nat, size: nat, shift: nat)
    ensures b + BLOCK_HDR + WORD <= PayloadAt(b, shift) && PayloadAt(b, shift) % WORD == 0
    ensures size <= Want(size) && 0 < Want(size) && Want(size) % WORD == 0
  {
    hide AlignUp;
    AlignUpWord(b + BLOCK_HDR + WORD, MaxShift(shift));
    AlignUpWord(if size < 1 then 1 else size, MIN_SHIFT);
  }

  const ISIZE_MAX: nat := 0x7FFF_FFFF_FFFF_FFFF

  /** For a request that is a legal layout, in a region of the lower half of the address
      space, the arithmetic of an allocation does not wrap. */
  lemma NoWrap(h: Heap, b: nat, size: nat, shift: nat)
    requires b <= h.hi <= ISIZE_MAX - 64 && size + Pow2(shift) - 1 <= ISIZE_MAX
    ensures b + BLOCK_HDR + WORD + Pow2(MaxShift(shift)) - 1 < WORD_LIMIT
    ensures PayloadAt(b, shift) + Want(size) < WORD_LIMIT
  {
    assert Pow2(MIN_SHIFT) == 8;
    var p := AlignUpSpec(b + BLOCK_HDR + WORD, MaxShift(shift));
    var w := AlignUpSpec(if size < 1 then 1 else size, MIN_SHIFT);
  }

  /** Position of the first free block from `i` on that fits, or the list's length. */
  function FirstFit(h: Heap, i: nat, size: nat, shift: nat): (r: nat)
    requires i <= |h.free|
    ensures i <= r <= |h.free| && (r < |h.free| ==> Fits(h, h.free[r], size, shift))
    ensures forall k :: i <= k < r ==> !Fits(h, h.free[k], size, shift)
    decreases |h.free| - i
  {
    if i == |h.free| || Fits(h, h.free[i], size, shift) then i else FirstFit(h, i + 1, size, shift)
  }

  function Remove(s: seq<nat>, i: nat): seq<nat>
    requires i < |s|
  {
    s[..i] + s[i + 1..]
  }

  /** Cut block `b` in two, the first part of `used` bytes. */
  function Cut(bs: map<nat, nat>, b: nat, used: nat): map<nat, nat>
    requires used <= SizeIn(bs, b)
  {
    bs[b := used][b + used := SizeIn(bs, b) - used]
  }

  /** The payload lies in its block behind the header and the stashed base. */
  predicate LiveOk(h: Heap, b: nat, l: Live) {
    b + BLOCK_HDR + WORD <= l.payload && l.payload + l.want <= h.End(b) && l.payload % WORD == 0 && l.want % WORD == 0
    && l.want > 0
  }

  /** The free block at position `i` has room for a word-aligned allocation at `payload`. */
  predicate Room(h: Heap, i: nat, payload: nat, want: nat) {
    i < |h.free| && LiveOk(h, h.free[i], Live(payload, want))
  }

  /** Cut an allocation from the free block at position `i`, returning what is left of
      the block to the list in its place if a header fits there. */
  function Carve(h: Heap, i: nat, payload: nat, want: nat): Heap
    requires Room(h, i, payload, want)
  {
    var b := h.free[i];
    var used := payload + want - b;
    var live := h.live[b := Live(payload, want)];
    if h.Size(b) - used >= BLOCK_HDR then
      h.(blocks := Cut(h.blocks, b, used), free := h.free[i := b + used], live := live)
    else
      h.(free := Remove(h.free, i), live := live)
  }

  function Alloc(h: Heap, size: nat, shift: nat): (Heap, Option<nat>) {
    var i := FirstFit(h, 0, size, shift);
    if i == |h.free| then (h, None)
    else
      RequestAligned(h.free[i], size, shift);
      (Carve(h, i, PayloadAt(h.free[i], shift), Want(size)), Some(PayloadAt(h.free[i], shift)))
  }

  /** First position of `b` in a list that holds it. */
  function IndexOf(s: seq<nat>, b: nat): (i: nat)
    requires b in s
    ensures i < |s| && s[i] == b && b !in s[..i]
  {
    if s[0] == b then 0 else 1 + IndexOf(s[1..], b)
  }

  function Join(bs: map<nat, nat>, a: nat, b: nat): map<nat, nat> {
    (bs - {b})[a := SizeIn(bs, a) + SizeIn(bs, b)]
  }

  /** Free block `a` absorbs free block `b`. */
  function Merge(h: Heap, a: nat, b: nat): Heap
    requires b in h.free
  {
    h.(blocks := Join(h.blocks, a, b), free := Remove(h.free, IndexOf(h.free, b)))
  }

  /** The coalescing pass from list position `i` on: each block in turn absorbs the free
      block that starts where it ends, if there is one. */
  function CoalesceFrom(h: Heap, i: nat): Heap
    decreases |h.free| - i
  {
    if i >= |h.free| then h
    else
      var a := h.free[i];
      var e := h.End(a);
      if e in h.free && e != a then CoalesceFrom(Merge(h, a, e), if IndexOf(h.free, e) < i then i else i + 1)
      else CoalesceFrom(h, i + 1)
  }

  /** The block about to be coalesced, at the head of the list. */
  function Pushed(h: Heap, b: nat): Heap {
    h.(free := [b] + h.free, live := h.live - {b})
  }

  /** Free the allocation in block `b`: to the head of the list, then one pass. */
  function Dealloc(h: Heap, b: nat): Heap {
    CoalesceFrom(Pushed(h, b), 0)
  }

  function Initial(lo: nat, hi: nat): Heap
    requires lo <= hi
  {
    Heap(lo, hi, map[lo := hi - lo], [lo], map[])
  }

  // ---- invariants ----------------------------------------------------------

  predicate InRegion(lo: nat, hi: nat, bs: map<nat, nat>, b: nat) {
    lo <= b && b % WORD == 0 && BLOCK_HDR <= SizeIn(bs, b) && EndIn(bs, b) <= hi
  }

  /** Where block `b` ends the next one starts, up to the end of the region. */
  predicate Followed(hi: nat, bs: map<nat, nat>, b: nat) {
    EndIn(bs, b) == hi || EndIn(bs, b) in bs
  }

  /** Blocks are word-aligned, large enough for a header, and cut the region end to end. */
  ghost predicate Tiled(lo: nat, hi: nat, bs: map<nat, nat>) {
    && 0 < lo && lo in bs
    && (forall b: nat :: b in bs ==> InRegion(lo, hi, bs, b))
    && (forall b: nat {:trigger Followed(hi, bs, b)} :: b in bs ==> Followed(hi, bs, b))
    && (forall b: nat, c: nat :: b in bs && c in bs && b < c ==> EndIn(bs, b) <= c)
  }

  /** Every block is free or holds one allocation, not both. */
  ghost predicate Sound(h: Heap) {
    && Tiled(h.lo, h.hi, h.blocks) && Distinct(h.free)
    && (forall b: nat :: b in h.free ==> b in h.blocks && b !in h.live)
    && (forall b: nat :: b in h.blocks ==> b in h.free || b in h.live)
    && (forall b: nat :: b in h.live ==> b in h.blocks && LiveOk(h, b, h.live[b]))
  }

  /** Free block `b` ends where free block `c` starts. */
  predicate Adjacent(h: Heap, b: nat, c: nat) {
    b in h.free && c in h.free && h.End(b) == c
  }

  ghost predicate Coalesced(h: Heap) {
    forall b: nat, c: nat :: !Adjacent(h, b, c)
  }

  // ---- what the tiling means -----------------------------------------------

  /** The block that holds address `x`, searching upwards from block `b`. */
  ghost function Owner(h: Heap, b: nat, x: nat): (r: nat)
    requires Tiled(h.lo, h.hi, h.blocks) && b in h.blocks && b <= x < h.hi
    ensures r in h.blocks && r <= x < h.End(r)
    decreases h.hi - b
  {
    assert Followed(h.hi, h.blocks, b);
    if x < h.End(b) then b else Owner(h, h.End(b), x)
  }

  /** Every byte of the region lies in exactly one block, so no byte is ever lost. */
  lemma EveryByteOwned(h: Heap, x: nat)
    requires Sound(h) && h.lo <= x < h.hi
    ensures exists b: nat :: b in h.blocks && b <= x < h.End(b) && (b in h.free <==> b !in h.live)
    ensures forall b: nat, c: nat :: b in h.blocks && c in h.blocks && b <= x < h.End(b) && c <= x < h.End(c) ==> b == c
  {
    var b := Owner(h, h.lo, x);
  }

  /** Payloads with their stashed bases are disjoint from each other and from every
      block header, free or live. */
  lemma PayloadsApart(h: Heap, b: nat, c: nat)
    requires Sound(h) && b in h.live && c in h.blocks
    ensures h.live[b].payload + h.live[b].want <= c || c + BLOCK_HDR <= h.live[b].payload - WORD
    ensures c in h.live && b != c ==>
              || h.live[b].payload + h.live[b].want <= h.live[c].payload - WORD
              || h.live[c].payload + h.live[c].want <= h.live[b].payload - WORD
  {
    assert LiveOk(h, b, h.live[b]);
    if c in h.live {
      assert LiveOk(h, c, h.live[c]);
    }
  }

  /** With nothing allocated the whole region is one free block again. */
  lemma AllFreed(h: Heap)
    requires Sound(h) && Coalesced(h) && h.live == map[]
    ensures h == Initial(h.lo, h.hi)
  {
    assert h.lo in h.free && Followed(h.hi, h.blocks, h.lo);
    assert h.End(h.lo) == h.hi by {
      assert !Adjacent(h, h.lo, h.End(h.lo));
    }
    assert h.blocks.Keys == {h.lo};
    forall i | 0 <= i < |h.free|
      ensures h.free[i] == h.lo
    {
      assert h.free[i] in h.free;
    }
    OnlyElement(h.free, h.lo);
  }

  lemma OnlyElement(s: seq<nat>, x: nat)
    requires Distinct(s) && x in s && forall i :: 0 <= i < |s| ==> s[i] == x
    ensures s == [x]
  {
    assert s[0] == s[if |s| > 1 then 1 else 0];
  }

  // ---- allocation ----------------------------------------------------------

  lemma RemoveIn(s: seq<nat>, i: nat, x: nat)
    requires Distinct(s) && i < |s|
    ensures x in Remove(s, i) <==> x in s && x != s[i]
  {
    if x in s && x != s[i] {
      var k :| 0 <= k < |s| && s[k] == x;
      assert Remove(s, i)[if k < i then k else k - 1] == x;
    }
  }

  lemma CutKeepsTiled(lo: nat, hi: nat, bs: map<nat, nat>, b: nat, used: nat)
    requires Tiled(lo, hi, bs) && b in bs && used % WORD == 0 && BLOCK_HDR <= used && used + BLOCK_HDR <= SizeIn(bs, b)
    ensures Tiled(lo, hi, Cut(bs, b, used))
  {
    hide Cut, Followed, InRegion, EndIn;
    var bs', t := Cut(bs, b, used), b + used;
    CutParts(lo, hi, bs, b, used);
    forall x: nat {:trigger Followed(hi, bs', x)} | x in bs'
      ensures Followed(hi, bs', x)
    {
      CutPart(lo, hi, bs, b, used, x);
    }
    forall x: nat | x in bs'
      ensures InRegion(lo, hi, bs', x)
    {
      CutPart(lo, hi, bs, b, used, x);
    }
    forall x: nat, y: nat | x in bs' && y in bs' && x < y
      ensures EndIn(bs', x) <= y
    {
      CutApart(lo, hi, bs, b, used, x, y);
    }
  }

  lemma CutPart(lo: nat, hi: nat, bs: map<nat, nat>, b: nat, used: nat, x: nat)
    requires Tiled(lo, hi, bs) && b in bs && used % WORD == 0 && BLOCK_HDR <= used && used + BLOCK_HDR <= SizeIn(bs, b)
    requires x in Cut(bs, b, used)
    ensures Followed(hi, Cut(bs, b, used), x) && InRegion(lo, hi, Cut(bs, b, used), x)
  {
    hide Cut, Tiled;
    CutParts(lo, hi, bs, b, used);
    TiledAt(lo, hi, bs, b);
    if x in bs {
      TiledAt(lo, hi, bs, x);
    }
  }

  lemma TiledAt(lo: nat, hi: nat, bs: map<nat, nat>, b: nat)
    requires Tiled(lo, hi, bs) && b in bs
    ensures Followed(hi, bs, b) && InRegion(lo, hi, bs, b)
  {
  }

  lemma CutApart(lo: nat, hi: nat, bs: map<nat, nat>, b: nat, used: nat, x: nat, y: nat)
    requires Tiled(lo, hi, bs) && b in bs && BLOCK_HDR <= used && used + BLOCK_HDR <= SizeIn(bs, b)
    requires x in Cut(bs, b, used) && y in Cut(bs, b, used) && x < y
    ensures EndIn(Cut(bs, b, used), x) <= y
  {
    hide Cut, Followed;
    CutParts(lo, hi, bs, b, used);
  }

  lemma CutParts(lo: nat, hi: nat, bs: map<nat, nat>, b: nat, used: nat)
    requires Tiled(lo, hi, bs) && b in bs && BLOCK_HDR <= used && used + BLOCK_HDR <= SizeIn(bs, b)
    ensures var bs', t := Cut(bs, b, used), b + used;
            && t !in bs && bs'.Keys == bs.Keys + {t}
            && EndIn(bs', b) == t && EndIn(bs', t) == EndIn(bs, b)
            && forall x: nat :: x in bs && x != b ==> EndIn(bs', x) == EndIn(bs, x)
  {
  }

  lemma CarveKeepsTiled(h: Heap, i: nat, payload: nat, want: nat)
    requires Sound(h) && Room(h, i, payload, want)
    ensures var h' := Carve(h, i, payload, want); Tiled(h'.lo, h'.hi, h'.blocks)
  {
    hide Remove, Followed, Distinct, Tiled;
    var b := h.free[i];
    assert b in h.free;
    TiledAt(h.lo, h.hi, h.blocks, b);
    var used := payload + want - b;
    if used + BLOCK_HDR <= h.Size(b) {
      CutKeepsTiled(h.lo, h.hi, h.blocks, b, used);
    }
  }

  /** The carved block holds the new allocation; every other allocation is as it was. */
  lemma CarveLive(h: Heap, i: nat, payload: nat, want: nat)
    requires Sound(h) && Room(h, i, payload, want)
    ensures var h', b := Carve(h, i, payload, want), h.free[i];
            && h'.live == h.live[b := Live(payload, want)]
            && forall x: nat :: x in h'.live ==> x in h'.blocks && LiveOk(h', x, h'.live[x])
  {
    hide Remove, Followed, Distinct;
    var b := h.free[i];
    assert b in h.free;
  }

  lemma CarveKeepsSound(h: Heap, i: nat, payload: nat, want: nat)
    requires Sound(h) && Room(h, i, payload, want)
    ensures Sound(Carve(h, i, payload, want))
  {
    hide Remove, Tiled, LiveOk;
    CarveKeepsTiled(h, i, payload, want);
    CarveLive(h, i, payload, want);
    CarveFree(h, i, payload, want);
    CarveBlocks(h, i, payload, want);
  }

  lemma CarveBlocks(h: Heap, i: nat, payload: nat, want: nat)
    requires Sound(h) && Room(h, i, payload, want)
    ensures var h', b := Carve(h, i, payload, want), h.free[i];
            && b in h.free
            && (forall x: nat :: x in h'.blocks <==> x in h.blocks || (x == h'.End(b) && h'.End(b) != h.End(b)))
            && (h'.End(b) != h.End(b) ==> h'.End(b) !in h.blocks)
  {
    hide Remove, Followed, LiveOk, Distinct;
    var b := h.free[i];
    assert b in h.free;
  }

  /** The list after an allocation holds the other free blocks, and the rest of the
      carved one if it was split. */
  lemma CarveFree(h: Heap, i: nat, payload: nat, want: nat)
    requires Sound(h) && Room(h, i, payload, want)
    ensures var h', b := Carve(h, i, payload, want), h.free[i];
            && Distinct(h'.free)
            && forall x: nat :: x in h'.free <==> (x in h.free && x != b) || (x == h'.End(b) && h'.End(b) != h.End(b))
  {
    var b, h' := h.free[i], Carve(h, i, payload, want);
    assert b in h.free;
    if h'.End(b) == h.End(b) {
      forall x: nat
        ensures x in h'.free <==> x in h.free && x != b
      {
        RemoveIn(h.free, i, x);
      }
    } else {
      var e := h'.End(b);
      assert h'.free[i] == e;
      assert forall k :: 0 <= k < |h.free| && k != i ==> h'.free[k] == h.free[k];
      assert e !in h.free;
    }
  }

  // ---- coalescing ----------------------------------------------------------

  lemma JoinKeepsTiled(lo: nat, hi: nat, bs: map<nat, nat>, a: nat, e: nat)
    requires Tiled(lo, hi, bs) && a in bs && e in bs && e == EndIn(bs, a)
    ensures Tiled(lo, hi, Join(bs, a, e))
  {
    hide Join, Followed, InRegion, EndIn;
    var bs' := Join(bs, a, e);
    JoinParts(lo, hi, bs, a, e);
    forall x: nat {:trigger Followed(hi, bs', x)} | x in bs'
      ensures Followed(hi, bs', x)
    {
      JoinPart(lo, hi, bs, a, e, x);
    }
    forall x: nat | x in bs'
      ensures InRegion(lo, hi, bs', x)
    {
      JoinPart(lo, hi, bs, a, e, x);
    }
    forall x: nat, y: nat | x in bs' && y in bs' && x < y
      ensures EndIn(bs', x) <= y
    {
      JoinApart(lo, hi, bs, a, e, x, y);
    }
  }

  lemma JoinParts(lo: nat, hi: nat, bs: map<nat, nat>, a: nat, e: nat)
    requires Tiled(lo, hi, bs) && a in bs && e in bs && e == EndIn(bs, a)
    ensures var bs' := Join(bs, a, e);
            && a < e && bs'.Keys == bs.Keys - {e} && lo in bs'
            && EndIn(bs', a) == EndIn(bs, e)
            && forall x: nat :: x in bs' && x != a ==> EndIn(bs', x) == EndIn(bs, x)
  {
    hide Followed;
    assert InRegion(lo, hi, bs, a) && InRegion(lo, hi, bs, e);
  }

  lemma JoinPart(lo: nat, hi: nat, bs: map<nat, nat>, a: nat, e: nat, x: nat)
    requires Tiled(lo, hi, bs) && a in bs && e in bs && e == EndIn(bs, a) && x in Join(bs, a, e)
    ensures Followed(hi, Join(bs, a, e), x) && InRegion(lo, hi, Join(bs, a, e), x)
  {
    hide Join;
    JoinParts(lo, hi, bs, a, e);
    assert Followed(hi, bs, e) && InRegion(lo, hi, bs, e) && Followed(hi, bs, x) && InRegion(lo, hi, bs, x);
    assert InRegion(lo, hi, bs, a);
  }

  lemma JoinApart(lo: nat, hi: nat, bs: map<nat, nat>, a: nat, e: nat, x: nat, y: nat)
    requires Tiled(lo, hi, bs) && a in bs && e in bs && e == EndIn(bs, a)
    requires x in Join(bs, a, e) && y in Join(bs, a, e) && x < y
    ensures EndIn(Join(bs, a, e), x) <= y
  {
    hide Join, Followed, InRegion;
    JoinParts(lo, hi, bs, a, e);
  }

  lemma {:induction false} IndexIn(s: seq<nat>, k: nat)
    requires Distinct(s) && k < |s|
    ensures IndexOf(s, s[k]) == k
  {
    if k > 0 {
      IndexIn(s[1..], k - 1);
    }
  }

  /** Removing an element moves the later ones up and keeps the order. */
  lemma RemoveShifts(s: seq<nat>, i: nat, x: nat)
    requires Distinct(s) && i < |s| && x in s && x != s[i]
    ensures Distinct(Remove(s, i)) && x in Remove(s, i)
    ensures IndexOf(Remove(s, i), x) == if IndexOf(s, x) < i then IndexOf(s, x) else IndexOf(s, x) - 1
  {
    var k, r := IndexOf(s, x), Remove(s, i);
    assert r[if k < i then k else k - 1] == x;
    IndexIn(r, if k < i then k else k - 1);
  }

  /** What absorbing the right neighbour does. */
  ghost predicate Absorbed(h: Heap, a: nat, e: nat, h': Heap) {
    && Sound(h') && h'.live == h.live && h'.lo == h.lo && h'.hi == h.hi && |h'.free| == |h.free| - 1
    && a != e && h'.End(a) == h.End(e)
    && (forall x: nat :: x in h'.free <==> x in h.free && x != e)
    && (forall x: nat :: x in h'.free && x != a ==> h'.End(x) == h.End(x))
  }

  lemma MergeAbsorbs(h: Heap, a: nat, e: nat)
    requires Sound(h) && Adjacent(h, a, e)
    ensures Absorbed(h, a, e, Merge(h, a, e))
  {
    hide Join, Tiled, IndexOf, Remove, EndIn, SizeIn;
    var h', i := Merge(h, a, e), IndexOf(h.free, e);
    JoinParts(h.lo, h.hi, h.blocks, a, e);
    JoinKeepsTiled(h.lo, h.hi, h.blocks, a, e);
    forall x: nat
      ensures x in h'.free <==> x in h.free && x != e
    {
      RemoveIn(h.free, i, x);
    }
    RemoveShifts(h.free, i, a);
    assert |Remove(h.free, i)| == |h.free| - 1 by { RemoveLength(h.free, i); }
  }

  lemma RemoveLength(s: seq<nat>, i: nat)
    requires i < |s|
    ensures |Remove(s, i)| == |s| - 1
  {
  }

  /** Whatever the list, a pass keeps the tiling and every allocation. */
  lemma {:induction false} CoalesceKeepsSound(h: Heap, i: nat)
    requires Sound(h)
    ensures var r := CoalesceFrom(h, i); Sound(r) && r.live == h.live && r.lo == h.lo && r.hi == h.hi
    decreases |h.free| - i
  {
    hide Sound, Merge, IndexOf;
    if i < |h.free| {
      var a := h.free[i];
      var e := h.End(a);
      if e in h.free && e != a {
        MergeAbsorbs(h, a, e);
        CoalesceKeepsSound(Merge(h, a, e), if IndexOf(h.free, e) < i then i else i + 1);
      } else {
        CoalesceKeepsSound(h, i + 1);
      }
    }
  }

  /** Position in the free list, past its end for other addresses. */
  function Place(h: Heap, b: nat): (r: nat)
    ensures b in h.free ==> r < |h.free| && h.free[r] == b
  {
    if b in h.free then IndexOf(h.free, b) else |h.free|
  }

  lemma PlaceOf(h: Heap, k: nat)
    requires Sound(h) && k < |h.free|
    ensures h.free[k] in h.free && Place(h, h.free[k]) == k
  {
    IndexIn(h.free, k);
  }

  /** Of three free blocks in a row, the middle one comes before the first in the list. */
  ghost predicate MiddleFirst(h: Heap) {
    forall x: nat, y: nat, z: nat {:trigger Adjacent(h, x, y), Adjacent(h, y, z)} ::
      Adjacent(h, x, y) && Adjacent(h, y, z) ==> Place(h, y) < Place(h, x)
  }

  /** No block before list position `i` has a free right neighbour. */
  ghost predicate Settled(h: Heap, i: nat) {
    forall x: nat, y: nat {:trigger Adjacent(h, x, y)} :: Adjacent(h, x, y) ==> i <= Place(h, x)
  }

  /** Absorbing keeps the list order of the blocks that stay. */
  lemma MergePlaces(h: Heap, a: nat, e: nat, x: nat)
    requires Sound(h) && Adjacent(h, a, e) && x in h.free && x != e
    ensures x in Merge(h, a, e).free
    ensures Place(Merge(h, a, e), x) == if Place(h, x) < Place(h, e) then Place(h, x) else Place(h, x) - 1
  {
    hide IndexOf, Tiled;
    RemoveShifts(h.free, IndexOf(h.free, e), x);
  }

  /** Two free blocks with the same end are one block. */
  lemma OneLeftNeighbour(h: Heap, x: nat, y: nat)
    requires Sound(h) && x in h.free && y in h.free && h.End(x) == h.End(y)
    ensures x == y
  {
    hide Followed, LiveOk;
  }

  /** Visiting `a` at position `i` settles it, and keeps the others' order. */
  lemma VisitSettles(h: Heap, i: nat, e: nat)
    requires Sound(h) && MiddleFirst(h) && Settled(h, i) && i < |h.free| && Adjacent(h, h.free[i], e)
    ensures var h' := Merge(h, h.free[i], e); MiddleFirst(h') && Settled(h', if Place(h, e) < i then i else i + 1)
  {
    hide Sound, Merge, Place;
    var a := h.free[i];
    var h' := Merge(h, a, e);
    PlaceOf(h, i);
    MergeAbsorbs(h, a, e);
    MergePlaces(h, a, e, a);
    assert !Adjacent(h, e, h.End(e));
    forall x: nat, y: nat {:trigger Adjacent(h', x, y)} | Adjacent(h', x, y)
      ensures Adjacent(h, x, y) && x != a && x != e && y != e && Place(h, x) >= i + 1
    {
      StillAdjacent(h, a, e, x, y);
      PlaceInjective(h, x, a);
    }
    forall x: nat, y: nat {:trigger Adjacent(h', x, y)} | Adjacent(h', x, y)
      ensures Place(h', x) >= if Place(h, e) < i then i else i + 1
    {
      MergePlaces(h, a, e, x);
    }
    forall x: nat, y: nat, z: nat {:trigger Adjacent(h', x, y), Adjacent(h', y, z)}
      | Adjacent(h', x, y) && Adjacent(h', y, z)
      ensures Place(h', y) < Place(h', x)
    {
      MergePlaces(h, a, e, x);
      MergePlaces(h, a, e, y);
    }
  }

  lemma PlaceInjective(h: Heap, x: nat, y: nat)
    requires x in h.free && y in h.free
    ensures Place(h, x) == Place(h, y) ==> x == y
  {
  }

  /** After `a` absorbed `e`, adjacent free blocks were adjacent before, or `a` is the first. */
  lemma StillAdjacent(h: Heap, a: nat, e: nat, x: nat, y: nat)
    requires Sound(h) && Adjacent(h, a, e) && Adjacent(Merge(h, a, e), x, y)
    ensures x != e && y != e && (x == a ==> Adjacent(h, e, y)) && (x != a ==> Adjacent(h, x, y))
  {
    hide Merge, Tiled;
    MergeAbsorbs(h, a, e);
  }

  lemma {:induction false} CoalesceCompletes(h: Heap, i: nat)
    requires Sound(h) && MiddleFirst(h) && Settled(h, i)
    ensures Coalesced(CoalesceFrom(h, i))
    decreases |h.free| - i
  {
    hide Sound, Merge, IndexOf, MiddleFirst;
    if i >= |h.free| {
      forall x: nat, y: nat
        ensures !Adjacent(h, x, y)
      {
      }
    } else {
      var a := h.free[i];
      var e := h.End(a);
      PlaceOf(h, i);
      if e in h.free && e != a {
        MergeAbsorbs(h, a, e);
        VisitSettles(h, i, e);
        CoalesceCompletes(Merge(h, a, e), if IndexOf(h.free, e) < i then i else i + 1);
      } else {
        NotItself(h, a);
        forall x: nat, y: nat {:trigger Adjacent(h, x, y)} | Adjacent(h, x, y)
          ensures i + 1 <= Place(h, x)
        {
          PlaceInjective(h, x, a);
        }
        CoalesceCompletes(h, i + 1);
      }
    }
  }

  lemma NotItself(h: Heap, a: nat)
    requires Sound(h) && a in h.free
    ensures h.End(a) > a
  {
    assert InRegion(h.lo, h.hi, h.blocks, a);
  }

  /** A block already visited whose right neighbour is still free leaves two adjacent
      free blocks behind. */
  lemma {:induction false} VisitedStaysAdjacent(h: Heap, i: nat, u: nat, v: nat)
    requires Sound(h) && Adjacent(h, u, v) && Place(h, u) < i
    ensures !Coalesced(CoalesceFrom(h, i))
    decreases |h.free| - i
  {
    hide Sound, Merge, IndexOf;
    if i < |h.free| {
      var a := h.free[i];
      var e := h.End(a);
      PlaceOf(h, i);
      if e in h.free && e != a {
        var h', i' := Merge(h, a, e), if IndexOf(h.free, e) < i then i else i + 1;
        MergeAbsorbs(h, a, e);
        MergePlaces(h, a, e, a);
        if e == v {
          OneLeftNeighbour(h, a, u);
        }
        if e == u {
          VisitedStaysAdjacent(h', i', a, v);
        } else {
          MergePlaces(h, a, e, u);
          VisitedStaysAdjacent(h', i', u, v);
        }
      } else {
        VisitedStaysAdjacent(h, i + 1, u, v);
      }
    }
  }

  /** Of three free blocks in a row still to be visited, the first before the middle one. */
  lemma {:induction false} FirstBeforeMiddle(h: Heap, i: nat, x: nat, y: nat, z: nat)
    requires Sound(h) && Adjacent(h, x, y) && Adjacent(h, y, z) && i <= Place(h, x) < Place(h, y)
    ensures !Coalesced(CoalesceFrom(h, i))
    decreases |h.free| - i
  {
    hide Sound, Merge, IndexOf;
    var a := h.free[i];
    var e := h.End(a);
    PlaceOf(h, i);
    NotItself(h, x);
    NotItself(h, y);
    if e in h.free && e != a {
      var h', i' := Merge(h, a, e), if IndexOf(h.free, e) < i then i else i + 1;
      MergeAbsorbs(h, a, e);
      MergePlaces(h, a, e, a);
      if a == x {
        VisitedStaysAdjacent(h', i', x, z);
      } else if e == x {
        VisitedStaysAdjacent(h', i', a, y);
      } else {
        OthersKeepRow(h, i, x, y, z, e);
        FirstBeforeMiddle(h', i', x, y, z);
      }
    } else {
      PlaceInjective(h, a, x);
      FirstBeforeMiddle(h, i + 1, x, y, z);
    }
  }

  lemma OthersKeepRow(h: Heap, i: nat, x: nat, y: nat, z: nat, e: nat)
    requires Sound(h) && Adjacent(h, x, y) && Adjacent(h, y, z) && i <= Place(h, x) < Place(h, y)
    requires i < |h.free| && Adjacent(h, h.free[i], e) && h.free[i] != x && e != x
    ensures var h', i' := Merge(h, h.free[i], e), if Place(h, e) < i then i else i + 1;
            Adjacent(h', x, y) && Adjacent(h', y, z) && i' <= Place(h', x) < Place(h', y)
  {
    hide Sound, Merge, Place;
    var a := h.free[i];
    PlaceOf(h, i);
    MergeAbsorbs(h, a, e);
    PlaceInjective(h, a, x);
    if e == y {
      OneLeftNeighbour(h, a, x);
    }
    if e == z {
      OneLeftNeighbour(h, a, y);
    }
    MergePlaces(h, a, e, x);
    MergePlaces(h, a, e, y);
  }

  /** Exactly when one coalescing pass leaves no two adjacent free blocks. */
  lemma CoalesceExactly(h: Heap)
    requires Sound(h)
    ensures Coalesced(CoalesceFrom(h, 0)) <==> MiddleFirst(h)
  {
    hide Sound, CoalesceFrom, Coalesced;
    if MiddleFirst(h) {
      CoalesceCompletes(h, 0);
    } else {
      var x: nat, y: nat, z: nat :| Adjacent(h, x, y) && Adjacent(h, y, z) && Place(h, x) <= Place(h, y);
      PlaceInjective(h, x, y);
      NotItself(h, x);
      FirstBeforeMiddle(h, 0, x, y, z);
    }
  }

  const ROW: Heap := Heap(16, 64, map[16 := 16, 32 := 16, 48 := 16], [16, 32, 48], map[])

  lemma RowIsTiled()
    ensures Tiled(ROW.lo, ROW.hi, ROW.blocks)
  {
    assert forall b: nat :: b in ROW.blocks ==> b == 16 || b == 32 || b == 48;
  }

  lemma RowIsSound()
    ensures Sound(ROW)
  {
    hide Tiled;
    RowIsTiled();
  }

  /** Three free blocks in address order and list order: one pass leaves two. */
  lemma CoalesceExample()
    ensures Sound(ROW) && !Coalesced(CoalesceFrom(ROW, 0))
  {
    hide Sound, Coalesced, CoalesceFrom, Place;
    RowIsSound();
    PlaceOf(ROW, 0);
    PlaceOf(ROW, 1);
    assert Adjacent(ROW, 16, 32) && Adjacent(ROW, 32, 48);
    CoalesceExactly(ROW);
  }

  // ---- operations and runs -------------------------------------------------

  /** Null exactly when no free block fits; otherwise an aligned payload of at least the
      requested size in a block of its own, every other allocation untouched. */
  lemma AllocCorrect(h: Heap, size: nat, shift: nat)
    requires Sound(h) && Coalesced(h)
    ensures var (h', r) := Alloc(h, size, shift);
            && Sound(h') && Coalesced(h')
            && (r.None? <==> forall b: nat :: b in h.free ==> !Fits(h, b, size, shift))
            && (r.None? ==> h' == h)
            && (r.Some? ==> exists b: nat ::
                  b in h.free && b !in h.live && h'.live == h.live[b := Live(r.value, Want(size))])
            && (r.Some? ==> r.value % Pow2(shift) == 0 && size <= Want(size))
  {
    hide Tiled;
    var i := FirstFit(h, 0, size, shift);
    if i < |h.free| {
      var b := h.free[i];
      assert b in h.free;
      var payload, want := PayloadAt(b, shift), Want(size);
      RequestAligned(b, size, shift);
      CarveKeepsSound(h, i, payload, want);
      CarveLive(h, i, payload, want);
      CarveKeepsCoalesced(h, i, payload, want);
      PayloadAligned(b, shift);
    } else {
      forall b: nat | b in h.free
        ensures !Fits(h, b, size, shift)
      {
        var k :| 0 <= k < |h.free| && h.free[k] == b;
      }
    }
  }

  lemma PayloadAligned(b: nat, shift: nat)
    ensures PayloadAt(b, shift) % Pow2(shift) == 0
  {
    var q := AlignUpSpec(b + BLOCK_HDR + WORD, MaxShift(shift));
    if shift < MIN_SHIFT {
      var m := Pow2(MIN_SHIFT - shift);
      assert Pow2(MIN_SHIFT) == m * Pow2(shift);
      assert q * (m * Pow2(shift)) == (q * m) * Pow2(shift);
      MultipleMod(q * m, Pow2(shift));
    } else {
      MultipleMod(q, Pow2(shift));
    }
  }

  /** Where the parts of a cut block end; other blocks end as before. */
  ghost predicate CutAt(bs: map<nat, nat>, bs': map<nat, nat>, b: nat) {
    && b < EndIn(bs', b) < EndIn(bs, b) && EndIn(bs', EndIn(bs', b)) == EndIn(bs, b)
    && forall x: nat :: x in bs && x != b ==> EndIn(bs', x) == EndIn(bs, x)
  }

  lemma CutEnds(lo: nat, hi: nat, bs: map<nat, nat>, b: nat, used: nat)
    requires Tiled(lo, hi, bs) && b in bs && BLOCK_HDR <= used && used + BLOCK_HDR <= SizeIn(bs, b)
    ensures CutAt(bs, Cut(bs, b, used), b)
  {
    hide Tiled, Cut;
    CutParts(lo, hi, bs, b, used);
  }

  /** Carving cuts its own block or none. */
  lemma CarveCuts(h: Heap, i: nat, payload: nat, want: nat)
    requires Tiled(h.lo, h.hi, h.blocks) && Room(h, i, payload, want) && h.free[i] in h.blocks
    ensures var h' := Carve(h, i, payload, want);
            h'.blocks == h.blocks || CutAt(h.blocks, h'.blocks, h.free[i])
  {
    hide Tiled, CutAt, Cut, Remove;
    var b := h.free[i];
    var used := payload + want - b;
    if used + BLOCK_HDR <= h.Size(b) {
      CutEnds(h.lo, h.hi, h.blocks, b, used);
    }
  }

  lemma CarveEnds(h: Heap, i: nat, payload: nat, want: nat)
    requires Sound(h) && Room(h, i, payload, want)
    ensures var h', b := Carve(h, i, payload, want), h.free[i];
            && (forall x: nat :: x in h.free && x != b ==> h'.End(x) == h.End(x))
            && (h'.End(b) != h.End(b) ==> b < h'.End(b) < h.End(b) && h'.End(h'.End(b)) == h.End(b))
  {
    hide Tiled, Distinct, LiveOk, Carve, EndIn;
    assert h.free[i] in h.free;
    CarveCuts(h, i, payload, want);
  }

  lemma CarveKeepsCoalesced(h: Heap, i: nat, payload: nat, want: nat)
    requires Sound(h) && Coalesced(h) && Room(h, i, payload, want)
    ensures Coalesced(Carve(h, i, payload, want))
  {
    hide Carve, LiveOk, Followed, Distinct;
    var b, h' := h.free[i], Carve(h, i, payload, want);
    CarveFree(h, i, payload, want);
    CarveEnds(h, i, payload, want);
    forall x: nat, y: nat
      ensures !Adjacent(h', x, y)
    {
      assert b in h.free && !Adjacent(h, x, y) && !Adjacent(h, b, y);
    }
  }

  lemma PushKeepsSound(h: Heap, b: nat)
    requires Sound(h) && b in h.live
    ensures Sound(Pushed(h, b))
  {
    hide Tiled;
    var h' := Pushed(h, b);
    assert forall x: nat :: x in h'.free <==> x == b || x in h.free;
    assert forall x: nat :: x in h'.live ==> h'.live[x] == h.live[x] && LiveOk(h', x, h'.live[x]);
  }

  /** Only the new head can be adjacent to another free block, and the head comes first. */
  lemma PushedMiddleFirst(h: Heap, b: nat)
    requires Sound(h) && Coalesced(h) && b in h.live
    ensures MiddleFirst(Pushed(h, b))
  {
    hide Sound, IndexOf;
    var h' := Pushed(h, b);
    PushKeepsSound(h, b);
    PlaceOf(h', 0);
    forall x: nat, y: nat, z: nat {:trigger Adjacent(h', x, y), Adjacent(h', y, z)}
      | Adjacent(h', x, y) && Adjacent(h', y, z)
      ensures Place(h', y) < Place(h', x)
    {
      NotItself(h', x);
      PlaceInjective(h', x, y);
      assert !Adjacent(h, x, y) && !Adjacent(h, y, z);
      NotItself(h', y);
    }
  }

  /** Freeing returns the block and restores full coalescing. */
  lemma DeallocCorrect(h: Heap, b: nat)
    requires Sound(h) && Coalesced(h) && b in h.live
    ensures var h' := Dealloc(h, b);
            Sound(h') && Coalesced(h') && h'.live == h.live - {b} && h'.lo == h.lo && h'.hi == h.hi
  {
    hide Sound, Coalesced, CoalesceFrom, MiddleFirst;
    PushKeepsSound(h, b);
    PushedMiddleFirst(h, b);
    CoalesceExactly(Pushed(h, b));
    CoalesceKeepsSound(Pushed(h, b), 0);
  }

  datatype Op = Allocate(size: nat, shift: nat) | Free(block: nat)

  /** Freeing is only asked for an allocation that is live. */
  function Apply(h: Heap, op: Op): Heap {
    match op
    case Allocate(size, shift) => Alloc(h, size, shift).0
    case Free(b) => if b in h.live then Dealloc(h, b) else h
  }

  function Run(h: Heap, ops: seq<Op>): Heap {
    if ops == [] then h else Apply(Run(h, ops[..|ops| - 1]), ops[|ops| - 1])
  }

  lemma InitialIsSound(lo: nat, hi: nat)
    requires 0 < lo && lo % WORD == 0 && lo + BLOCK_HDR <= hi
    ensures Sound(Initial(lo, hi)) && Coalesced(Initial(lo, hi))
  {
  }

  /** After any run blocks tile the region, every block is free or holds one allocation,
      and no two free blocks are adjacent; if everything has been freed, in whatever
      order, the heap is the single block it started as. */
  lemma {:induction false} RunKeeps(lo: nat, hi: nat, ops: seq<Op>)
    requires 0 < lo && lo % WORD == 0 && lo + BLOCK_HDR <= hi
    ensures var h := Run(Initial(lo, hi), ops);
            && Sound(h) && Coalesced(h) && h.lo == lo && h.hi == hi
            && (h.live == map[] ==> h == Initial(lo, hi))
    decreases |ops|
  {
    hide Sound, Coalesced, Alloc, Dealloc;
    var h := Run(Initial(lo, hi), ops);
    if ops == [] {
      InitialIsSound(lo, hi);
    } else {
      RunKeeps(lo, hi, ops[..|ops| - 1]);
      ApplyKeeps(Run(Initial(lo, hi), ops[..|ops| - 1]), ops[|ops| - 1]);
    }
    if h.live == map[] {
      AllFreed(h);
    }
  }

  lemma ApplyKeeps(h: Heap, op: Op)
    requires Sound(h) && Coalesced(h)
    ensures var h' := Apply(h, op); Sound(h') && Coalesced(h') && h'.lo == h.lo && h'.hi == h.hi
  {
    hide Sound, Coalesced, Dealloc;
    match op {
      case Allocate(size, shift) => AllocCorrect(h, size, shift);
      case Free(b) =>
        if b in h.live {
          DeallocCorrect(h, b);
        }
    }
  }
}
