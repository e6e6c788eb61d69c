/** The application heap in memory (cibos-app/src/heap.rs): headers at the start of each
    block, a free list linked through them, and each block's base stashed in the word
    before its payload. Every method is proved to do what `AppHeap` says. */
module HeapMemory {
  import opened AppHeap
  import opened Sequences

  const NULL: nat := 0

  /** Words of memory by address. */
  type Words = map<int, nat>

  function Load(m: Words, a: int): nat {
    if a in m then m[a] else 0
  }

  /** The list element at position `i`, or null past the end. */
  function Link(s: seq<nat>, i: nat): nat {
    if i < |s| then s[i] else NULL
  }

  ghost predicate Sizes(m: Words, h: Heap) {
    forall b: nat :: b in h.blocks ==> Load(m, b) == h.blocks[b]
  }

  predicate LinkAt(m: Words, free: seq<nat>, i: nat)
    requires i < |free|
  {
    Load(m, free[i] + WORD) == Link(free, i + 1)
  }

  ghost predicate Links(m: Words, head: nat, free: seq<nat>) {
    head == Link(free, 0) && forall i: nat {:trigger LinkAt(m, free, i)} :: i < |free| ==> LinkAt(m, free, i)
  }

  ghost predicate Stashes(m: Words, h: Heap) {
    forall b: nat :: b in h.live ==> Load(m, h.live[b].payload - WORD) == b
  }

  /** Memory holds heap `h`: block sizes, the linked free list, the stashed bases. */
  ghost predicate Holds(m: Words, head: nat, h: Heap) {
    Sizes(m, h) && Links(m, head, h.free) && Stashes(m, h)
  }

  // ---- addresses that do not meet ------------------------------------------

  /** Headers of different blocks are disjoint; what lies past the header of one block
      is no other block's header. */
  lemma HeadersApart(h: Heap, b: nat, x: nat, a: nat)
    requires Sound(h) && b in h.blocks && x in h.blocks && (a == b || b <= a < h.End(b))
    ensures x != b ==> a != x && a != x + WORD
    ensures b + BLOCK_HDR <= a ==> a != x && a != x + WORD
  {
    hide Followed, LiveOk, Distinct;
    assert InRegion(h.lo, h.hi, h.blocks, x) && InRegion(h.lo, h.hi, h.blocks, b);
  }

  /** A stashed base is no header word, and allocations have different stashes. */
  lemma StashApart(h: Heap, b: nat, x: nat)
    requires Sound(h) && b in h.live && x in h.blocks
    ensures var s := h.live[b].payload - WORD;
            b + BLOCK_HDR <= s < h.End(b) && s != x && s != x + WORD
            && (x in h.live && x != b ==> s != h.live[x].payload - WORD)
  {
    hide Followed, Distinct;
    assert LiveOk(h, b, h.live[b]);
    HeadersApart(h, b, x, h.live[b].payload - WORD);
    if x in h.live && x != b {
      PayloadsApart(h, b, x);
    }
  }

  lemma FreeInBlocks(h: Heap, k: nat)
    requires Sound(h) && k < |h.free|
    ensures h.free[k] in h.blocks && h.free[k] in h.free && h.free[k] !in h.live
  {
    assert h.free[k] in h.free;
  }

  lemma LiveInBlocks(h: Heap, b: nat)
    requires Sound(h) && b in h.live
    ensures b in h.blocks && b !in h.free
  {
  }

  lemma FreeDistinct(h: Heap, k: nat, l: nat)
    requires Sound(h) && k < |h.free| && l < |h.free| && k != l
    ensures h.free[k] != h.free[l]
  {
  }

  lemma LoadOther(m: Words, a: int, v: nat, x: int)
    requires x != a
    ensures Load(m[a := v], x) == Load(m, x)
  {
  }

  /** A word outside all headers and stashes may change. */
  lemma HoldsElsewhere(m: Words, head: nat, h: Heap, a: nat, v: nat)
    requires Sound(h) && Holds(m, head, h)
    requires forall x: nat :: x in h.blocks ==> a != x && a != x + WORD
    requires forall x: nat :: x in h.live ==> a != h.live[x].payload - WORD
    ensures Holds(m[a := v], head, h)
  {
    hide Sound, Load;
    var m' := m[a := v];
    forall i: nat {:trigger LinkAt(m', h.free, i)} | i < |h.free|
      ensures LinkAt(m', h.free, i)
    {
      assert LinkAt(m, h.free, i);
      FreeInBlocks(h, i);
      LoadOther(m, a, v, h.free[i] + WORD);
    }
    forall b: nat | b in h.blocks
      ensures Load(m', b) == h.blocks[b]
    {
      LoadOther(m, a, v, b);
    }
    forall b: nat | b in h.live
      ensures Load(m', h.live[b].payload - WORD) == b
    {
      LoadOther(m, a, v, h.live[b].payload - WORD);
    }
  }

  // ---- carving an allocation -----------------------------------------------

  /** Writing the link that leads to list position `i` puts `b` there. */
  function Relink(m: Words, free: seq<nat>, i: nat, b: nat): Words
    requires i <= |free|
  {
    if i == 0 then m else m[free[i - 1] + WORD := b]
  }

  function Rehead(head: nat, i: nat, b: nat): nat {
    if i == 0 then b else head
  }

  /** The writes of a split: the tail's header, the link to it, the shortened block, the stash. */
  function SplitWrites(m: Words, h: Heap, i: nat, payload: nat, want: nat): Words
    requires Room(h, i, payload, want)
  {
    var b := h.free[i];
    var nb := payload + want;
    var m1 := m[nb := h.End(b) - nb][nb + WORD := Link(h.free, i + 1)];
    Relink(m1, h.free, i, nb)[b := nb - b][payload - WORD := b]
  }

  /** The writes when the whole block is used: the link past it, the stash. */
  function TakeWrites(m: Words, h: Heap, i: nat, payload: nat, want: nat): Words
    requires Room(h, i, payload, want)
  {
    Relink(m, h.free, i, Link(h.free, i + 1))[payload - WORD := h.free[i]]
  }

  lemma SplitHolds(m: Words, head: nat, h: Heap, i: nat, payload: nat, want: nat)
    requires Sound(h) && Holds(m, head, h) && Room(h, i, payload, want)
    requires payload + want + BLOCK_HDR <= h.End(h.free[i])
    ensures Holds(SplitWrites(m, h, i, payload, want), Rehead(head, i, payload + want), Carve(h, i, payload, want))
  {
    hide Followed, Distinct, Sound;
    var h', b, m' := Carve(h, i, payload, want), h.free[i], SplitWrites(m, h, i, payload, want);
    CarveKeepsSound(h, i, payload, want);
    SplitLinks(m, head, h, i, payload, want);
    SplitSizes(m, head, h, i, payload, want);
    SplitStashes(m, head, h, i, payload, want);
  }

  lemma SplitLinks(m: Words, head: nat, h: Heap, i: nat, payload: nat, want: nat)
    requires Sound(h) && Holds(m, head, h) && Room(h, i, payload, want)
    requires payload + want + BLOCK_HDR <= h.End(h.free[i])
    ensures Links(SplitWrites(m, h, i, payload, want), Rehead(head, i, payload + want), Carve(h, i, payload, want).free)
  {
    hide Sound, Sizes, Stashes, SplitWrites, Load, Cut, SizeIn, LiveOk;
    var free', m' := h.free[i := payload + want], SplitWrites(m, h, i, payload, want);
    forall k: nat {:trigger LinkAt(m', free', k)} | k < |free'|
      ensures LinkAt(m', free', k)
    {
      SplitLink(m, head, h, i, payload, want, k);
    }
  }

  /** What a word reads as after a split's writes. */
  lemma SplitLoad(m: Words, h: Heap, i: nat, payload: nat, want: nat, a: int)
    requires Room(h, i, payload, want)
    ensures Load(SplitWrites(m, h, i, payload, want), a) ==
            if a == payload - WORD then h.free[i]
            else if a == h.free[i] then payload + want - h.free[i]
            else if i > 0 && a == h.free[i - 1] + WORD then payload + want
            else if a == payload + want + WORD then Link(h.free, i + 1)
            else if a == payload + want then h.End(h.free[i]) - (payload + want)
            else Load(m, a)
  {
  }

  lemma SplitLink(m: Words, head: nat, h: Heap, i: nat, payload: nat, want: nat, k: nat)
    requires Sound(h) && Holds(m, head, h) && Room(h, i, payload, want) && k < |h.free|
    requires payload + want + BLOCK_HDR <= h.End(h.free[i])
    ensures Load(SplitWrites(m, h, i, payload, want), h.free[i := payload + want][k] + WORD)
            == Link(h.free[i := payload + want], k + 1)
  {
    hide Sound, Sizes, Stashes, SplitWrites, Load;
    var b, nb, f := h.free[i], payload + want, h.free[k];
    FreeInBlocks(h, i);
    if k == i {
      SplitLoad(m, h, i, payload, want, nb + WORD);
      if i > 0 {
        FreeInBlocks(h, i - 1);
        HeadersApart(h, b, h.free[i - 1], nb + WORD);
      }
    } else {
      assert LinkAt(m, h.free, k);
      FreeInBlocks(h, k);
      FreeDistinct(h, i, k);
      HeadersApart(h, b, f, nb);
      HeadersApart(h, b, f, nb + WORD);
      HeadersApart(h, b, f, payload - WORD);
      HeadersApart(h, b, f, b);
      SplitLoad(m, h, i, payload, want, f + WORD);
      if i > 0 && k != i - 1 {
        FreeDistinct(h, i - 1, k);
      }
    }
  }

  lemma SplitSizes(m: Words, head: nat, h: Heap, i: nat, payload: nat, want: nat)
    requires Sound(h) && Holds(m, head, h) && Room(h, i, payload, want)
    requires payload + want + BLOCK_HDR <= h.End(h.free[i])
    ensures Sizes(SplitWrites(m, h, i, payload, want), Carve(h, i, payload, want))
  {
    hide Tiled, Links, Stashes;
    var h', b, nb, m' := Carve(h, i, payload, want), h.free[i], payload + want, SplitWrites(m, h, i, payload, want);
    FreeInBlocks(h, i);
    forall x: nat | x in h'.blocks
      ensures Load(m', x) == h'.blocks[x]
    {
      if i > 0 {
        FreeInBlocks(h, i - 1);
        HeadersApart(h, b, h.free[i - 1], nb);
        HeadersApart(h, b, h.free[i - 1], b);
      }
      if x in h.blocks {
        HeadersApart(h, b, x, nb);
        HeadersApart(h, b, x, nb + WORD);
        HeadersApart(h, b, x, payload - WORD);
        if i > 0 {
          HeadersApart(h, x, h.free[i - 1], x);
        }
      }
    }
  }

  lemma SplitStashes(m: Words, head: nat, h: Heap, i: nat, payload: nat, want: nat)
    requires Sound(h) && Holds(m, head, h) && Room(h, i, payload, want)
    requires payload + want + BLOCK_HDR <= h.End(h.free[i])
    ensures Stashes(SplitWrites(m, h, i, payload, want), Carve(h, i, payload, want))
  {
    hide Sound, Links, Sizes, SplitWrites, Load, Cut;
    var h', b, nb, m' := Carve(h, i, payload, want), h.free[i], payload + want, SplitWrites(m, h, i, payload, want);
    FreeInBlocks(h, i);
    forall x: nat | x in h'.live
      ensures Load(m', h'.live[x].payload - WORD) == x
    {
      SplitLoad(m, h, i, payload, want, h'.live[x].payload - WORD);
      if x != b {
        LiveInBlocks(h, x);
        StashApart(h, x, b);
        HeadersApart(h, x, b, h.live[x].payload - WORD);
        if i > 0 {
          FreeInBlocks(h, i - 1);
          StashApart(h, x, h.free[i - 1]);
        }
        InsideApart(h, x, b, h.live[x].payload - WORD);
      }
    }
  }

  lemma TakeHolds(m: Words, head: nat, h: Heap, i: nat, payload: nat, want: nat)
    requires Sound(h) && Holds(m, head, h) && Room(h, i, payload, want)
    requires h.End(h.free[i]) < payload + want + BLOCK_HDR
    ensures Holds(TakeWrites(m, h, i, payload, want), Rehead(head, i, Link(h.free, i + 1)), Carve(h, i, payload, want))
  {
    hide Sound, LiveOk, Load, TakeWrites, Sizes, Links, Stashes;
    TakeLinks(m, head, h, i, payload, want);
    TakeRest(m, head, h, i, payload, want);
  }

  /** What a word reads as after the writes that use a whole block. */
  lemma TakeLoad(m: Words, h: Heap, i: nat, payload: nat, want: nat, a: int)
    requires Room(h, i, payload, want)
    ensures Load(TakeWrites(m, h, i, payload, want), a) ==
            if a == payload - WORD then h.free[i]
            else if i > 0 && a == h.free[i - 1] + WORD then Link(h.free, i + 1)
            else Load(m, a)
  {
  }

  lemma TakeLinks(m: Words, head: nat, h: Heap, i: nat, payload: nat, want: nat)
    requires Sound(h) && Holds(m, head, h) && Room(h, i, payload, want)
    requires h.End(h.free[i]) < payload + want + BLOCK_HDR
    ensures Links(TakeWrites(m, h, i, payload, want), Rehead(head, i, Link(h.free, i + 1)),
                  Carve(h, i, payload, want).free)
  {
    hide Sound, Sizes, Stashes, TakeWrites, Load, SizeIn, LiveOk;
    var free', m' := Remove(h.free, i), TakeWrites(m, h, i, payload, want);
    forall k: nat {:trigger LinkAt(m', free', k)} | k < |free'|
      ensures LinkAt(m', free', k)
    {
      TakeLink(m, head, h, i, payload, want, k);
    }
  }

  lemma LinkRemove(s: seq<nat>, i: nat, k: nat)
    requires i < |s|
    ensures Link(Remove(s, i), k) == if k < i then s[k] else Link(s, k + 1)
  {
  }

  lemma TakeLink(m: Words, head: nat, h: Heap, i: nat, payload: nat, want: nat, k: nat)
    requires Sound(h) && Holds(m, head, h) && Room(h, i, payload, want) && k < |h.free| - 1
    ensures Load(TakeWrites(m, h, i, payload, want), Remove(h.free, i)[k] + WORD) == Link(Remove(h.free, i), k + 1)
  {
    hide Sound, Sizes, Stashes, TakeWrites, Load;
    var k' := if k < i then k else k + 1;
    assert Remove(h.free, i)[k] == h.free[k'] && LinkAt(m, h.free, k');
    LinkRemove(h.free, i, k + 1);
    FreeInBlocks(h, i);
    FreeInBlocks(h, k');
    FreeDistinct(h, i, k');
    HeadersApart(h, h.free[i], h.free[k'], payload - WORD);
    TakeLoad(m, h, i, payload, want, h.free[k'] + WORD);
    if i > 0 && k' != i - 1 {
      FreeDistinct(h, i - 1, k');
    }
  }

  lemma TakeRest(m: Words, head: nat, h: Heap, i: nat, payload: nat, want: nat)
    requires Sound(h) && Holds(m, head, h) && Room(h, i, payload, want)
    requires h.End(h.free[i]) < payload + want + BLOCK_HDR
    ensures Sizes(TakeWrites(m, h, i, payload, want), Carve(h, i, payload, want))
    ensures Stashes(TakeWrites(m, h, i, payload, want), Carve(h, i, payload, want))
  {
    hide Sound, Links, TakeWrites, Load, Remove;
    var h', b, m' := Carve(h, i, payload, want), h.free[i], TakeWrites(m, h, i, payload, want);
    FreeInBlocks(h, i);
    if i > 0 {
      FreeInBlocks(h, i - 1);
    }
    forall x: nat | x in h'.blocks
      ensures Load(m', x) == h'.blocks[x]
    {
      TakeLoad(m, h, i, payload, want, x);
      HeadersApart(h, b, x, payload - WORD);
      if i > 0 {
        HeadersApart(h, x, h.free[i - 1], x);
      }
    }
    forall x: nat | x in h'.live
      ensures Load(m', h'.live[x].payload - WORD) == x
    {
      TakeLoad(m, h, i, payload, want, h'.live[x].payload - WORD);
      if x != b {
        LiveInBlocks(h, x);
        StashApart(h, x, b);
        InsideApart(h, x, b, h.live[x].payload - WORD);
        if i > 0 {
          StashApart(h, x, h.free[i - 1]);
        }
      }
    }
  }

  /** An address in one block is not in another. */
  lemma InsideApart(h: Heap, x: nat, b: nat, a: nat)
    requires Sound(h) && x in h.blocks && b in h.blocks && x != b && x <= a < h.End(x)
    ensures a < b || h.End(b) <= a
  {
    hide Followed, LiveOk, Distinct;
  }

  // ---- absorbing a neighbour -----------------------------------------------

  /** The writes of a merge: the grown size of `a`, the link past position `j`. */
  function MergeWrites(m: Words, free: seq<nat>, a: nat, j: nat): Words
    requires j < |free|
  {
    Relink(m[a := Load(m, a) + Load(m, free[j])], free, j, Link(free, j + 1))
  }

  lemma MergeLoad(m: Words, free: seq<nat>, a: nat, j: nat, x: int)
    requires j < |free|
    ensures Load(MergeWrites(m, free, a, j), x) ==
            if j > 0 && x == free[j - 1] + WORD then Link(free, j + 1)
            else if x == a then Load(m, a) + Load(m, free[j])
            else Load(m, x)
  {
  }

  lemma MergeHolds(m: Words, head: nat, h: Heap, a: nat, j: nat)
    requires Sound(h) && Holds(m, head, h) && j < |h.free| && Adjacent(h, a, h.free[j])
    ensures Holds(MergeWrites(m, h.free, a, j), Rehead(head, j, Link(h.free, j + 1)), Merge(h, a, h.free[j]))
    ensures Place(h, h.free[j]) == j
  {
    hide Sound, Load, MergeWrites, Sizes, Links, Stashes;
    PlaceOf(h, j);
    MergeLinks(m, head, h, a, j);
    MergeRest(m, head, h, a, j);
  }

  lemma MergeLinks(m: Words, head: nat, h: Heap, a: nat, j: nat)
    requires Sound(h) && Holds(m, head, h) && j < |h.free| && Adjacent(h, a, h.free[j])
    ensures Links(MergeWrites(m, h.free, a, j), Rehead(head, j, Link(h.free, j + 1)), Merge(h, a, h.free[j]).free)
  {
    hide Sound, Sizes, Stashes, MergeWrites, Load, Join;
    PlaceOf(h, j);
    var free', m' := Remove(h.free, j), MergeWrites(m, h.free, a, j);
    forall k: nat {:trigger LinkAt(m', free', k)} | k < |free'|
      ensures LinkAt(m', free', k)
    {
      MergeLink(m, head, h, a, j, k);
    }
  }

  lemma MergeLink(m: Words, head: nat, h: Heap, a: nat, j: nat, k: nat)
    requires Sound(h) && Holds(m, head, h) && j < |h.free| && Adjacent(h, a, h.free[j]) && k < |h.free| - 1
    ensures Load(MergeWrites(m, h.free, a, j), Remove(h.free, j)[k] + WORD) == Link(Remove(h.free, j), k + 1)
  {
    hide Sound, Sizes, Stashes, MergeWrites, Load;
    var k' := if k < j then k else k + 1;
    assert Remove(h.free, j)[k] == h.free[k'] && LinkAt(m, h.free, k');
    LinkRemove(h.free, j, k + 1);
    FreeInBlocks(h, k');
    FreeInBlocks(h, Place(h, a));
    HeadersApart(h, a, h.free[k'], a);
    MergeLoad(m, h.free, a, j, h.free[k'] + WORD);
    if j > 0 && k' != j - 1 {
      FreeDistinct(h, j - 1, k');
    }
  }

  lemma MergeRest(m: Words, head: nat, h: Heap, a: nat, j: nat)
    requires Sound(h) && Holds(m, head, h) && j < |h.free| && Adjacent(h, a, h.free[j])
    ensures Sizes(MergeWrites(m, h.free, a, j), Merge(h, a, h.free[j]))
    ensures Stashes(MergeWrites(m, h.free, a, j), Merge(h, a, h.free[j]))
  {
    hide Sound, Links, MergeWrites, Load, Remove;
    var h', m' := Merge(h, a, h.free[j]), MergeWrites(m, h.free, a, j);
    FreeInBlocks(h, Place(h, a));
    FreeInBlocks(h, j);
    if j > 0 {
      FreeInBlocks(h, j - 1);
    }
    forall x: nat | x in h'.blocks
      ensures Load(m', x) == h'.blocks[x]
    {
      MergeLoad(m, h.free, a, j, x);
      if j > 0 {
        HeadersApart(h, x, h.free[j - 1], x);
      }
    }
    forall x: nat | x in h'.live
      ensures Load(m', h'.live[x].payload - WORD) == x
    {
      MergeLoad(m, h.free, a, j, h.live[x].payload - WORD);
      StashApart(h, x, a);
      if j > 0 {
        StashApart(h, x, h.free[j - 1]);
      }
    }
  }

  class Allocator {
    var mem: Words
    var head: nat
    var initialized: bool
    ghost var heap: Heap

    ghost predicate Valid()
      reads this
    {
      if initialized then Sound(heap) && Coalesced(heap) && Holds(mem, head, heap) else head == NULL
    }

    constructor ()
      ensures Valid() && !initialized
    {
      head, initialized := NULL, false;
    }

    /** Install `base..base + size` as one free block, once, if a header fits. */
    method Init(base: nat, size: nat)
      requires Valid() && base > 0 && base % WORD == 0
      modifies this
      ensures Valid()
      ensures old(initialized) || size < BLOCK_HDR ==> unchanged(this)
      ensures !old(initialized) && size >= BLOCK_HDR ==> initialized && heap == Initial(base, base + size)
    {
      if initialized || size < BLOCK_HDR {
        return;
      }
      mem := mem[base := size][base + WORD := NULL];
      head := base;
      initialized := true;
      heap := Initial(base, base + size);
      InitialIsSound(base, base + size);
    }

    /** The application writes an aligned word of a payload it holds. */
    method Store(ghost b: nat, a: nat, v: nat)
      requires Valid() && initialized && b in heap.live && a % WORD == 0
      requires heap.live[b].payload <= a < heap.live[b].payload + heap.live[b].want
      modifies this`mem
      ensures Valid() && Load(mem, a) == v && forall x: nat :: x != a ==> Load(mem, x) == old(Load(mem, x))
    {
      hide Followed, Distinct, Coalesced;
      assert LiveOk(heap, b, heap.live[b]);
      forall x: nat | x in heap.blocks
        ensures a != x && a != x + WORD
      {
        HeadersApart(heap, b, x, a);
      }
      forall x: nat | x in heap.live
        ensures a != heap.live[x].payload - WORD
      {
        if x != b {
          PayloadsApart(heap, b, x);
        }
      }
      HoldsElsewhere(mem, head, heap, a, v);
      mem := mem[a := v];
    }
  
    /** First-fit allocation; null when no free block fits. */
    method Alloc(size: nat, shift: nat) returns (p: nat)
      requires Valid()
      modifies this`mem, this`head, this`heap
      ensures Valid() && (!initialized ==> p == NULL)
      ensures initialized ==>
                var (h, r) := AppHeap.Alloc(old(heap), size, shift); heap == h && p == if r.Some? then r.value else NULL
    {
      hide Sound, Coalesced, Carve, AlignUp, Sizes, Stashes;
      var prev, cur := NULL, head;
      ghost var i: nat := 0;
      while cur != NULL
        invariant mem == old(mem) && head == old(head) && heap == old(heap)
        invariant !initialized ==> cur == NULL
        invariant initialized ==>
                    i <= |heap.free| && cur == Link(heap.free, i) && prev == (if i == 0 then NULL else heap.free[i - 1])
        invariant initialized ==> FirstFit(heap, i, size, shift) == FirstFit(heap, 0, size, shift)
        decreases if initialized then |heap.free| - i else 0
      {
        var curSize, next := Load(mem, cur), Load(mem, cur + WORD);
        var payload, want := PayloadAt(cur, shift), Want(size);
        var usedEnd := payload + want;
        FreeBlockAt(mem, head, heap, i);
        if usedEnd <= cur + curSize {
          RequestAligned(cur, size, shift);
          AllocCorrect(heap, size, shift);
          Use(prev, cur, curSize, next, payload, want, i);
          return payload;
        }
        prev, cur, i := cur, next, i + 1;
      }
      if initialized {
        EndOfList(heap, i);
      }
      return NULL;
    }

    /** Cut the allocation from block `cur`, the list element after `prev`. */
    method Use(prev: nat, cur: nat, curSize: nat, next: nat, payload: nat, want: nat, ghost i: nat)
      requires initialized && Sound(heap) && Holds(mem, head, heap) && Room(heap, i, payload, want)
      requires cur == heap.free[i] && prev == (if i == 0 then NULL else heap.free[i - 1])
      requires curSize == heap.Size(cur) && next == Link(heap.free, i + 1)
      modifies this`mem, this`head, this`heap
      ensures heap == Carve(old(heap), i, payload, want) && Holds(mem, head, heap)
    {
      hide Sound, Holds, Carve;
      var used := payload + want - cur;
      var leftover := curSize - used;
      if i > 0 {
        FreePositive(heap, i - 1);
      }
      if leftover >= BLOCK_HDR {
        SplitHolds(mem, head, heap, i, payload, want);
        var nb := cur + used;
        mem := mem[nb := leftover][nb + WORD := next];
        if prev == NULL {
          head := nb;
        } else {
          mem := mem[prev + WORD := nb];
        }
        mem := mem[cur := used];
      } else {
        TakeHolds(mem, head, heap, i, payload, want);
        if prev == NULL {
          head := next;
        } else {
          mem := mem[prev + WORD := next];
        }
      }
      mem := mem[payload - WORD := cur];
      heap := Carve(heap, i, payload, want);
    }

    /** Free a payload: recover its block from the stash, push it, coalesce. */
    method Dealloc(p: nat, ghost b: nat)
      requires Valid()
      requires p != NULL ==> initialized && b in heap.live && heap.live[b].payload == p
      modifies this`mem, this`head, this`heap
      ensures Valid() && heap == if p == NULL then old(heap) else AppHeap.Dealloc(old(heap), b)
    {
      hide Sound, Coalesced, CoalesceFrom;
      if p == NULL {
        return;
      }
      DeallocCorrect(heap, b);
      PushHolds(mem, head, heap, b);
      PushKeepsSound(heap, b);
      var block := Load(mem, p - WORD);
      mem := mem[block + WORD := head];
      head := block;
      heap := Pushed(heap, b);
      Coalesce();
    }

    /** One pass over the list; each block absorbs the free block that starts where it
        ended when its turn came. */
    method Coalesce()
      requires initialized && Sound(heap) && Holds(mem, head, heap)
      modifies this`mem, this`head, this`heap
      ensures Holds(mem, head, heap) && heap == CoalesceFrom(old(heap), 0)
    {
      hide Sound, Holds, Merge, IndexOf;
      var a := head;
      ghost var i: nat := 0;
      HeadLink(mem, head, heap);
      while a != NULL
        invariant Sound(heap) && Holds(mem, head, heap) && i <= |heap.free| && a == Link(heap.free, i)
        invariant CoalesceFrom(heap, i) == CoalesceFrom(old(heap), 0)
        decreases |heap.free| - i
      {
        FreeBlockAt(mem, head, heap, i);
        var at := Absorb(a, a + Load(mem, a), i);
        FreeBlockAt(mem, head, heap, at);
        a := Load(mem, a + WORD);
        i := at + 1;
      }
      EndOfList(heap, i);
    }

    /** Grow `a` by block `b` and take `b`, the list element after `prev`, out of the list. */
    method Unlink(a: nat, prev: nat, b: nat, ghost i: nat, ghost j: nat)
      requires initialized && Sound(heap) && Holds(mem, head, heap) && i < |heap.free| && heap.free[i] == a
      requires j < |heap.free| && heap.free[j] == b && prev == (if j == 0 then NULL else heap.free[j - 1])
               && Adjacent(heap, a, b)
      modifies this`mem, this`head, this`heap
      ensures heap == Merge(old(heap), a, b) && Holds(mem, head, heap)
    {
      hide Sound, Holds, Merge, IndexOf;
      MergeHolds(mem, head, heap, a, j);
      FreeBlockAt(mem, head, heap, j);
      FreePositive(heap, j);
      if j > 0 {
        FreePositive(heap, j - 1);
      }
      LinkKept(heap, a, i, j);
      mem := mem[a := Load(mem, a) + Load(mem, b)];
      var next := Load(mem, b + WORD);
      if prev == NULL {
        head := next;
      } else {
        mem := mem[prev + WORD := next];
      }
      heap := Merge(heap, a, b);
    }

    /** Scan the list for the block that starts at `aEnd`, absorb it into `a`, and scan
        again from the head; returns the list position of `a` afterwards. */
    method Absorb(a: nat, aEnd: nat, ghost i: nat) returns (ghost at: nat)
      requires initialized && Sound(heap) && Holds(mem, head, heap) && i < |heap.free| && heap.free[i] == a
               && aEnd == heap.End(a)
      modifies this`mem, this`head, this`heap
      ensures Sound(heap) && Holds(mem, head, heap) && at < |heap.free| && heap.free[at] == a
      ensures CoalesceFrom(heap, at + 1) == CoalesceFrom(old(heap), i) && |heap.free| - at <= |old(heap.free)| - i
    {
      hide Sound, Holds, Merge, IndexOf;
      var prev, b := NULL, head;
      ghost var j, merged := 0, false;
      at := i;
      HeadLink(mem, head, heap);
      NotItself(heap, a);
      while b != NULL
        invariant Sound(heap) && Holds(mem, head, heap) && j <= |heap.free| && b == Link(heap.free, j)
        invariant prev == (if j == 0 then NULL else heap.free[j - 1])
        invariant at < |heap.free| && heap.free[at] == a
        invariant !merged ==> heap == old(heap) && at == i && aEnd !in heap.free[..j]
        invariant merged ==> Adjacent(old(heap), a, aEnd) && heap == Merge(old(heap), a, aEnd)
        invariant merged ==> |heap.free| == |old(heap.free)| - 1 && aEnd !in heap.free
        invariant merged ==> at + 1 == if Place(old(heap), aEnd) < i then i else i + 1
        decreases |heap.free|, |heap.free| - j
      {
        FreeBlockAt(mem, head, heap, j);
        if b != a && b == aEnd {
          MergeAbsorbs(heap, a, b);
          PlaceOf(heap, i);
          PlaceOf(heap, j);
          MergePlaces(heap, a, b, a);
          Unlink(a, prev, b, i, j);
          at := Place(heap, a);
          HeadLink(mem, head, heap);
          prev, b, j, merged := NULL, head, 0, true;
          continue;
        }
        prev, b, j := b, Load(mem, b + WORD), j + 1;
      }
      EndOfList(heap, j);
    }
  }

  lemma FreePositive(h: Heap, i: nat)
    requires Sound(h) && i < |h.free|
    ensures h.free[i] > 0
  {
    FreeInBlocks(h, i);
    assert InRegion(h.lo, h.hi, h.blocks, h.free[i]);
  }

  /** The header of one free block is not the link of another. */
  lemma LinkKept(h: Heap, a: nat, i: nat, j: nat)
    requires Sound(h) && i < |h.free| && j < |h.free| && h.free[i] == a
    ensures a != h.free[j] + WORD
  {
    hide Sound;
    FreeInBlocks(h, i);
    FreeInBlocks(h, j);
    HeadersApart(h, a, h.free[j], a);
  }

  lemma HeadLink(m: Words, head: nat, h: Heap)
    requires Holds(m, head, h)
    ensures head == Link(h.free, 0)
  {
  }

  /** The header of the block at a list position. */
  lemma FreeBlockAt(m: Words, head: nat, h: Heap, i: nat)
    requires Sound(h) && Holds(m, head, h) && i < |h.free|
    ensures Load(m, h.free[i]) == h.Size(h.free[i]) && Load(m, h.free[i] + WORD) == Link(h.free, i + 1)
  {
    assert LinkAt(m, h.free, i);
    FreeInBlocks(h, i);
  }

  /** A null link is the end of the list. */
  lemma EndOfList(h: Heap, i: nat)
    requires Sound(h) && i <= |h.free| && Link(h.free, i) == NULL
    ensures i == |h.free| && h.free[..i] == h.free
  {
    if i < |h.free| {
      FreePositive(h, i);
    }
  }

  lemma PushHolds(m: Words, head: nat, h: Heap, b: nat)
    requires Sound(h) && Holds(m, head, h) && b in h.live
    ensures Load(m, h.live[b].payload - WORD) == b && Holds(m[b + WORD := head], b, Pushed(h, b))
  {
    hide Sound, Load;
    var h', m' := Pushed(h, b), m[b + WORD := head];
    LiveInBlocks(h, b);
    forall i: nat {:trigger LinkAt(m', h'.free, i)} | i < |h'.free|
      ensures LinkAt(m', h'.free, i)
    {
      if i > 0 {
        assert LinkAt(m, h.free, i - 1);
        FreeInBlocks(h, i - 1);
        LoadOther(m, b + WORD, head, h.free[i - 1] + WORD);
      } else {
        LoadHere(m, b + WORD, head);
      }
    }
    forall x: nat | x in h'.blocks
      ensures Load(m', x) == h'.blocks[x]
    {
      HeadersApart(h, x, b, x);
      LoadOther(m, b + WORD, head, x);
    }
    forall x: nat | x in h'.live
      ensures Load(m', h'.live[x].payload - WORD) == x
    {
      StashApart(h, x, b);
      LoadOther(m, b + WORD, head, h.live[x].payload - WORD);
    }
  }

  lemma LoadHere(m: Words, a: int, v: nat)
    ensures Load(m[a := v], a) == v
  {
  }
}
