/** `map_range` (cibos-kernel/src/paging.rs): 2 MiB blocks for the aligned bulk and
    4 KiB pages elsewhere, shown to translate exactly like mapping page by page. */
module Ranges {
  import opened Division
  import opened LittleEndian
  import opened PageEncoding
  import opened Addressing
  import opened FramePool
  import opened PageTables
  import opened Mapping
  import opened Options

  /** The next chunk of a range goes into one 2 MiB block. */
  predicate UsesBlock(v: nat, p: nat, remaining: nat) {
    v % BLOCK_2M == 0 && p % BLOCK_2M == 0 && remaining >= ENTRIES
  }

  /** One iteration of `map_range` at page `i`, and the page it goes on to. `blocks`
      false is plain page-by-page mapping. */
  function MapStep(E: Encoder, m: Machine, root: nat, virt: nat, phys: nat, count: nat, perms: Permissions,
                   blocks: bool, i: nat): ((Machine, MapResult), nat)
    requires i < count
  {
    var v, p := virt + i * FRAME_SIZE, phys + i * FRAME_SIZE;
    if blocks && UsesBlock(v, p, count - i) then (MapBlock(E, m, root, v, p / FRAME_SIZE, perms), i + ENTRIES)
    else (Map(E, m, root, v, p / FRAME_SIZE, perms), i + 1)
  }

  function MapFrom(E: Encoder, m: Machine, root: nat, virt: nat, phys: nat, count: nat, perms: Permissions,
                   blocks: bool, i: nat): (Machine, MapResult)
    decreases count - i
  {
    if i >= count then (m, Mapped)
    else
      var s := MapStep(E, m, root, virt, phys, count, perms, blocks, i);
      if s.0.1.Mapped? then MapFrom(E, s.0.0, root, virt, phys, count, perms, blocks, s.1) else s.0
  }

  function MapRange(E: Encoder, m: Machine, root: nat, virt: nat, phys: nat, count: nat, perms: Permissions)
    : (Machine, MapResult)
  {
    MapFrom(E, m, root, virt, phys, count, perms, true, 0)
  }

  function MapPages(E: Encoder, m: Machine, root: nat, virt: nat, phys: nat, count: nat, perms: Permissions)
    : (Machine, MapResult)
  {
    MapFrom(E, m, root, virt, phys, count, perms, false, 0)
  }

  // ---- the meaning of a mapped range ---------------------------------------

  function PageAt(virt: nat, j: nat): nat {
    PageOf(virt + j * FRAME_SIZE)
  }

  lemma PageAtShift(virt: nat, i: nat, j: nat)
    ensures PageAt(virt + i * FRAME_SIZE, j) == PageAt(virt, i + j)
  {
    assert virt + i * FRAME_SIZE + j * FRAME_SIZE == virt + (i + j) * FRAME_SIZE;
  }

  /** `q` is in none of the first `n` pages from `virt`. */
  ghost predicate Outside(q: nat, virt: nat, n: nat) {
    forall j: nat :: j < n ==> PageOf(q) != PageAt(virt, j)
  }

  /** `virt + o` translates to offset `o` from the page of `phys`. */
  predicate Linear(E: Encoder, mem: Memory, root: nat, virt: nat, phys: nat, o: nat) {
    Translate(E, mem, root, virt + o) == Some((phys / FRAME_SIZE) * FRAME_SIZE + o)
  }

  /** The first `n` pages from `virt` translate to consecutive physical pages from
      the page of `phys`, and every other address is decided as in `mem0`. */
  ghost predicate RangeDone(E: Encoder, mem0: Memory, mem: Memory, root: nat, virt: nat, phys: nat, n: nat) {
    && (forall o: nat :: o < n * FRAME_SIZE ==> Linear(E, mem, root, virt, phys, o))
    && (forall q: nat :: Outside(q, virt, n) ==> LookupAt(E, mem, root, q) == LookupAt(E, mem0, root, q))
  }

  lemma SamePageSameLookup(E: Encoder, mem: Memory, root: nat, q: nat, v: nat)
    requires PageOf(q) == PageOf(v)
    ensures LookupAt(E, mem, root, q) == LookupAt(E, mem, root, v)
  {
    IndexOfPage(q);
    IndexOfPage(v);
    assert Indices(q) == Indices(v);
  }

  /** Addresses are 64-bit sums in the code, but only their low 48 bits are walked and only
      their low bits are added, so a sum that wraps around is the same address. */
  lemma WrappedAddress(v: nat)
    ensures Indices(v % WORD_LIMIT) == Indices(v)
    ensures forall l :: 0 <= l < LEVELS ==> v % WORD_LIMIT % Span(l) == v % Span(l)
  {
    var q, r := v / WORD_LIMIT, v % WORD_LIMIT;
    forall l: nat | l < LEVELS
      ensures Index(r, l) == Index(v, l) && r % Span(l) == v % Span(l)
    {
      WrappedIndex(v, q, r, l);
    }
  }

  lemma WrappedIndex(v: nat, q: nat, r: nat, l: nat)
    requires v == q * WORD_LIMIT + r && l < LEVELS
    ensures Index(r, l) == Index(v, l) && r % Span(l) == v % Span(l)
  {
    var n := WORD_LIMIT / Span(l) / ENTRIES;
    assert WORD_LIMIT == n * ENTRIES * Span(l);
    DivMod(v, Span(l), q * n * ENTRIES + r / Span(l), r % Span(l));
    var i := r / Span(l);
    DivMod(q * n * ENTRIES + i, ENTRIES, q * n + i / ENTRIES, i % ENTRIES);
  }

  lemma WrappedTranslation(E: Encoder, mem: Memory, root: nat, v: nat)
    ensures Translate(E, mem, root, v % WORD_LIMIT) == Translate(E, mem, root, v)
  {
    WrappedAddress(v);
  }

  /** So mapping at a wrapped sum is mapping at the sum. */
  lemma WrappedMap(E: Encoder, m: Machine, root: nat, v: nat, f: nat, perms: Permissions)
    ensures Map(E, m, root, v % WORD_LIMIT, f, perms) == Map(E, m, root, v, f, perms)
    ensures MapBlock(E, m, root, v % WORD_LIMIT, f, perms) == MapBlock(E, m, root, v, f, perms)
  {
    hide Insert;
    WrappedAddress(v);
    assert Span(LEVELS - 1) == FRAME_SIZE && Span(LEVELS - 2) == BLOCK_2M;
  }

  lemma SameTranslation(E: Encoder, mem: Memory, root: nat, q: nat, x: nat)
    requires PageOf(q) == PageOf(x) && q % FRAME_SIZE == x % FRAME_SIZE
    ensures Translate(E, mem, root, q) == Translate(E, mem, root, x)
  {
    SamePageSameLookup(E, mem, root, q, x);
    var h := LookupAt(E, mem, root, q);
    if h.Some? {
      SameOffset(q, x, h.value.level);
    }
  }

  /** An address that translated before keeps its translation when only unmapped
      addresses near `v` were given one. */
  lemma KeepsTranslation(E: Encoder, mem: Memory, mem': Memory, root: nat, v: nat, h: Hit, q: nat)
    requires OnlyNear(E, mem, mem', root, v, h, true)
    requires forall x: nat :: Near(x, v, h.level) ==> LookupAt(E, mem, root, x).None?
    requires Translate(E, mem, root, q).Some?
    ensures Translate(E, mem', root, q) == Translate(E, mem, root, q)
  {
    assert LookupAt(E, mem, root, q).Some?;
    assert !Near(q, v, h.level);
    assert LookupAt(E, mem', root, q) == LookupAt(E, mem, root, q);
  }

  lemma OutsideKept(E: Encoder, mem0: Memory, mem: Memory, mem': Memory, root: nat, virt: nat, phys: nat, i: nat,
                    n: nat, h: Hit, q: nat)
    requires RangeDone(E, mem0, mem, root, virt, phys, i) && i <= n
    requires OnlyNear(E, mem, mem', root, virt + i * FRAME_SIZE, h, true) && !Near(q, virt + i * FRAME_SIZE, h.level)
    requires Outside(q, virt, n)
    ensures LookupAt(E, mem', root, q) == LookupAt(E, mem0, root, q)
  {
    assert Outside(q, virt, i);
  }

  lemma LinearKept(E: Encoder, mem: Memory, mem': Memory, root: nat, virt: nat, phys: nat, v: nat, h: Hit, o: nat)
    requires Linear(E, mem, root, virt, phys, o) && OnlyNear(E, mem, mem', root, v, h, true)
    requires forall x: nat :: Near(x, v, h.level) ==> LookupAt(E, mem, root, x).None?
    ensures Linear(E, mem', root, virt, phys, o)
  {
    KeepsTranslation(E, mem, mem', root, v, h, virt + o);
  }

  lemma NearIsUnmapped(E: Encoder, mem: Memory, root: nat, v: nat)
    requires LookupAt(E, mem, root, v).None?
    ensures forall x: nat :: Near(x, v, LEVELS - 1) ==> LookupAt(E, mem, root, x).None?
  {
    forall x: nat | Near(x, v, LEVELS - 1)
      ensures LookupAt(E, mem, root, x).None?
    {
      SamePageSameLookup(E, mem, root, x, v);
    }
  }

  lemma PageLinear(E: Encoder, mem: Memory, mem': Memory, root: nat, virt: nat, phys: nat, i: nat, h: Hit, o: nat)
    requires virt % FRAME_SIZE == 0 && i * FRAME_SIZE <= o < (i + 1) * FRAME_SIZE
    requires OnlyNear(E, mem, mem', root, virt + i * FRAME_SIZE, h, true) && h.level == LEVELS - 1
    requires E.entryFrame(h.entry) == phys / FRAME_SIZE + i
    ensures Linear(E, mem', root, virt, phys, o)
  {
    hide OnlyNear, Lookup, PhysicalOf;
    PageTranslates(E, mem, mem', root, virt + i * FRAME_SIZE, phys / FRAME_SIZE + i, h, o - i * FRAME_SIZE);
  }

  lemma PageStep(E: Encoder, mem0: Memory, mem: Memory, mem': Memory, root: nat, virt: nat, phys: nat, i: nat, h: Hit)
    requires RangeDone(E, mem0, mem, root, virt, phys, i) && virt % FRAME_SIZE == 0
    requires OnlyNear(E, mem, mem', root, virt + i * FRAME_SIZE, h, true) && h.level == LEVELS - 1
    requires E.entryFrame(h.entry) == phys / FRAME_SIZE + i
    requires LookupAt(E, mem, root, virt + i * FRAME_SIZE).None?
    ensures RangeDone(E, mem0, mem', root, virt, phys, i + 1)
  {
    hide OnlyNear, Lookup, PageOf, Linear;
    var v := virt + i * FRAME_SIZE;
    NearIsUnmapped(E, mem, root, v);
    forall o: nat | o < (i + 1) * FRAME_SIZE
      ensures Linear(E, mem', root, virt, phys, o)
    {
      if o < i * FRAME_SIZE {
        LinearKept(E, mem, mem', root, virt, phys, v, h, o);
      } else {
        PageLinear(E, mem, mem', root, virt, phys, i, h, o);
      }
    }
    forall q: nat | Outside(q, virt, i + 1)
      ensures LookupAt(E, mem', root, q) == LookupAt(E, mem0, root, q)
    {
      assert PageOf(q) != PageAt(virt, i);
      OutsideKept(E, mem0, mem, mem', root, virt, phys, i, i + 1, h, q);
    }
  }

  /** The pages of the 2 MiB block at `v` are its 512 consecutive pages. */
  lemma BlockPages(q: nat, v: nat) returns (j: nat)
    requires v % BLOCK_2M == 0 && Near(q, v, LEVELS - 2)
    ensures j < ENTRIES && PageOf(q) == PageAt(v, j)
  {
    j := PageOf(q) % ENTRIES;
    BlockPage(v, j);
  }

  lemma BlockStep(E: Encoder, mem0: Memory, mem: Memory, mem': Memory, root: nat, virt: nat, phys: nat, i: nat, h: Hit)
    requires RangeDone(E, mem0, mem, root, virt, phys, i) && (virt + i * FRAME_SIZE) % BLOCK_2M == 0
    requires OnlyNear(E, mem, mem', root, virt + i * FRAME_SIZE, h, true) && h.level == LEVELS - 2
    requires E.entryFrame(h.entry) == phys / FRAME_SIZE + i && (phys / FRAME_SIZE + i) % ENTRIES == 0
    requires forall x: nat :: Near(x, virt + i * FRAME_SIZE, LEVELS - 2) ==> LookupAt(E, mem, root, x).None?
    ensures RangeDone(E, mem0, mem', root, virt, phys, i + ENTRIES)
  {
    hide Lookup, PhysicalOf, PageOf;
    var v := virt + i * FRAME_SIZE;
    forall o: nat | o < (i + ENTRIES) * FRAME_SIZE
      ensures Linear(E, mem', root, virt, phys, o)
    {
      if o < i * FRAME_SIZE {
        LinearKept(E, mem, mem', root, virt, phys, v, h, o);
      } else {
        BlockPagesTranslate(E, mem, mem', root, v, phys / FRAME_SIZE + i, h, o - i * FRAME_SIZE);
      }
    }
    forall q: nat | Outside(q, virt, i + ENTRIES)
      ensures LookupAt(E, mem', root, q) == LookupAt(E, mem0, root, q)
    {
      if Near(q, v, LEVELS - 2) {
        var j := BlockPages(q, v);
        PageAtShift(virt, i, j);
        assert false;
      }
      OutsideKept(E, mem0, mem, mem', root, virt, phys, i, i + ENTRIES, h, q);
    }
  }

  lemma AlignedStep(virt: nat, i: nat)
    requires (virt + i * FRAME_SIZE) % FRAME_SIZE == 0
    ensures virt % FRAME_SIZE == 0
  {
    DivMod(virt + i * FRAME_SIZE, FRAME_SIZE, virt / FRAME_SIZE + i, virt % FRAME_SIZE);
  }

  lemma PageIteration(E: Encoder, mem0: Memory, m: Machine, root: nat, tree: Tree, virt: nat, phys: nat,
                      perms: Permissions, i: nat, f: nat)
    returns (tree': Tree)
    requires SpaceOk(E, m, root, tree) && RangeDone(E, mem0, m.mem, root, virt, phys, i)
    requires f == phys / FRAME_SIZE + i && f < FRAME_LIMIT
    ensures var (m', r) := Map(E, m, root, virt + i * FRAME_SIZE, f, perms);
            && SpaceOk(E, m', root, tree') && Grown(m, tree, m', tree')
            && RangeDone(E, mem0, m'.mem, root, virt, phys, if r.Mapped? then i + 1 else i)
            && (r.Mapped? ==> virt % FRAME_SIZE == 0)
  {
    hide Map, Insert, PageOf, Translate, Consistent, Wf;
    var v := virt + i * FRAME_SIZE;
    tree' := MapCorrect(E, m, root, tree, v, f, perms);
    var (m', r) := Map(E, m, root, v, f, perms);
    if r.Mapped? {
      AlignedStep(virt, i);
      PageStep(E, mem0, m.mem, m'.mem, root, virt, phys, i, Hit(E.encodeLeaf(f, perms), LEVELS - 1));
    } else {
      Unchanged(E, mem0, m.mem, m'.mem, root, virt, phys, i);
    }
  }

  lemma BlockIteration(E: Encoder, mem0: Memory, m: Machine, root: nat, tree: Tree, virt: nat, phys: nat,
                       perms: Permissions, i: nat, f: nat)
    returns (tree': Tree)
    requires SpaceOk(E, m, root, tree) && RangeDone(E, mem0, m.mem, root, virt, phys, i)
    requires f == phys / FRAME_SIZE + i && f < FRAME_LIMIT
    requires (virt + i * FRAME_SIZE) % BLOCK_2M == 0 && f % ENTRIES == 0
    ensures var (m', r) := MapBlock(E, m, root, virt + i * FRAME_SIZE, f, perms);
            && SpaceOk(E, m', root, tree') && Grown(m, tree, m', tree')
            && RangeDone(E, mem0, m'.mem, root, virt, phys, if r.Mapped? then i + ENTRIES else i)
  {
    hide MapBlock, Insert, PageOf, Translate, Consistent, Wf;
    var v := virt + i * FRAME_SIZE;
    tree' := MapBlockCorrect(E, m, root, tree, v, f, perms);
    var (m', r) := MapBlock(E, m, root, v, f, perms);
    if r.Mapped? {
      BlockStep(E, mem0, m.mem, m'.mem, root, virt, phys, i, Hit(E.encodeBlockLeaf(f, perms, LEVELS - 2), LEVELS - 2));
    } else {
      Unchanged(E, mem0, m.mem, m'.mem, root, virt, phys, i);
    }
  }

  lemma BlockAligned(virt: nat, i: nat)
    requires (virt + i * FRAME_SIZE) % BLOCK_2M == 0
    ensures virt % FRAME_SIZE == 0
  {
    var k := (virt + i * FRAME_SIZE) / BLOCK_2M;
    assert virt == (512 * k - i) * FRAME_SIZE;
  }

  lemma MapStepCorrect(E: Encoder, mem0: Memory, m: Machine, root: nat, tree: Tree, virt: nat, phys: nat, count: nat,
                       perms: Permissions, blocks: bool, i: nat)
    returns (tree': Tree)
    requires SpaceOk(E, m, root, tree) && i < count && phys / FRAME_SIZE + count <= FRAME_LIMIT
    requires RangeDone(E, mem0, m.mem, root, virt, phys, i)
    ensures var ((m', r), next) := MapStep(E, m, root, virt, phys, count, perms, blocks, i);
            && SpaceOk(E, m', root, tree') && Grown(m, tree, m', tree')
            && RangeDone(E, mem0, m'.mem, root, virt, phys, if r.Mapped? then next else i)
            && i < next && (r.Mapped? ==> next <= count && virt % FRAME_SIZE == 0)
  {
    hide Map, MapBlock, Insert, RangeDone, Wf, Grown;
    FrameOfStep(phys, i);
    if blocks && UsesBlock(virt + i * FRAME_SIZE, phys + i * FRAME_SIZE, count - i) {
      BlockAligned(virt, i);
      tree' := BlockIteration(E, mem0, m, root, tree, virt, phys, perms, i, phys / FRAME_SIZE + i);
    } else {
      tree' := PageIteration(E, mem0, m, root, tree, virt, phys, perms, i, phys / FRAME_SIZE + i);
    }
  }

  // ---- the entries of a mapped range ---------------------------------------

  /** A 2 MiB block of the range starts at page `s`: both addresses are aligned there and 512
      pages are left. */
  predicate BlockStart(virt: nat, phys: nat, count: nat, s: nat) {
    s + ENTRIES <= count && (virt + s * FRAME_SIZE) % BLOCK_2M == 0 && (phys + s * FRAME_SIZE) % BLOCK_2M == 0
  }

  /** Page `j` lies in the block that starts at `s`. */
  predicate InBlock(virt: nat, phys: nat, count: nat, s: nat, j: nat) {
    s <= j < s + ENTRIES && BlockStart(virt, phys, count, s)
  }

  /** The entry `h` that decides page `j` of the range: the block entry of the block it lies in,
      otherwise a page entry, in both cases with the permissions asked for. */
  ghost predicate EntryIs(E: Encoder, h: Option<Hit>, virt: nat, phys: nat, count: nat, perms: Permissions,
                          blocks: bool, j: nat)
  {
    var f := phys / FRAME_SIZE;
    && (forall s: nat :: blocks && InBlock(virt, phys, count, s, j) ==>
          h == Some(Hit(E.encodeBlockLeaf(f + s, perms, LEVELS - 2), LEVELS - 2)))
    && ((forall s: nat :: !(blocks && InBlock(virt, phys, count, s, j))) ==>
          h == Some(Hit(E.encodeLeaf(f + j, perms), LEVELS - 1)))
  }

  /** The first `n` pages are decided by their entries. */
  ghost predicate RangeEntries(E: Encoder, mem: Memory, root: nat, virt: nat, phys: nat, count: nat, perms: Permissions,
                               blocks: bool, n: nat)
  {
    forall j: nat :: j < n ==>
      EntryIs(E, LookupAt(E, mem, root, virt + j * FRAME_SIZE), virt, phys, count, perms, blocks, j)
  }

  /** The loop never stands inside a block: it takes the whole block from its start. */
  ghost predicate BetweenBlocks(virt: nat, phys: nat, count: nat, i: nat) {
    forall s: nat :: InBlock(virt, phys, count, s, i) ==> s == i
  }

  lemma BlocksApart(virt: nat, phys: nat, count: nat, s: nat, t: nat)
    requires BlockStart(virt, phys, count, s) && BlockStart(virt, phys, count, t) && s < t
    ensures s + ENTRIES <= t
  {
    var a, b := (virt + s * FRAME_SIZE) / BLOCK_2M, (virt + t * FRAME_SIZE) / BLOCK_2M;
    assert virt + s * FRAME_SIZE == a * BLOCK_2M && virt + t * FRAME_SIZE == b * BLOCK_2M;
    assert t - s == (b - a) * ENTRIES;
  }

  lemma NextBetween(virt: nat, phys: nat, count: nat, i: nat)
    requires BetweenBlocks(virt, phys, count, i)
    ensures BetweenBlocks(virt, phys, count, if BlockStart(virt, phys, count, i) then i + ENTRIES else i + 1)
  {
    hide BlockStart;
    var next := if BlockStart(virt, phys, count, i) then i + ENTRIES else i + 1;
    forall s: nat | InBlock(virt, phys, count, s, next)
      ensures s == next
    {
      assert s < i ==> InBlock(virt, phys, count, s, i);
      if i < s < next {
        BlocksApart(virt, phys, count, i, s);
      }
    }
  }

  /** Entries made earlier stay: only unmapped addresses get one. */
  lemma EntriesKept(E: Encoder, mem: Memory, mem': Memory, root: nat, v: nat, h: Hit, virt: nat, phys: nat, count: nat,
                    perms: Permissions, blocks: bool, n: nat)
    requires RangeEntries(E, mem, root, virt, phys, count, perms, blocks, n) && OnlyNear(E, mem, mem', root, v, h, true)
    requires forall x: nat :: Near(x, v, h.level) ==> LookupAt(E, mem, root, x).None?
    ensures RangeEntries(E, mem', root, virt, phys, count, perms, blocks, n)
  {
    hide LookupAt, Near, InBlock;
    forall j: nat | j < n
      ensures EntryIs(E, LookupAt(E, mem', root, virt + j * FRAME_SIZE), virt, phys, count, perms, blocks, j)
    {
      assert EntryIs(E, LookupAt(E, mem, root, virt + j * FRAME_SIZE), virt, phys, count, perms, blocks, j);
    }
  }

  lemma PageEntry(E: Encoder, m: Machine, root: nat, tree: Tree, virt: nat, phys: nat, count: nat, perms: Permissions,
                  blocks: bool, i: nat)
    requires SpaceOk(E, m, root, tree) && i < count && phys / FRAME_SIZE + count <= FRAME_LIMIT
    requires RangeEntries(E, m.mem, root, virt, phys, count, perms, blocks, i)
    requires blocks ==> BetweenBlocks(virt, phys, count, i) && !BlockStart(virt, phys, count, i)
    requires Map(E, m, root, virt + i * FRAME_SIZE, phys / FRAME_SIZE + i, perms).1.Mapped?
    ensures RangeEntries(E, Map(E, m, root, virt + i * FRAME_SIZE, phys / FRAME_SIZE + i, perms).0.mem,
                         root, virt, phys, count, perms, blocks, i + 1)
  {
    hide Map, Insert, Wf, Lookup, LookupAt, PageOf, BlockStart, Missing;
    var v, f := virt + i * FRAME_SIZE, phys / FRAME_SIZE + i;
    var h := Hit(E.encodeLeaf(f, perms), LEVELS - 1);
    var tree' := MapCorrect(E, m, root, tree, v, f, perms);
    var m' := Map(E, m, root, v, f, perms).0;
    NearIsUnmapped(E, m.mem, root, v);
    EntriesKept(E, m.mem, m'.mem, root, v, h, virt, phys, count, perms, blocks, i);
    assert LookupAt(E, m'.mem, root, v) == Some(h) by { assert Near(v, v, LEVELS - 1); }
    assert EntryIs(E, Some(h), virt, phys, count, perms, blocks, i);
  }

  lemma BlockEntries(E: Encoder, m: Machine, root: nat, tree: Tree, virt: nat, phys: nat, count: nat,
                     perms: Permissions, i: nat)
    requires SpaceOk(E, m, root, tree) && phys / FRAME_SIZE + count <= FRAME_LIMIT
    requires RangeEntries(E, m.mem, root, virt, phys, count, perms, true, i) && BlockStart(virt, phys, count, i)
    requires MapBlock(E, m, root, virt + i * FRAME_SIZE, phys / FRAME_SIZE + i, perms).1.Mapped?
    ensures RangeEntries(E, MapBlock(E, m, root, virt + i * FRAME_SIZE, phys / FRAME_SIZE + i, perms).0.mem,
                         root, virt, phys, count, perms, true, i + ENTRIES)
  {
    hide MapBlock, Insert, Wf, Lookup, LookupAt, Missing, SlotTaken, Near;
    var v, f := virt + i * FRAME_SIZE, phys / FRAME_SIZE + i;
    var h := Hit(E.encodeBlockLeaf(f, perms, LEVELS - 2), LEVELS - 2);
    var tree' := MapBlockCorrect(E, m, root, tree, v, f, perms);
    var m' := MapBlock(E, m, root, v, f, perms).0;
    EntriesKept(E, m.mem, m'.mem, root, v, h, virt, phys, count, perms, true, i);
    forall j: nat | i <= j < i + ENTRIES
      ensures EntryIs(E, LookupAt(E, m'.mem, root, virt + j * FRAME_SIZE), virt, phys, count, perms, true, j)
    {
      NearBlock(virt, i, j);
      OneBlock(virt, phys, count, i, j);
    }
  }

  /** A page lies in one block only. */
  lemma OneBlock(virt: nat, phys: nat, count: nat, s: nat, j: nat)
    requires InBlock(virt, phys, count, s, j)
    ensures forall t: nat :: InBlock(virt, phys, count, t, j) ==> t == s
  {
    hide BlockStart;
    forall t: nat | InBlock(virt, phys, count, t, j)
      ensures t == s
    {
      if t < s {
        BlocksApart(virt, phys, count, t, s);
      } else if s < t {
        BlocksApart(virt, phys, count, s, t);
      }
    }
  }

  lemma NearBlock(virt: nat, i: nat, j: nat)
    requires i <= j < i + ENTRIES && (virt + i * FRAME_SIZE) % BLOCK_2M == 0
    ensures Near(virt + j * FRAME_SIZE, virt + i * FRAME_SIZE, LEVELS - 2)
  {
    BlockPage(virt + i * FRAME_SIZE, j - i);
    PageAtShift(virt, i, j - i);
  }

  /** Every page the loop passed is decided by its entry. */
  lemma {:induction false} MapFromEntries(E: Encoder, mem0: Memory, m: Machine, root: nat, tree: Tree, virt: nat,
                                          phys: nat, count: nat, perms: Permissions, blocks: bool, i: nat)
    returns (done: nat)
    requires SpaceOk(E, m, root, tree) && i <= count && phys / FRAME_SIZE + count <= FRAME_LIMIT
    requires RangeDone(E, mem0, m.mem, root, virt, phys, i)
    requires RangeEntries(E, m.mem, root, virt, phys, count, perms, blocks, i)
    requires blocks ==> BetweenBlocks(virt, phys, count, i)
    ensures var (m', r) := MapFrom(E, m, root, virt, phys, count, perms, blocks, i);
            && RangeEntries(E, m'.mem, root, virt, phys, count, perms, blocks, done)
            && RangeDone(E, mem0, m'.mem, root, virt, phys, done)
            && i <= done <= count && (r.Mapped? <==> done == count)
    decreases count - i
  {
    hide SpaceOk, RangeDone, RangeEntries, BetweenBlocks, Map, MapBlock, Grown;
    done := i;
    if i < count {
      var ((m1, r), next) := MapStep(E, m, root, virt, phys, count, perms, blocks, i);
      var tree1 := MapStepCorrect(E, mem0, m, root, tree, virt, phys, count, perms, blocks, i);
      FrameOfStep(phys, i);
      if r.Mapped? {
        if blocks {
          NextBetween(virt, phys, count, i);
        }
        if blocks && BlockStart(virt, phys, count, i) {
          BlockEntries(E, m, root, tree, virt, phys, count, perms, i);
        } else {
          PageEntry(E, m, root, tree, virt, phys, count, perms, blocks, i);
        }
        done := MapFromEntries(E, mem0, m1, root, tree1, virt, phys, count, perms, blocks, next);
      } else {
        StepRefused(E, m, root, tree, virt, phys, count, perms, blocks, i);
      }
    }
  }

  /** A refused step changes no entry. */
  lemma StepRefused(E: Encoder, m: Machine, root: nat, tree: Tree, virt: nat, phys: nat, count: nat, perms: Permissions,
                    blocks: bool, i: nat)
    requires SpaceOk(E, m, root, tree) && i < count && phys / FRAME_SIZE + count <= FRAME_LIMIT
    requires RangeEntries(E, m.mem, root, virt, phys, count, perms, blocks, i)
    requires !MapStep(E, m, root, virt, phys, count, perms, blocks, i).0.1.Mapped?
    ensures RangeEntries(E, MapStep(E, m, root, virt, phys, count, perms, blocks, i).0.0.mem,
                         root, virt, phys, count, perms, blocks, i)
  {
    hide Map, MapBlock, Insert, Wf, Lookup, LookupAt, Missing, SlotTaken, Near, EntryIs;
    FrameOfStep(phys, i);
    var v, f := virt + i * FRAME_SIZE, phys / FRAME_SIZE + i;
    if blocks && UsesBlock(v, phys + i * FRAME_SIZE, count - i) {
      var t := MapBlockCorrect(E, m, root, tree, v, f, perms);
    } else {
      var t := MapCorrect(E, m, root, tree, v, f, perms);
    }
  }

  /** Every prefix of the loop has mapped exactly the pages it passed. */
  lemma {:induction false} MapFromCorrect(E: Encoder, mem0: Memory, m: Machine, root: nat, tree: Tree, virt: nat,
                                          phys: nat, count: nat, perms: Permissions, blocks: bool, i: nat)
    returns (tree': Tree, done: nat)
    requires SpaceOk(E, m, root, tree) && i <= count && phys / FRAME_SIZE + count <= FRAME_LIMIT
    requires RangeDone(E, mem0, m.mem, root, virt, phys, i)
    ensures var (m', r) := MapFrom(E, m, root, virt, phys, count, perms, blocks, i);
            && SpaceOk(E, m', root, tree') && Grown(m, tree, m', tree')
            && RangeDone(E, mem0, m'.mem, root, virt, phys, done)
            && i <= done <= count && (r.Mapped? <==> done == count)
            && (i < done ==> virt % FRAME_SIZE == 0)
    decreases count - i
  {
    tree', done := tree, i;
    if i < count {
      var ((m1, r), next) := MapStep(E, m, root, virt, phys, count, perms, blocks, i);
      var tree1 := MapStepCorrect(E, mem0, m, root, tree, virt, phys, count, perms, blocks, i);
      tree' := tree1;
      if r.Mapped? {
        tree', done := MapFromCorrect(E, mem0, m1, root, tree1, virt, phys, count, perms, blocks, next);
        GrownTransitive(m, tree, m1, tree1, MapFrom(E, m1, root, virt, phys, count, perms, blocks, next).0, tree');
      }
    }
  }

  lemma FrameOfStep(phys: nat, i: nat)
    ensures (phys + i * FRAME_SIZE) / FRAME_SIZE == phys / FRAME_SIZE + i
    ensures (phys + i * FRAME_SIZE) % BLOCK_2M == 0 ==> (phys / FRAME_SIZE + i) % ENTRIES == 0
  {
    DivMod(phys + i * FRAME_SIZE, FRAME_SIZE, phys / FRAME_SIZE + i, phys % FRAME_SIZE);
    var p := phys + i * FRAME_SIZE;
    if p % BLOCK_2M == 0 {
      DivMod(p, FRAME_SIZE, 512 * (p / BLOCK_2M), 0);
    }
  }

  lemma Unchanged(E: Encoder, mem0: Memory, mem: Memory, mem': Memory, root: nat, virt: nat, phys: nat, i: nat)
    requires RangeDone(E, mem0, mem, root, virt, phys, i)
    requires forall q: nat :: LookupAt(E, mem', root, q) == LookupAt(E, mem, root, q)
    ensures RangeDone(E, mem0, mem', root, virt, phys, i)
  {
    forall o: nat | o < i * FRAME_SIZE
      ensures Linear(E, mem', root, virt, phys, o)
    {
      assert LookupAt(E, mem', root, virt + o) == LookupAt(E, mem, root, virt + o);
      assert Linear(E, mem, root, virt, phys, o);
    }
  }

  // ---- main results --------------------------------------------------------

  /** A successful `map_range` maps `virt + o` to `phys + o` for the whole range and
      changes nothing else; a failing one leaves a mapped prefix and nothing else. */
  lemma MapRangeCorrect(E: Encoder, m: Machine, root: nat, tree: Tree, virt: nat, phys: nat, count: nat,
                        perms: Permissions)
    returns (tree': Tree, done: nat)
    requires SpaceOk(E, m, root, tree) && phys / FRAME_SIZE + count <= FRAME_LIMIT
    ensures var (m', r) := MapRange(E, m, root, virt, phys, count, perms);
            && SpaceOk(E, m', root, tree') && Grown(m, tree, m', tree')
            && RangeDone(E, m.mem, m'.mem, root, virt, phys, done)
            && done <= count && (r.Mapped? <==> done == count)
  {
    tree', done := MapFromCorrect(E, m.mem, m, root, tree, virt, phys, count, perms, true, 0);
  }

  /** `map_range` enters the permissions it is given and no others: each page of the range, or of
      the mapped prefix, is decided by a block entry exactly if it lies in a 2 MiB aligned part of
      the range, and otherwise by a page entry. */
  lemma MapRangeEntries(E: Encoder, m: Machine, root: nat, tree: Tree, virt: nat, phys: nat, count: nat,
                        perms: Permissions)
    returns (done: nat)
    requires SpaceOk(E, m, root, tree) && phys / FRAME_SIZE + count <= FRAME_LIMIT
    ensures var (m', r) := MapRange(E, m, root, virt, phys, count, perms);
            && RangeEntries(E, m'.mem, root, virt, phys, count, perms, true, done)
            && RangeDone(E, m.mem, m'.mem, root, virt, phys, done)
            && done <= count && (r.Mapped? <==> done == count)
  {
    done := MapFromEntries(E, m.mem, m, root, tree, virt, phys, count, perms, true, 0);
  }

  /** Blocks are an optimisation: when both succeed, `map_range` and page-by-page
      mapping give every address the same translation. */
  lemma MapRangeIsPageByPage(E: Encoder, m: Machine, root: nat, tree: Tree, virt: nat, phys: nat, count: nat,
                             perms: Permissions, q: nat)
    requires SpaceOk(E, m, root, tree) && phys / FRAME_SIZE + count <= FRAME_LIMIT
    requires MapRange(E, m, root, virt, phys, count, perms).1.Mapped?
    requires MapPages(E, m, root, virt, phys, count, perms).1.Mapped?
    ensures Translate(E, MapRange(E, m, root, virt, phys, count, perms).0.mem, root, q) ==
            Translate(E, MapPages(E, m, root, virt, phys, count, perms).0.mem, root, q)
  {
    var t1, d1 := MapFromCorrect(E, m.mem, m, root, tree, virt, phys, count, perms, true, 0);
    var t2, d2 := MapFromCorrect(E, m.mem, m, root, tree, virt, phys, count, perms, false, 0);
    var a := MapRange(E, m, root, virt, phys, count, perms).0.mem;
    var b := MapPages(E, m, root, virt, phys, count, perms).0.mem;
    RangeDetermines(E, m.mem, a, b, root, virt, phys, count, q);
  }

  lemma RangeDetermines(E: Encoder, mem0: Memory, a: Memory, b: Memory, root: nat, virt: nat, phys: nat, n: nat, q: nat)
    requires RangeDone(E, mem0, a, root, virt, phys, n) && RangeDone(E, mem0, b, root, virt, phys, n)
    requires n > 0 ==> virt % FRAME_SIZE == 0
    ensures Translate(E, a, root, q) == Translate(E, b, root, q)
  {
    if Outside(q, virt, n) {
      assert LookupAt(E, a, root, q) == LookupAt(E, b, root, q);
    } else {
      var j: nat :| j < n && PageOf(q) == PageAt(virt, j);
      var o := j * FRAME_SIZE + q % FRAME_SIZE;
      PageOffset(virt + j * FRAME_SIZE, q % FRAME_SIZE);
      SameTranslation(E, a, root, q, virt + o);
      SameTranslation(E, b, root, q, virt + o);
      assert Linear(E, a, root, virt, phys, o) && Linear(E, b, root, virt, phys, o);
    }
  }
}
