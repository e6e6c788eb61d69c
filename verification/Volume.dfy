/** CIBOSFS at the level of inodes, allocation bits and data blocks
    (cibos-kernel/src/fs.rs): block allocation, and replacing an inode's contents.

    A block pointer is an absolute block number; the data region starts at `dataStart`. */
module Volume {
  import opened LittleEndian

  const BLOCK_SIZE: nat := 512
  const DIRECT_BLOCKS: nat := 6
  const MAX_FILE_SIZE: nat := 3072

  const KIND_FREE: nat := 0
  const KIND_FILE: nat := 1
  const KIND_DIR: nat := 2

  type Block = b: seq<Byte> | |b| == BLOCK_SIZE witness seq(BLOCK_SIZE, _ => 0)

  /** Six direct block pointers. */
  type Pointers = p: seq<nat> | |p| == DIRECT_BLOCKS witness [0, 0, 0, 0, 0, 0]

  const NO_BLOCKS: Pointers := [0, 0, 0, 0, 0, 0]

  datatype Inode = Inode(kind: nat, size: nat, direct: Pointers) {
    function BlocksUsed(): nat { BlocksFor(size) }
  }

  datatype Vol = Vol(inodes: seq<Inode>, bits: seq<bool>, data: seq<Block>, dataStart: nat)

  datatype FsError = OutOfRange | BadSuperblock | Corrupt | NoSpace | NotFound | Exists | WrongKind | TooLarge

  datatype Result<+T> = Ok(value: T) | Err(error: FsError) {
    predicate IsFailure() { Err? }

    function PropagateFailure<U>(): Result<U> {
      match this
      case Err(e) => Err(e)
      case Ok(_) => Err(Corrupt)
    }

    function Extract(): T
      requires Ok?
    {
      value
    }
  }

  function BlocksFor(n: nat): nat {
    (n + BLOCK_SIZE - 1) / BLOCK_SIZE
  }

  // ---- blocks --------------------------------------------------------------

  predicate InData(v: Vol, lba: nat) {
    v.dataStart <= lba < v.dataStart + |v.data|
  }

  function ReadBlock(v: Vol, lba: nat): Block {
    if InData(v, lba) then v.data[lba - v.dataStart] else seq(BLOCK_SIZE, _ => 0)
  }

  function WriteBlock(v: Vol, lba: nat, b: Block): Vol {
    if InData(v, lba) then v.(data := v.data[lba - v.dataStart := b]) else v
  }

  function SetBit(v: Vol, i: nat, b: bool): Vol {
    if i < |v.bits| then v.(bits := v.bits[i := b]) else v
  }

  function SetInode(v: Vol, ino: nat, n: Inode): Vol {
    if ino < |v.inodes| then v.(inodes := v.inodes[ino := n]) else v
  }

  /** Whether block `lba` is marked allocated. */
  predicate Marked(v: Vol, lba: nat) {
    v.dataStart <= lba < v.dataStart + |v.bits| && v.bits[lba - v.dataStart]
  }

  /** Lowest clear bit from `i` on. */
  function FirstClear(bits: seq<bool>, i: nat): (r: nat)
    requires i <= |bits|
    ensures i <= r <= |bits| && (r < |bits| ==> !bits[r])
    ensures forall k :: i <= k < r ==> bits[k]
    decreases |bits| - i
  {
    if i == |bits| || !bits[i] then i else FirstClear(bits, i + 1)
  }

  function AllocBlock(v: Vol): (Vol, Result<nat>) {
    var i := FirstClear(v.bits, 0);
    if i < |v.bits| then (SetBit(v, i, true), Ok(v.dataStart + i)) else (v, Err(NoSpace))
  }

  function FreeBlock(v: Vol, lba: nat): Vol {
    if lba < v.dataStart then v else SetBit(v, lba - v.dataStart, false)
  }

  // ---- an inode's contents -------------------------------------------------

  /** The bytes of block slot `s` of an inode of `size` bytes. */
  function SlotBytes(v: Vol, n: Inode, s: nat): seq<Byte>
    requires s < DIRECT_BLOCKS && s * BLOCK_SIZE <= n.size
  {
    var take := if n.size - s * BLOCK_SIZE < BLOCK_SIZE then n.size - s * BLOCK_SIZE else BLOCK_SIZE;
    ReadBlock(v, n.direct[s])[..take]
  }

  /** The bytes of the first `k` block slots. */
  function ContentsUpTo(v: Vol, n: Inode, k: nat): seq<Byte>
    requires k <= DIRECT_BLOCKS && k <= n.BlocksUsed()
  {
    if k == 0 then [] else ContentsUpTo(v, n, k - 1) + SlotBytes(v, n, k - 1)
  }

  /** `read_inode_data`: the blocks in use, at most the six direct ones. */
  function Contents(v: Vol, n: Inode): seq<Byte> {
    ContentsUpTo(v, n, if n.BlocksUsed() < DIRECT_BLOCKS then n.BlocksUsed() else DIRECT_BLOCKS)
  }

  /** Chunk `i` of `d`, zero-padded to a block. */
  function Chunk(d: seq<Byte>, i: nat): Block
    requires i * BLOCK_SIZE <= |d|
  {
    var end := if (i + 1) * BLOCK_SIZE < |d| then (i + 1) * BLOCK_SIZE else |d|;
    d[i * BLOCK_SIZE..end] + seq<Byte>(BLOCK_SIZE - (end - i * BLOCK_SIZE), _ => 0)
  }

  function AllocSlots(v: Vol, p: Pointers, i: nat, hi: nat): ((Vol, Pointers), bool)
    requires hi <= DIRECT_BLOCKS
    decreases hi - i
  {
    if i >= hi then ((v, p), true)
    else
      var a := AllocBlock(v);
      if a.1.Ok? then AllocSlots(a.0, p[i := a.1.value], i + 1, hi) else ((a.0, p), false)
  }

  function FreeSlots(v: Vol, p: Pointers, i: nat, hi: nat): (Vol, Pointers)
    decreases hi - i
  {
    if i >= hi || i >= DIRECT_BLOCKS then (v, p)
    else if p[i] != 0 then FreeSlots(FreeBlock(v, p[i]), p[i := 0], i + 1, hi)
    else FreeSlots(v, p, i + 1, hi)
  }

  function WriteSlots(v: Vol, p: Pointers, d: seq<Byte>, i: nat): Vol
    requires |d| <= MAX_FILE_SIZE && i <= BlocksFor(|d|)
    decreases BlocksFor(|d|) - i
  {
    if i == BlocksFor(|d|) then v else WriteSlots(WriteBlock(v, p[i], Chunk(d, i)), p, d, i + 1)
  }

  /** `write_inode_data`: allocate or free slots, write the blocks, then the inode. */
  function WriteData(v: Vol, ino: nat, n: Inode, d: seq<Byte>): (Vol, Result<Inode>) {
    if |d| > MAX_FILE_SIZE then (v, Err(TooLarge))
    else
      var a := AllocSlots(v, n.direct, n.BlocksUsed(), BlocksFor(|d|));
      if !a.1 then (a.0.0, Err(NoSpace))
      else
        var f := FreeSlots(a.0.0, a.0.1, BlocksFor(|d|), n.BlocksUsed());
        var w := WriteSlots(f.0, f.1, d, 0);
        var n' := Inode(n.kind, |d|, f.1);
        (SetInode(w, ino, n'), Ok(n'))
  }

  // ---- the block invariant -------------------------------------------------

  ghost predicate InodeOk(v: Vol, n: Inode) {
    && n.kind <= KIND_DIR && n.size <= MAX_FILE_SIZE && (n.kind == KIND_FREE ==> n.size == 0)
    && (forall s: nat :: s < n.BlocksUsed() ==> InData(v, n.direct[s]) && Marked(v, n.direct[s]))
    && (forall s: nat :: n.BlocksUsed() <= s < DIRECT_BLOCKS ==> n.direct[s] == 0)
  }

  /** Slot `s` of inode `i` is in use. */
  predicate InUse(inodes: seq<Inode>, i: nat, s: nat) {
    i < |inodes| && s < inodes[i].BlocksUsed() && s < DIRECT_BLOCKS
  }

  ghost predicate NoSharedBlocks(inodes: seq<Inode>) {
    forall i: nat, s: nat, j: nat, t: nat {:trigger InUse(inodes, i, s), InUse(inodes, j, t)} ::
      InUse(inodes, i, s) && InUse(inodes, j, t) && inodes[i].direct[s] == inodes[j].direct[t] ==> i == j && s == t
  }

  /** Every block in use lies in the data region, is marked, and is used once. */
  ghost predicate BlocksOk(v: Vol) {
    && v.dataStart > 0 && |v.bits| == |v.data|
    && (forall i: nat :: i < |v.inodes| ==> InodeOk(v, v.inodes[i]))
    && NoSharedBlocks(v.inodes)
  }

  /** Every marked block is in use. */
  ghost predicate Exact(v: Vol) {
    forall b: nat {:trigger Marked(v, b)} :: Marked(v, b) ==> Used(v.inodes, b)
  }

  ghost predicate Used(inodes: seq<Inode>, b: nat) {
    exists i: nat, s: nat :: InUse(inodes, i, s) && inodes[i].direct[s] == b
  }

  // ---- allocating and freeing slots ----------------------------------------

  /** Slot range `i..hi` of `p` holds block `b`. */
  ghost predicate Among(p: Pointers, i: nat, hi: nat, b: nat) {
    exists s: nat :: i <= s < hi && s < DIRECT_BLOCKS && p[s] == b
  }

  ghost predicate SlotsApart(p: Pointers, i: nat, hi: nat)
    requires hi <= DIRECT_BLOCKS
  {
    forall s: nat, t: nat :: i <= s < t < hi ==> p[s] != p[t]
  }

  /** Number of clear bits. */
  function ClearCount(bits: seq<bool>): nat {
    if bits == [] then 0 else ClearCount(bits[..|bits| - 1]) + if bits[|bits| - 1] then 0 else 1
  }

  lemma {:induction false} ClearCountNone(bits: seq<bool>)
    requires forall k :: 0 <= k < |bits| ==> bits[k]
    ensures ClearCount(bits) == 0
  {
    if bits != [] {
      ClearCountNone(bits[..|bits| - 1]);
    }
  }

  lemma {:induction false} ClearCountSet(bits: seq<bool>, i: nat)
    requires i < |bits| && !bits[i]
    ensures ClearCount(bits[i := true]) == ClearCount(bits) - 1
  {
    var n := |bits| - 1;
    if i == n {
      assert bits[i := true][..n] == bits[..n];
    } else {
      ClearCountSet(bits[..n], i);
      assert bits[i := true][..n] == bits[..n][i := true];
    }
  }

  lemma AllocBlockSpec(v: Vol)
    requires |v.bits| == |v.data|
    ensures var (v1, r) := AllocBlock(v);
            && v1.inodes == v.inodes && v1.data == v.data && v1.dataStart == v.dataStart && |v1.bits| == |v.bits|
            && (r.Ok? <==> ClearCount(v.bits) > 0) && (!r.Ok? ==> v1 == v)
            && (r.Ok? ==> InData(v, r.value) && !Marked(v, r.value)
                          && (forall b: nat :: Marked(v1, b) <==> Marked(v, b) || b == r.value)
                          && ClearCount(v1.bits) == ClearCount(v.bits) - 1)
  {
    var i := FirstClear(v.bits, 0);
    if i < |v.bits| {
      ClearCountSet(v.bits, i);
    } else {
      ClearCountNone(v.bits);
    }
  }

  /** What a completed allocation of slots `i..hi` did. */
  ghost predicate SlotsAllocated(v: Vol, p: Pointers, i: nat, hi: nat, v1: Vol, p1: Pointers)
    requires hi <= DIRECT_BLOCKS
  {
    && SlotsApart(p1, i, hi)
    && (forall s: nat :: s < DIRECT_BLOCKS && (s < i || hi <= s) ==> p1[s] == p[s])
    && (forall s: nat :: i <= s < hi ==> InData(v, p1[s]) && !Marked(v, p1[s]))
    && (forall b: nat :: Marked(v1, b) <==> Marked(v, b) || Among(p1, i, hi, b))
  }

  /** Only allocation bits differ, and only by more being set. */
  ghost predicate OnlyBitsGrow(v: Vol, v1: Vol) {
    && v1.inodes == v.inodes && v1.data == v.data && v1.dataStart == v.dataStart && |v1.bits| == |v.bits|
    && (forall b: nat :: Marked(v, b) ==> Marked(v1, b))
  }

  /** Allocation succeeds exactly when enough blocks are clear; new blocks were clear
      and are pairwise different; a failed allocation only leaves bits set. */
  lemma {:induction false} AllocSlotsSpec(v: Vol, p: Pointers, i: nat, hi: nat)
    requires |v.bits| == |v.data| && hi <= DIRECT_BLOCKS
    ensures var ((v1, p1), ok) := AllocSlots(v, p, i, hi);
            && OnlyBitsGrow(v, v1)
            && (ok <==> hi - i <= ClearCount(v.bits))
            && (ok ==> SlotsAllocated(v, p, i, hi, v1, p1))
    decreases hi - i
  {
    hide FirstClear, ClearCount, AllocBlock;
    if i < hi {
      AllocBlockSpec(v);
      var (v0, r) := AllocBlock(v);
      if r.Ok? {
        AllocSlotsSpec(v0, p[i := r.value], i + 1, hi);
        var ((v1, p1), ok) := AllocSlots(v, p, i, hi);
        if ok {
          assert p1[i] == r.value;
          forall b: nat
            ensures Among(p1, i, hi, b) <==> b == r.value || Among(p1, i + 1, hi, b)
          {
          }
        }
      }
    }
  }

  /** Freeing slots `i..hi`, all holding different marked blocks, clears exactly those marks. */
  lemma {:induction false} FreeSlotsSpec(v: Vol, p: Pointers, i: nat, hi: nat)
    requires |v.bits| == |v.data| && v.dataStart > 0 && hi <= DIRECT_BLOCKS && SlotsApart(p, i, hi)
    requires forall s: nat :: i <= s < hi ==> InData(v, p[s])
    ensures var (v1, p1) := FreeSlots(v, p, i, hi);
            && v1.inodes == v.inodes && v1.data == v.data && v1.dataStart == v.dataStart && |v1.bits| == |v.bits|
            && (forall s: nat :: s < DIRECT_BLOCKS ==> p1[s] == if i <= s < hi then 0 else p[s])
            && (forall b: nat :: Marked(v1, b) <==> Marked(v, b) && !Among(p, i, hi, b))
    decreases hi - i
  {
    if i < hi {
      var v0 := FreeBlock(v, p[i]);
      FreeSlotsSpec(v0, p[i := 0], i + 1, hi);
      forall b: nat
        ensures Among(p, i, hi, b) <==> b == p[i] || Among(p[i := 0], i + 1, hi, b)
      {
        if Among(p, i, hi, b) && b != p[i] {
          var s: nat :| i <= s < hi && s < DIRECT_BLOCKS && p[s] == b;
          assert p[i := 0][s] == b;
        }
        if Among(p[i := 0], i + 1, hi, b) {
          var s: nat :| i + 1 <= s < hi && s < DIRECT_BLOCKS && p[i := 0][s] == b;
          assert p[s] == b;
        }
      }
    }
  }

  /** Writing the chunks of `d` through different pointers stores each chunk and no
      other block changes. */
  lemma {:induction false} WriteSlotsSpec(v: Vol, p: Pointers, d: seq<Byte>, i: nat)
    requires |d| <= MAX_FILE_SIZE && i <= BlocksFor(|d|) && SlotsApart(p, 0, BlocksFor(|d|))
    requires forall s: nat :: s < BlocksFor(|d|) ==> InData(v, p[s])
    ensures var v1 := WriteSlots(v, p, d, i);
            && v1.inodes == v.inodes && v1.bits == v.bits && v1.dataStart == v.dataStart && |v1.data| == |v.data|
            && (forall s: nat :: i <= s < BlocksFor(|d|) ==> ReadBlock(v1, p[s]) == Chunk(d, s))
            && (forall b: nat :: !Among(p, i, BlocksFor(|d|), b) ==> ReadBlock(v1, b) == ReadBlock(v, b))
    decreases BlocksFor(|d|) - i
  {
    hide Chunk;
    if i < BlocksFor(|d|) {
      var v0 := WriteBlock(v, p[i], Chunk(d, i));
      WriteSlotsSpec(v0, p, d, i + 1);
      assert !Among(p, i + 1, BlocksFor(|d|), p[i]);
      forall b: nat | !Among(p, i, BlocksFor(|d|), b)
        ensures !Among(p, i + 1, BlocksFor(|d|), b) && b != p[i]
      {
      }
    }
  }

  // ---- reading back --------------------------------------------------------

  /** Contents depend only on the blocks of the slots in use. */
  lemma {:induction false} SameBlocks(v: Vol, v1: Vol, n: Inode, k: nat)
    requires k <= DIRECT_BLOCKS && k <= n.BlocksUsed()
    requires forall s: nat :: s < k ==> ReadBlock(v1, n.direct[s]) == ReadBlock(v, n.direct[s])
    ensures ContentsUpTo(v1, n, k) == ContentsUpTo(v, n, k)
  {
    if k > 0 {
      SameBlocks(v, v1, n, k - 1);
    }
  }

  lemma {:induction false} StoredChunks(v: Vol, n: Inode, d: seq<Byte>, k: nat)
    requires n.size == |d| <= MAX_FILE_SIZE && k <= BlocksFor(|d|)
    requires forall s: nat :: s < k ==> ReadBlock(v, n.direct[s]) == Chunk(d, s)
    ensures ContentsUpTo(v, n, k) == d[..if k * BLOCK_SIZE < |d| then k * BLOCK_SIZE else |d|]
  {
    hide ReadBlock;
    if k > 0 {
      StoredChunks(v, n, d, k - 1);
      var lo := (k - 1) * BLOCK_SIZE;
      var hi := if k * BLOCK_SIZE < |d| then k * BLOCK_SIZE else |d|;
      assert Chunk(d, k - 1)[..hi - lo] == d[lo..hi];
      assert d[..lo] + d[lo..hi] == d[..hi];
    }
  }

  /** Stored chunks read back as the data. */
  lemma ReadsBack(v: Vol, n: Inode, d: seq<Byte>)
    requires n.size == |d| <= MAX_FILE_SIZE
    requires forall s: nat :: s < BlocksFor(|d|) ==> ReadBlock(v, n.direct[s]) == Chunk(d, s)
    ensures Contents(v, n) == d
  {
    StoredChunks(v, n, d, BlocksFor(|d|));
    assert d[..|d|] == d;
  }

  lemma {:induction false} ContentsLength(v: Vol, n: Inode, k: nat)
    requires k <= DIRECT_BLOCKS && k <= n.BlocksUsed()
    ensures |ContentsUpTo(v, n, k)| == if k * BLOCK_SIZE < n.size then k * BLOCK_SIZE else n.size
  {
    if k > 0 {
      ContentsLength(v, n, k - 1);
    }
  }

  // ---- replacing an inode's contents ---------------------------------------

  /** Block `b` is one of the blocks inode `n` uses. */
  ghost predicate Holds(n: Inode, b: nat) {
    Among(n.direct, 0, n.BlocksUsed(), b)
  }

  /** The pointers and marks after the slots were allocated and freed for `k` blocks. */
  ghost predicate Resized(v: Vol, n: Inode, k: nat, v1: Vol, p: Pointers)
    requires k <= DIRECT_BLOCKS
  {
    && v1.inodes == v.inodes && v1.data == v.data && v1.dataStart == v.dataStart && |v1.bits| == |v.bits|
    && SlotsApart(p, 0, k)
    && (forall s: nat :: k <= s < DIRECT_BLOCKS ==> p[s] == 0)
    && (forall s: nat :: s < k ==>
          InData(v, p[s]) && if s < n.BlocksUsed() then p[s] == n.direct[s] else !Marked(v, p[s]))
    && (forall b: nat :: Marked(v1, b) <==> (Marked(v, b) && !Holds(n, b)) || Among(p, 0, k, b))
  }

  lemma ResizeGrow(v: Vol, n: Inode, k: nat)
    requires |v.bits| == |v.data| && InodeOk(v, n) && SlotsApart(n.direct, 0, n.BlocksUsed())
    requires n.BlocksUsed() <= k <= DIRECT_BLOCKS && AllocSlots(v, n.direct, n.BlocksUsed(), k).1
    ensures var ((v1, p), ok) := AllocSlots(v, n.direct, n.BlocksUsed(), k);
            Resized(v, n, k, v1, p)
  {
    hide AllocSlots;
    var u := n.BlocksUsed();
    AllocSlotsSpec(v, n.direct, u, k);
    var ((v1, p), ok) := AllocSlots(v, n.direct, u, k);
    forall b: nat
      ensures Marked(v1, b) <==> (Marked(v, b) && !Holds(n, b)) || Among(p, 0, k, b)
    {
      if Holds(n, b) {
        var s: nat :| 0 <= s < u && s < DIRECT_BLOCKS && n.direct[s] == b;
        assert p[s] == b;
      }
      if Among(p, 0, k, b) {
        var s: nat :| 0 <= s < k && s < DIRECT_BLOCKS && p[s] == b;
        assert s < u ==> n.direct[s] == b;
        assert u <= s ==> Among(p, u, k, b);
      }
    }
  }

  lemma ResizeShrink(v: Vol, n: Inode, k: nat)
    requires |v.bits| == |v.data| && v.dataStart > 0 && InodeOk(v, n) && SlotsApart(n.direct, 0, n.BlocksUsed())
    requires k <= n.BlocksUsed()
    ensures var (v1, p) := FreeSlots(v, n.direct, k, n.BlocksUsed());
            Resized(v, n, k, v1, p)
  {
    hide FreeSlots;
    var u := n.BlocksUsed();
    FreeSlotsSpec(v, n.direct, k, u);
    var (v1, p) := FreeSlots(v, n.direct, k, u);
    forall b: nat
      ensures Marked(v1, b) <==> (Marked(v, b) && !Holds(n, b)) || Among(p, 0, k, b)
    {
      if Holds(n, b) {
        var s: nat :| 0 <= s < u && s < DIRECT_BLOCKS && n.direct[s] == b;
        assert s < k ==> p[s] == b;
        assert k <= s ==> Among(n.direct, k, u, b);
      }
      if Among(p, 0, k, b) {
        var s: nat :| 0 <= s < k && s < DIRECT_BLOCKS && p[s] == b;
        assert n.direct[s] == b;
      }
      if Among(n.direct, k, u, b) {
        var s: nat :| k <= s < u && s < DIRECT_BLOCKS && n.direct[s] == b;
        assert n.direct[s] == b;
      }
    }
  }

  /** The three loops of `write_inode_data` as one step: resized slots holding `d`. */
  ghost predicate Rewritten(v: Vol, n: Inode, d: seq<Byte>, v1: Vol, p: Pointers)
    requires |d| <= MAX_FILE_SIZE
  {
    && v1.inodes == v.inodes && v1.dataStart == v.dataStart && |v1.bits| == |v.bits| && |v1.data| == |v.data|
    && SlotsApart(p, 0, BlocksFor(|d|))
    && (forall s: nat :: BlocksFor(|d|) <= s < DIRECT_BLOCKS ==> p[s] == 0)
    && (forall s: nat :: s < BlocksFor(|d|) ==>
          InData(v, p[s]) && if s < n.BlocksUsed() then p[s] == n.direct[s] else !Marked(v, p[s]))
    && (forall b: nat :: Marked(v1, b) <==> (Marked(v, b) && !Holds(n, b)) || Among(p, 0, BlocksFor(|d|), b))
    && (forall s: nat :: s < BlocksFor(|d|) ==> ReadBlock(v1, p[s]) == Chunk(d, s))
    && (forall b: nat :: !Among(p, 0, BlocksFor(|d|), b) ==> ReadBlock(v1, b) == ReadBlock(v, b))
  }

  /** When replacing contents fails for lack of space. */
  predicate Fits(v: Vol, n: Inode, d: seq<Byte>) {
    BlocksFor(|d|) - n.BlocksUsed() <= ClearCount(v.bits)
  }

  lemma RewriteSlots(v: Vol, n: Inode, d: seq<Byte>) returns (v1: Vol, p: Pointers)
    requires |v.bits| == |v.data| && v.dataStart > 0 && InodeOk(v, n) && SlotsApart(n.direct, 0, n.BlocksUsed())
    requires |d| <= MAX_FILE_SIZE && Fits(v, n, d)
    ensures Rewritten(v, n, d, v1, p)
    ensures forall ino: nat :: WriteData(v, ino, n, d) ==
              (SetInode(v1, ino, Inode(n.kind, |d|, p)), Ok(Inode(n.kind, |d|, p)))
  {
    hide Chunk, ClearCount, ReadBlock, Marked, InData;
    var k, u := BlocksFor(|d|), n.BlocksUsed();
    AllocSlotsSpec(v, n.direct, u, k);
    var ((va, pa), ok) := AllocSlots(v, n.direct, u, k);
    var (vf, pf) := FreeSlots(va, pa, k, u);
    if u <= k {
      ResizeGrow(v, n, k);
      assert (vf, pf) == (va, pa);
    } else {
      assert (va, pa) == (v, n.direct);
      ResizeShrink(v, n, k);
    }
    assert Resized(v, n, k, vf, pf);
    SameRegion(v, vf);
    WriteSlotsSpec(vf, pf, d, 0);
    v1, p := WriteSlots(vf, pf, d, 0), pf;
    SameMarks(vf, v1);
  }

  lemma SameRegion(v: Vol, v1: Vol)
    requires v1.data == v.data && v1.dataStart == v.dataStart
    ensures forall b: nat :: InData(v1, b) == InData(v, b) && ReadBlock(v1, b) == ReadBlock(v, b)
  {
  }

  lemma SameMarks(v: Vol, v1: Vol)
    requires v1.bits == v.bits && v1.dataStart == v.dataStart
    ensures forall b: nat :: Marked(v1, b) == Marked(v, b)
  {
  }

  /** Replacing the contents of inode `ino`: what every other inode keeps. */
  ghost predicate OthersKeep(v: Vol, v1: Vol, ino: nat) {
    && |v1.inodes| == |v.inodes| && v1.dataStart == v.dataStart
    && (forall j: nat :: j < |v.inodes| && j != ino ==> v1.inodes[j] == v.inodes[j])
    && (forall j: nat :: j < |v.inodes| && j != ino ==> Contents(v1, v1.inodes[j]) == Contents(v, v.inodes[j]))
  }

  lemma SlotsDistinct(v: Vol, i: nat)
    requires BlocksOk(v) && i < |v.inodes|
    ensures SlotsApart(v.inodes[i].direct, 0, v.inodes[i].BlocksUsed())
  {
    var n := v.inodes[i];
    forall s: nat, t: nat | 0 <= s < t < n.BlocksUsed()
      ensures n.direct[s] != n.direct[t]
    {
      assert InUse(v.inodes, i, s) && InUse(v.inodes, i, t);
    }
  }

  /** A block another inode uses is neither one of `ino`'s old blocks nor a new one. */
  lemma OthersBlocks(v: Vol, ino: nat, d: seq<Byte>, v1: Vol, p: Pointers, j: nat, s: nat)
    requires BlocksOk(v) && ino < |v.inodes| && |d| <= MAX_FILE_SIZE && Rewritten(v, v.inodes[ino], d, v1, p)
    requires InUse(v.inodes, j, s) && j != ino
    ensures var b := v.inodes[j].direct[s];
            !Holds(v.inodes[ino], b) && !Among(p, 0, BlocksFor(|d|), b) && Marked(v, b) && InData(v, b)
  {
    hide ReadBlock, Chunk;
    var b, n := v.inodes[j].direct[s], v.inodes[ino];
    assert InodeOk(v, v.inodes[j]);
    forall t: nat | t < n.BlocksUsed() && t < DIRECT_BLOCKS
      ensures n.direct[t] != b
    {
      assert InUse(v.inodes, ino, t);
    }
    forall t: nat | t < BlocksFor(|d|)
      ensures p[t] != b
    {
    }
  }

  lemma RewriteOthers(v: Vol, ino: nat, d: seq<Byte>, v1: Vol, p: Pointers)
    requires BlocksOk(v) && ino < |v.inodes| && |d| <= MAX_FILE_SIZE && Rewritten(v, v.inodes[ino], d, v1, p)
    ensures OthersKeep(v, SetInode(v1, ino, Inode(v.inodes[ino].kind, |d|, p)), ino)
  {
    hide ReadBlock, Chunk, Marked, InData, Holds, Among;
    var v2 := SetInode(v1, ino, Inode(v.inodes[ino].kind, |d|, p));
    SameRegion(v1, v2);
    forall j: nat | j < |v.inodes| && j != ino
      ensures Contents(v2, v2.inodes[j]) == Contents(v, v.inodes[j])
    {
      var n := v.inodes[j];
      assert InodeOk(v, n);
      forall s: nat | s < n.BlocksUsed()
        ensures ReadBlock(v2, n.direct[s]) == ReadBlock(v, n.direct[s])
      {
        assert InUse(v.inodes, j, s);
        OthersBlocks(v, ino, d, v1, p, j, s);
      }
      SameBlocks(v, v2, n, n.BlocksUsed());
    }
  }

  lemma RewriteInodesOk(v: Vol, ino: nat, d: seq<Byte>, v1: Vol, p: Pointers)
    requires BlocksOk(v) && ino < |v.inodes| && |d| <= MAX_FILE_SIZE && Rewritten(v, v.inodes[ino], d, v1, p)
    requires v.inodes[ino].kind != KIND_FREE
    ensures var v2 := SetInode(v1, ino, Inode(v.inodes[ino].kind, |d|, p));
            forall j: nat :: j < |v2.inodes| ==> InodeOk(v2, v2.inodes[j])
  {
    hide ReadBlock, Chunk, Holds;
    var v2 := SetInode(v1, ino, Inode(v.inodes[ino].kind, |d|, p));
    forall j: nat | j < |v2.inodes|
      ensures InodeOk(v2, v2.inodes[j])
    {
      assert InodeOk(v, v.inodes[j]);
      if j != ino {
        forall s: nat | s < v.inodes[j].BlocksUsed()
          ensures InData(v2, v.inodes[j].direct[s]) && Marked(v2, v.inodes[j].direct[s])
        {
          assert InUse(v.inodes, j, s);
          OthersBlocks(v, ino, d, v1, p, j, s);
          assert Marked(v1, v.inodes[j].direct[s]);
        }
      } else {
        forall s: nat | s < BlocksFor(|d|)
          ensures InData(v2, p[s]) && Marked(v2, p[s])
        {
          assert Among(p, 0, BlocksFor(|d|), p[s]);
          assert Marked(v1, p[s]);
        }
      }
    }
  }

  lemma RewriteNoSharing(v: Vol, ino: nat, d: seq<Byte>, v1: Vol, p: Pointers)
    requires BlocksOk(v) && ino < |v.inodes| && |d| <= MAX_FILE_SIZE && Rewritten(v, v.inodes[ino], d, v1, p)
    ensures NoSharedBlocks(SetInode(v1, ino, Inode(v.inodes[ino].kind, |d|, p)).inodes)
  {
    hide ReadBlock, Chunk, Marked, Holds;
    var inodes := SetInode(v1, ino, Inode(v.inodes[ino].kind, |d|, p)).inodes;
    forall i: nat, s: nat, j: nat, t: nat
      | InUse(inodes, i, s) && InUse(inodes, j, t) && inodes[i].direct[s] == inodes[j].direct[t]
      ensures i == j && s == t
    {
      if i != ino {
        assert InUse(v.inodes, i, s);
        OthersBlocks(v, ino, d, v1, p, i, s);
      }
      if j != ino {
        assert InUse(v.inodes, j, t);
        OthersBlocks(v, ino, d, v1, p, j, t);
      }
    }
  }

  lemma RewriteExact(v: Vol, ino: nat, d: seq<Byte>, v1: Vol, p: Pointers)
    requires BlocksOk(v) && ino < |v.inodes| && |d| <= MAX_FILE_SIZE && Rewritten(v, v.inodes[ino], d, v1, p)
    requires Exact(v)
    ensures Exact(SetInode(v1, ino, Inode(v.inodes[ino].kind, |d|, p)))
  {
    hide ReadBlock, Chunk, InData;
    var v2 := SetInode(v1, ino, Inode(v.inodes[ino].kind, |d|, p));
    forall b: nat | Marked(v2, b)
      ensures Used(v2.inodes, b)
    {
      assert Marked(v1, b);
      if Among(p, 0, BlocksFor(|d|), b) {
        var s: nat :| 0 <= s < BlocksFor(|d|) && s < DIRECT_BLOCKS && p[s] == b;
        assert InUse(v2.inodes, ino, s);
      } else {
        assert Used(v.inodes, b);
        var i: nat, s: nat :| InUse(v.inodes, i, s) && v.inodes[i].direct[s] == b;
        assert InUse(v2.inodes, i, s);
      }
    }
  }

  /** `write_inode_data` on a well-formed volume. It fails exactly for too much data
      or too few clear blocks; on success the inode reads back as `d`; every other
      inode keeps its contents; the block invariant is kept, and on success or
      oversize so is exactness of the marks. */
  lemma WriteDataCorrect(v: Vol, ino: nat, d: seq<Byte>)
    requires BlocksOk(v) && ino < |v.inodes| && v.inodes[ino].kind != KIND_FREE
    ensures var (v1, r) := WriteData(v, ino, v.inodes[ino], d);
            && BlocksOk(v1) && OthersKeep(v, v1, ino)
            && (r == Err(TooLarge) <==> |d| > MAX_FILE_SIZE)
            && (r == Err(NoSpace) <==> |d| <= MAX_FILE_SIZE && !Fits(v, v.inodes[ino], d))
            && (r.Ok? <==> |d| <= MAX_FILE_SIZE && Fits(v, v.inodes[ino], d))
            && (r.Ok? ==> && Contents(v1, v1.inodes[ino]) == d && v1.inodes[ino].size == |d|
                          && v1.inodes[ino].kind == v.inodes[ino].kind)
            && (!r.Ok? ==> v1.inodes == v.inodes && v1.data == v.data)
            && (Exact(v) && r != Err(NoSpace) ==> Exact(v1))
            && (r.Ok? ==> forall b: nat ::
                  Marked(v1, b) <==> (Marked(v, b) && !Holds(v.inodes[ino], b)) || Holds(v1.inodes[ino], b))
  {
    hide ReadBlock, Chunk, ClearCount, NoSharedBlocks, InodeOk;
    var n := v.inodes[ino];
    assert InodeOk(v, n);
    SizeOk(v, n);
    if |d| <= MAX_FILE_SIZE {
      if Fits(v, n, d) {
        SlotsDistinct(v, ino);
        var vw, p := RewriteSlots(v, n, d);
        WriteDataOk(v, ino, d, vw, p);
      } else {
        AllocSlotsSpec(v, n.direct, n.BlocksUsed(), BlocksFor(|d|));
        BitsGrowOk(v, WriteData(v, ino, n, d).0);
      }
    }
  }

  lemma SizeOk(v: Vol, n: Inode)
    requires InodeOk(v, n)
    ensures n.size <= MAX_FILE_SIZE && n.BlocksUsed() <= DIRECT_BLOCKS
  {
  }

  lemma WriteDataOk(v: Vol, ino: nat, d: seq<Byte>, v1: Vol, p: Pointers)
    requires BlocksOk(v) && ino < |v.inodes| && v.inodes[ino].kind != KIND_FREE
    requires |d| <= MAX_FILE_SIZE && Rewritten(v, v.inodes[ino], d, v1, p)
    ensures var v2 := SetInode(v1, ino, Inode(v.inodes[ino].kind, |d|, p));
            && BlocksOk(v2) && OthersKeep(v, v2, ino) && Contents(v2, v2.inodes[ino]) == d
            && (Exact(v) ==> Exact(v2))
            && (forall b: nat :: Marked(v2, b) <==>
                  (Marked(v, b) && !Holds(v.inodes[ino], b)) || Holds(v2.inodes[ino], b))
  {
    hide ReadBlock, Chunk, NoSharedBlocks, InodeOk, Contents, OthersKeep, Exact;
    var v2 := SetInode(v1, ino, Inode(v.inodes[ino].kind, |d|, p));
    SameRegion(v1, v2);
    SameMarks(v1, v2);
    RewriteInodesOk(v, ino, d, v1, p);
    RewriteNoSharing(v, ino, d, v1, p);
    RewriteOthers(v, ino, d, v1, p);
    ReadsBack(v2, v2.inodes[ino], d);
    if Exact(v) {
      RewriteExact(v, ino, d, v1, p);
    }
  }

  lemma BitsGrowOk(v: Vol, v1: Vol)
    requires BlocksOk(v) && OnlyBitsGrow(v, v1)
    ensures BlocksOk(v1)
    ensures forall j: nat :: j < |v.inodes| ==> Contents(v1, v.inodes[j]) == Contents(v, v.inodes[j])
  {
    hide NoSharedBlocks, ReadBlock;
    SameRegion(v, v1);
    forall j: nat | j < |v.inodes|
      ensures InodeOk(v1, v1.inodes[j]) && Contents(v1, v.inodes[j]) == Contents(v, v.inodes[j])
    {
      var n := v.inodes[j];
      assert InodeOk(v, n);
      SameBlocks(v, v1, n, n.BlocksUsed());
    }
  }

  lemma {:induction false} FreeSlotsBelow(v: Vol, p: Pointers, i: nat, hi: nat, s: nat)
    requires s < i && s < DIRECT_BLOCKS
    ensures FreeSlots(v, p, i, hi).1[s] == p[s]
    decreases hi - i
  {
    hide FreeBlock;
    if i < hi && i < DIRECT_BLOCKS {
      if p[i] != 0 {
        FreeSlotsBelow(FreeBlock(v, p[i]), p[i := 0], i + 1, hi, s);
      } else {
        FreeSlotsBelow(v, p, i + 1, hi, s);
      }
    }
  }

  /** Contents that need no more blocks than before stay in the blocks they had. */
  lemma ShrinkReuses(v: Vol, ino: nat, d: seq<Byte>)
    requires ino < |v.inodes| && |d| <= MAX_FILE_SIZE && BlocksFor(|d|) <= v.inodes[ino].BlocksUsed() <= DIRECT_BLOCKS
    ensures var v1 := WriteData(v, ino, v.inodes[ino], d).0;
            ino < |v1.inodes| ==> forall b: nat :: Holds(v1.inodes[ino], b) ==> Holds(v.inodes[ino], b)
  {
    hide WriteSlots, FreeSlots;
    var n, v1 := v.inodes[ino], WriteData(v, ino, v.inodes[ino], d).0;
    if ino < |v1.inodes| {
      forall b: nat | Holds(v1.inodes[ino], b)
        ensures Holds(n, b)
      {
        var s: nat :| s < v1.inodes[ino].BlocksUsed() && s < DIRECT_BLOCKS && v1.inodes[ino].direct[s] == b;
        FreeSlotsBelow(v, n.direct, BlocksFor(|d|), n.BlocksUsed(), s);
      }
    }
  }
}
