/** Page-table entry words: the `PageTableEncoder` interface as a record of pure
    functions, the laws a page-table walk relies on, and two encoders proved to satisfy
    them: the kernel's for x86_64 (kernel-image/src/arch/paging.rs) and the one its tests
    use (cibos-kernel/src/paging.rs). */
module PageEncoding {
  import opened Division
  import opened LittleEndian

  const LEVELS: nat := 4
  /** Frames whose address fits the 52-bit address field of an entry. */
  const FRAME_LIMIT: nat := 0x100_0000_0000

  datatype Permissions = Permissions(read: bool, write: bool, execute: bool, user: bool, device: bool)

  const USER_RW := Permissions(true, true, false, true, false)

  /** Frames are given by index; `isBlockLeaf` and `encodeBlockLeaf` take the level. */
  datatype Encoder = Encoder(
    encodeTable: nat -> Word,
    encodeLeaf: (nat, Permissions) -> Word,
    encodeBlockLeaf: (nat, Permissions, nat) -> Word,
    isPresent: Word -> bool,
    isBlockLeaf: (Word, nat) -> bool,
    entryFrame: Word -> nat)

  /** What the walk needs of an encoder: entries decode to the frame they were made
      from, are present, table entries are never taken for blocks and block entries
      always are, and an all-zero word is not present. */
  ghost predicate Lawful(E: Encoder) {
    && !E.isPresent(0)
    && (forall f: nat :: f < FRAME_LIMIT ==>
          E.isPresent(E.encodeTable(f)) && E.entryFrame(E.encodeTable(f)) == f)
    && (forall f: nat, l: nat :: f < FRAME_LIMIT && l < LEVELS - 1 ==> !E.isBlockLeaf(E.encodeTable(f), l))
    && (forall f: nat, p :: f < FRAME_LIMIT ==>
          E.isPresent(E.encodeLeaf(f, p)) && E.entryFrame(E.encodeLeaf(f, p)) == f)
    && (forall f: nat, p, l: nat :: f < FRAME_LIMIT && l < LEVELS - 1 ==>
          && E.isPresent(E.encodeBlockLeaf(f, p, l)) && E.entryFrame(E.encodeBlockLeaf(f, p, l)) == f
          && E.isBlockLeaf(E.encodeBlockLeaf(f, p, l), l))
  }

  // ---- the x86_64 encoder: present = bit 0, write = bit 1, user = bit 2, write-through and
  // ---- cache-disable = bits 3 and 4 for device memory, PS = bit 7, NX = bit 63, frame address
  // ---- in bits 12..52; the encoder of the kernel's tests leaves the device bits out

  const NX: nat := 0x8000_0000_0000_0000

  function Flags(p: Permissions, mmio: bool): (r: nat)
    ensures r % 2 == 1 && r < 32
  {
    1 + (if p.write then 2 else 0) + (if p.user then 4 else 0) + (if mmio && p.device then 24 else 0)
  }

  function High(p: Permissions): nat {
    if p.execute then 0 else NX
  }

  function TableWord(f: nat): Word {
    (f % FRAME_LIMIT) * 4096 + 7
  }

  function LeafWord(f: nat, p: Permissions, mmio: bool): Word {
    (f % FRAME_LIMIT) * 4096 + Flags(p, mmio) + High(p)
  }

  function BlockWord(f: nat, p: Permissions, mmio: bool): Word {
    (f % FRAME_LIMIT) * 4096 + Flags(p, mmio) + 128 + High(p)
  }

  predicate Present(e: Word) {
    e % 2 == 1
  }

  predicate BlockLeaf(e: Word, l: nat) {
    e % 2 == 1 && (e / 128) % 2 == 1
  }

  function FrameOf(e: Word): nat {
    (e / 4096) % FRAME_LIMIT
  }

  function KernelLeaf(f: nat, p: Permissions): Word { LeafWord(f, p, true) }

  function KernelBlockLeaf(f: nat, p: Permissions, l: nat): Word { BlockWord(f, p, true) }

  function TestLeaf(f: nat, p: Permissions): Word { LeafWord(f, p, false) }

  function TestBlockLeaf(f: nat, p: Permissions, l: nat): Word { BlockWord(f, p, false) }

  const X86_64 := Encoder(TableWord, KernelLeaf, KernelBlockLeaf, Present, BlockLeaf, FrameOf)

  const X86_LIKE := Encoder(TableWord, TestLeaf, TestBlockLeaf, Present, BlockLeaf, FrameOf)

  /** The fields of a word built from a frame, an odd flag part and a block bit. */
  lemma Fields(e: nat, a: nat, block: nat, flags: nat)
    requires e == a * 4096 + block * 128 + flags && block <= 1 && flags < 128 && flags % 2 == 1
    ensures e % 2 == 1 && (e / 128) % 2 == block && e / 4096 == a && e % 128 == flags
  {
    DivMod(e, 2, 2048 * a + 64 * block + flags / 2, 1);
    DivMod(e, 128, 32 * a + block, flags);
    DivMod(32 * a + block, 2, 16 * a, block);
    DivMod(e, 4096, a, block * 128 + flags);
  }

  /** Bit 63 lies above the address field. */
  lemma HighBit(f: nat, p: Permissions) returns (a: nat)
    requires f < FRAME_LIMIT
    ensures f * 4096 + High(p) == a * 4096 && a % FRAME_LIMIT == f
  {
    a := if p.execute then f else f + 0x8_0000_0000_0000;
    DivMod(a, FRAME_LIMIT, if p.execute then 0 else 0x800, f);
  }

  lemma TableWordLaws(f: nat)
    requires f < FRAME_LIMIT
    ensures Present(TableWord(f)) && FrameOf(TableWord(f)) == f && forall l: nat :: !BlockLeaf(TableWord(f), l)
  {
    Fields(TableWord(f), f, 0, 7);
  }

  lemma LeafWordLaws(f: nat, p: Permissions, mmio: bool)
    requires f < FRAME_LIMIT
    ensures Present(LeafWord(f, p, mmio)) && FrameOf(LeafWord(f, p, mmio)) == f
  {
    var a := HighBit(f, p);
    Fields(LeafWord(f, p, mmio), a, 0, Flags(p, mmio));
  }

  lemma BlockWordLaws(f: nat, p: Permissions, mmio: bool, l: nat)
    requires f < FRAME_LIMIT
    ensures Present(BlockWord(f, p, mmio)) && FrameOf(BlockWord(f, p, mmio)) == f
    ensures BlockLeaf(BlockWord(f, p, mmio), l)
  {
    var a := HighBit(f, p);
    Fields(BlockWord(f, p, mmio), a, 1, Flags(p, mmio));
  }

  lemma ZeroIsAbsent()
    ensures !Present(0)
  {
  }

  lemma X86LikeIsLawful()
    ensures Lawful(X86_LIKE)
  {
    hide TableWord, LeafWord, BlockWord, Present, BlockLeaf, FrameOf;
    ZeroIsAbsent();
    var E := X86_LIKE;
    forall f: nat | f < FRAME_LIMIT
      ensures E.isPresent(E.encodeTable(f)) && E.entryFrame(E.encodeTable(f)) == f
      ensures forall l: nat :: !E.isBlockLeaf(E.encodeTable(f), l)
    {
      TableWordLaws(f);
    }
    forall f: nat, p | f < FRAME_LIMIT
      ensures E.isPresent(E.encodeLeaf(f, p)) && E.entryFrame(E.encodeLeaf(f, p)) == f
    {
      LeafWordLaws(f, p, false);
    }
    forall f: nat, p, l: nat | f < FRAME_LIMIT
      ensures E.isPresent(E.encodeBlockLeaf(f, p, l)) && E.entryFrame(E.encodeBlockLeaf(f, p, l)) == f
      ensures E.isBlockLeaf(E.encodeBlockLeaf(f, p, l), l)
    {
      BlockWordLaws(f, p, false, l);
    }
  }

  lemma X86IsLawful()
    ensures Lawful(X86_64)
  {
    hide TableWord, LeafWord, BlockWord, Present, BlockLeaf, FrameOf;
    ZeroIsAbsent();
    var E := X86_64;
    forall f: nat | f < FRAME_LIMIT
      ensures E.isPresent(E.encodeTable(f)) && E.entryFrame(E.encodeTable(f)) == f
      ensures forall l: nat :: !E.isBlockLeaf(E.encodeTable(f), l)
    {
      TableWordLaws(f);
    }
    forall f: nat, p | f < FRAME_LIMIT
      ensures E.isPresent(E.encodeLeaf(f, p)) && E.entryFrame(E.encodeLeaf(f, p)) == f
    {
      LeafWordLaws(f, p, true);
    }
    forall f: nat, p, l: nat | f < FRAME_LIMIT
      ensures E.isPresent(E.encodeBlockLeaf(f, p, l)) && E.entryFrame(E.encodeBlockLeaf(f, p, l)) == f
      ensures E.isBlockLeaf(E.encodeBlockLeaf(f, p, l), l)
    {
      BlockWordLaws(f, p, true, l);
    }
  }

  /** The bit of weight `value` is set. */
  predicate BitOn(e: Word, value: nat)
    requires value > 0
  {
    e / value % 2 == 1
  }

  /** What the bits of an entry say, for a page or a block. */
  ghost predicate BitsSay(e: Word, f: nat, p: Permissions, mmio: bool, block: bool) {
    && BitOn(e, 1) && BitOn(e, 2) == p.write && BitOn(e, 4) == p.user
    && BitOn(e, 8) == (mmio && p.device) && BitOn(e, 16) == (mmio && p.device)
    && BitOn(e, 128) == block && BitOn(e, NX) == !p.execute && FrameOf(e) == f
  }

  /** A bit of weight `v` below `2 * h * v` is a bit of the low part. */
  lemma LowBit(e: nat, b: nat, low: nat, v: nat, h: nat)
    requires v > 0 && e == b * (2 * h * v) + low
    ensures e / v % 2 == low / v % 2
  {
    assert e == (b * 2 * h + low / v) * v + low % v;
    DivMod(e, v, b * 2 * h + low / v, low % v);
    var k := low / v;
    DivMod(b * 2 * h + k, 2, b * h + k / 2, k % 2);
  }

  lemma FlagBits(e: nat, b: nat, low: nat)
    requires e == b * 32 + low && low < 32
    ensures e / 2 % 2 == low / 2 % 2 && e / 4 % 2 == low / 4 % 2
    ensures e / 8 % 2 == low / 8 % 2 && e / 16 % 2 == low / 16 % 2
  {
    LowBit(e, b, low, 2, 8);
    LowBit(e, b, low, 4, 4);
    LowBit(e, b, low, 8, 2);
    LowBit(e, b, low, 16, 1);
  }

  lemma WordBits(e: Word, f: nat, p: Permissions, mmio: bool, block: bool)
    requires f < FRAME_LIMIT && e == f * 4096 + (if block then 128 else 0) + Flags(p, mmio) + High(p)
    ensures BitsSay(e, f, p, mmio, block)
  {
    var a := HighBit(f, p);
    var k := if block then 1 else 0;
    Fields(e, a, k, Flags(p, mmio));
    FlagBits(e, a * 128 + k * 4, Flags(p, mmio));
    DivMod(e, NX, if p.execute then 0 else 1, f * 4096 + k * 128 + Flags(p, mmio));
  }

  /** The entries of the kernel and of its tests carry exactly the permissions asked for; only the
      kernel marks device memory. */
  lemma EntryBits(f: nat, p: Permissions, l: nat)
    requires f < FRAME_LIMIT
    ensures BitsSay(X86_64.encodeLeaf(f, p), f, p, true, false)
    ensures BitsSay(X86_64.encodeBlockLeaf(f, p, l), f, p, true, true)
    ensures BitsSay(X86_LIKE.encodeLeaf(f, p), f, p, false, false)
    ensures BitsSay(X86_LIKE.encodeBlockLeaf(f, p, l), f, p, false, true)
    ensures TableBits(X86_64.encodeTable(f), f) && TableBits(X86_LIKE.encodeTable(f), f)
  {
    hide BitsSay, Flags, High;
    WordBits(LeafWord(f, p, true), f, p, true, false);
    WordBits(BlockWord(f, p, true), f, p, true, true);
    WordBits(LeafWord(f, p, false), f, p, false, false);
    WordBits(BlockWord(f, p, false), f, p, false, true);
    Fields(TableWord(f), f, 0, 7);
    FlagBits(TableWord(f), f * 128, 7);
  }

  /** Table entries are present, writable and open to the user: the leaf decides. */
  predicate TableBits(e: Word, f: nat) {
    BitOn(e, 1) && BitOn(e, 2) && BitOn(e, 4) && !BitOn(e, 8) && !BitOn(e, 16) && FrameOf(e) == f
  }
}
