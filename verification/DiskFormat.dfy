/** The on-disk form of a CIBOSFS volume (cibos-kernel/src/fs.rs): superblock, bitmap
    bits, 64-byte inodes and data blocks in a device of 512-byte blocks, and the proof
    that each on-disk update is one update of the volume it represents. */
module DiskFormat {
  import opened LittleEndian
  import opened Division
  import opened Volume

  type Device = seq<Block>

  const INODE_SIZE: nat := 64
  const INODES_PER_BLOCK: nat := 8
  const BITS_PER_BLOCK: nat := 4096
  const U32: nat := 0x1_0000_0000

  /** ASCII "CIBOSFS1", little-endian. */
  const FS_MAGIC: nat := 0x3153_4653_4F42_4943
  const FS_VERSION: nat := 1

  // ---- sequences of little-endian fields -----------------------------------

  datatype Field = Field(value: nat, width: nat)

  function PutAll(fs: seq<Field>): seq<Byte> {
    if fs == [] then [] else Encode(fs[0].value, fs[0].width) + PutAll(fs[1..])
  }

  function Total(widths: seq<nat>): nat {
    if widths == [] then 0 else widths[0] + Total(widths[1..])
  }

  function GetAll(b: seq<Byte>, widths: seq<nat>): (r: seq<nat>)
    requires Total(widths) <= |b|
    ensures |r| == |widths|
  {
    if widths == [] then [] else [Decode(b[..widths[0]])] + GetAll(b[widths[0]..], widths[1..])
  }

  function Widths(fs: seq<Field>): (r: seq<nat>)
    ensures |r| == |fs|
  {
    if fs == [] then [] else [fs[0].width] + Widths(fs[1..])
  }

  function Values(fs: seq<Field>): (r: seq<nat>)
    ensures |r| == |fs|
  {
    if fs == [] then [] else [fs[0].value] + Values(fs[1..])
  }

  /** Reading the fields back gives the values written, whatever follows them. */
  lemma {:induction false} GetPut(fs: seq<Field>, tail: seq<Byte>)
    requires forall i :: 0 <= i < |fs| ==> fs[i].value < Pow256(fs[i].width)
    ensures |PutAll(fs)| == Total(Widths(fs))
    ensures GetAll(PutAll(fs) + tail, Widths(fs)) == Values(fs)
  {
    hide Encode, Decode, Pow256;
    if fs != [] {
      var w, head, rest := fs[0].width, Encode(fs[0].value, fs[0].width), PutAll(fs[1..]) + tail;
      GetPut(fs[1..], tail);
      DecodeEncode(fs[0].value, w);
      assert PutAll(fs) + tail == head + rest;
      assert (head + rest)[..w] == head && (head + rest)[w..] == rest;
      assert Widths(fs)[1..] == Widths(fs[1..]);
    }
  }

  // ---- superblock ----------------------------------------------------------

  datatype Superblock = Superblock(totalBlocks: nat, bitmapStart: nat, bitmapBlocks: nat, inodeStart: nat,
                                   inodeCount: nat, dataStart: nat, dataBlocks: nat)

  const SB_WIDTHS: seq<nat> := [8, 4, 4, 8, 8, 8, 8, 8, 8]

  function SbFields(sb: Superblock): seq<Field> {
    [Field(FS_MAGIC, 8), Field(FS_VERSION, 4), Field(sb.inodeCount, 4), Field(sb.totalBlocks, 8),
     Field(sb.bitmapStart, 8), Field(sb.bitmapBlocks, 8), Field(sb.inodeStart, 8), Field(sb.dataStart, 8),
     Field(sb.dataBlocks, 8)]
  }

  function Pad(b: seq<Byte>): (r: Block)
    requires |b| <= BLOCK_SIZE
  {
    b + seq<Byte>(BLOCK_SIZE - |b|, _ => 0)
  }

  predicate SbFits(sb: Superblock) {
    && sb.inodeCount < U32 && sb.totalBlocks < WORD_LIMIT && sb.bitmapStart < WORD_LIMIT && sb.bitmapBlocks < WORD_LIMIT
    && sb.inodeStart < WORD_LIMIT && sb.dataStart < WORD_LIMIT && sb.dataBlocks < WORD_LIMIT
  }

  function ReadSb(b: Block): Result<Superblock> {
    assert Total(SB_WIDTHS) == 64 by { SbTotal(); }
    var f := GetAll(b, SB_WIDTHS);
    if f[0] != FS_MAGIC || f[1] != FS_VERSION then Err(BadSuperblock)
    else Ok(Superblock(f[3], f[4], f[5], f[6], f[2], f[7], f[8]))
  }

  lemma SbTotal()
    ensures Total(SB_WIDTHS) == 64
  {
    assert Total(SB_WIDTHS[4..]) == 40 by {
      assert Total(SB_WIDTHS[8..]) == 8 && Total(SB_WIDTHS[7..]) == 16 && Total(SB_WIDTHS[6..]) == 24
             && Total(SB_WIDTHS[5..]) == 32;
    }
    assert Total(SB_WIDTHS[3..]) == 48 && Total(SB_WIDTHS[2..]) == 52 && Total(SB_WIDTHS[1..]) == 56;
  }

  lemma {:induction false} FieldAt(fs: seq<Field>, i: nat)
    requires i < |fs|
    ensures Values(fs)[i] == fs[i].value && Widths(fs)[i] == fs[i].width
  {
    if i > 0 {
      FieldAt(fs[1..], i - 1);
    }
  }

  lemma SbWidths(sb: Superblock)
    ensures Widths(SbFields(sb)) == SB_WIDTHS
  {
    forall i: nat | i < 9
      ensures Widths(SbFields(sb))[i] == SB_WIDTHS[i]
    {
      FieldAt(SbFields(sb), i);
    }
  }

  function SbBlock(sb: Superblock): Block
    requires SbFits(sb)
  {
    SbLength(sb);
    Pad(PutAll(SbFields(sb)))
  }

  lemma SbLength(sb: Superblock)
    requires SbFits(sb)
    ensures |PutAll(SbFields(sb))| == 64
  {
    hide PutAll, GetAll, Total, Widths, Values;
    PowersOf256();
    GetPut(SbFields(sb), []);
    SbWidths(sb);
    SbTotal();
  }

  /** A written superblock mounts as itself. */
  lemma SbRoundTrip(sb: Superblock)
    requires SbFits(sb)
    ensures ReadSb(SbBlock(sb)) == Ok(sb)
  {
    hide PutAll, GetAll;
    PowersOf256();
    var fs := SbFields(sb);
    SbLength(sb);
    GetPut(fs, seq<Byte>(BLOCK_SIZE - 64, _ => 0));
    SbWidths(sb);
    forall i: nat | i < 9
      ensures Values(fs)[i] == fs[i].value
    {
      FieldAt(fs, i);
    }
  }

  // ---- inodes --------------------------------------------------------------

  const INODE_WIDTHS: seq<nat> := [4, 4, 8, 8, 8, 8, 8, 8, 8]

  function InodeFields(n: Inode): seq<Field> {
    [Field(n.kind, 4), Field(0, 4), Field(n.size, 8), Field(n.direct[0], 8), Field(n.direct[1], 8),
     Field(n.direct[2], 8), Field(n.direct[3], 8), Field(n.direct[4], 8), Field(n.direct[5], 8)]
  }

  predicate InodeFits(n: Inode) {
    n.kind < U32 && n.size < WORD_LIMIT && forall i :: 0 <= i < DIRECT_BLOCKS ==> n.direct[i] < WORD_LIMIT
  }

  lemma InodeTotal()
    ensures Total(INODE_WIDTHS) == 64
  {
    assert Total(INODE_WIDTHS[4..]) == 40 by {
      assert Total(INODE_WIDTHS[8..]) == 8 && Total(INODE_WIDTHS[7..]) == 16 && Total(INODE_WIDTHS[6..]) == 24;
      assert Total(INODE_WIDTHS[5..]) == 32;
    }
    assert Total(INODE_WIDTHS[3..]) == 48 && Total(INODE_WIDTHS[2..]) == 56 && Total(INODE_WIDTHS[1..]) == 60;
  }

  function DecodeInode(b: seq<Byte>): Inode
    requires |b| == INODE_SIZE
  {
    InodeTotal();
    var f := GetAll(b, INODE_WIDTHS);
    Inode(f[0], f[2], [f[3], f[4], f[5], f[6], f[7], f[8]])
  }

  function EncodeInode(n: Inode): seq<Byte> {
    PutAll(InodeFields(n))
  }

  lemma InodeWidths(n: Inode)
    ensures Widths(InodeFields(n)) == INODE_WIDTHS
  {
    forall i: nat | i < 9
      ensures Widths(InodeFields(n))[i] == INODE_WIDTHS[i]
    {
      FieldAt(InodeFields(n), i);
    }
  }

  lemma InodeValues(n: Inode)
    ensures Values(InodeFields(n)) == [n.kind, 0, n.size] + n.direct
  {
    var fs := InodeFields(n);
    var expected := [n.kind, 0, n.size] + n.direct;
    forall i: nat | i < 9
      ensures Values(fs)[i] == expected[i]
    {
      FieldAt(fs, i);
    }
  }

  lemma InodeRead(n: Inode)
    requires InodeFits(n)
    ensures |EncodeInode(n)| == INODE_SIZE && Total(INODE_WIDTHS) == INODE_SIZE
    ensures GetAll(EncodeInode(n), INODE_WIDTHS) == [n.kind, 0, n.size] + n.direct
  {
    hide PutAll, GetAll, Total, Widths, Values;
    PowersOf256();
    GetPut(InodeFields(n), []);
    assert EncodeInode(n) + [] == EncodeInode(n);
    InodeWidths(n);
    InodeValues(n);
    InodeTotal();
  }

  /** A written inode reads back as itself. */
  lemma InodeRoundTrip(n: Inode)
    requires InodeFits(n)
    ensures |EncodeInode(n)| == INODE_SIZE && DecodeInode(EncodeInode(n)) == n
  {
    hide EncodeInode, GetAll, Total;
    InodeRead(n);
    var f := [n.kind, 0, n.size] + n.direct;
    assert [f[3], f[4], f[5], f[6], f[7], f[8]] == n.direct;
  }

  // ---- bits of a byte ------------------------------------------------------

  /** Bit `k` of `b`, the low bit being bit 0. */
  predicate TestBit(b: nat, k: nat) {
    if k == 0 then b % 2 == 1 else TestBit(b / 2, k - 1)
  }

  /** `b |= 1 << k` when `on`, else `b &= !(1 << k)`. */
  function PutBit(b: nat, k: nat, on: bool): nat {
    if k == 0 then b - b % 2 + (if on then 1 else 0) else PutBit(b / 2, k - 1, on) * 2 + b % 2
  }

  lemma {:induction false} PutBitSpec(b: nat, k: nat, on: bool, j: nat)
    ensures TestBit(PutBit(b, k, on), j) == if j == k then on else TestBit(b, j)
  {
    if k > 0 && j > 0 {
      PutBitSpec(b / 2, k - 1, on, j - 1);
    }
  }

  lemma {:induction false} PutBitBounds(b: nat, k: nat, on: bool, width: nat)
    requires k < width && b < Pow2(width)
    ensures PutBit(b, k, on) < Pow2(width)
  {
    if k > 0 {
      PutBitBounds(b / 2, k - 1, on, width - 1);
    }
  }

  lemma PutBitIsByte(b: Byte, k: nat, on: bool)
    requires k < 8
    ensures PutBit(b, k, on) < 256
  {
    assert Pow2(8) == 256 by {
      assert Pow2(4) == 16;
    }
    PutBitBounds(b, k, on, 8);
  }

  // ---- the volume a device represents --------------------------------------

  /** Bitmap, inode table and data region follow the superblock and fill the device. */
  predicate LayoutOk(dev: Device, sb: Superblock) {
    && SbFits(sb) && sb.totalBlocks == |dev| && sb.inodeCount > 0
    && sb.bitmapStart == 1 && sb.inodeStart == 1 + sb.bitmapBlocks
    && sb.dataStart == sb.inodeStart + InodeBlocks(sb.inodeCount)
    && sb.dataBlocks > 0 && sb.dataStart + sb.dataBlocks == |dev|
    && sb.dataBlocks <= BITS_PER_BLOCK * sb.bitmapBlocks
  }

  function InodeBlocks(count: nat): nat {
    (count + INODES_PER_BLOCK - 1) / INODES_PER_BLOCK
  }

  function BlockAt(dev: Device, lba: nat): Block {
    if lba < |dev| then dev[lba] else seq(BLOCK_SIZE, _ => 0)
  }

  function InodeBlock(sb: Superblock, ino: nat): nat {
    sb.inodeStart + ino / INODES_PER_BLOCK
  }

  function InodeOffset(ino: nat): (off: nat)
    ensures off + INODE_SIZE <= BLOCK_SIZE
  {
    ino % INODES_PER_BLOCK * INODE_SIZE
  }

  function InodeAt(dev: Device, sb: Superblock, ino: nat): Inode {
    DecodeInode(BlockAt(dev, InodeBlock(sb, ino))[InodeOffset(ino)..InodeOffset(ino) + INODE_SIZE])
  }

  function BitBlock(sb: Superblock, i: nat): nat {
    sb.bitmapStart + i / 8 / BLOCK_SIZE
  }

  function BitOffset(i: nat): (off: nat)
    ensures off < BLOCK_SIZE
  {
    i / 8 % BLOCK_SIZE
  }

  predicate BitAt(dev: Device, sb: Superblock, i: nat) {
    TestBit(BlockAt(dev, BitBlock(sb, i))[BitOffset(i)], i % 8)
  }

  function Abs(dev: Device, sb: Superblock): (v: Vol)
    requires LayoutOk(dev, sb)
    ensures |v.inodes| == sb.inodeCount && |v.bits| == |v.data| == sb.dataBlocks && v.dataStart == sb.dataStart
  {
    Vol(seq(sb.inodeCount, (i: nat) => InodeAt(dev, sb, i)), seq(sb.dataBlocks, (i: nat) => BitAt(dev, sb, i)),
        dev[sb.dataStart..], sb.dataStart)
  }

  // ---- each on-disk update is one update of the volume ---------------------

  function Patch(b: Block, off: nat, bytes: seq<Byte>): Block
    requires off + |bytes| <= BLOCK_SIZE
  {
    b[..off] + bytes + b[off + |bytes|..]
  }

  lemma PatchElsewhere(b: Block, off: nat, bytes: seq<Byte>, lo: nat, hi: nat)
    requires off + |bytes| <= BLOCK_SIZE && lo <= hi <= BLOCK_SIZE && (hi <= off || off + |bytes| <= lo)
    ensures Patch(b, off, bytes)[lo..hi] == b[lo..hi]
  {
    var b' := Patch(b, off, bytes);
    assert forall i :: lo <= i < hi ==> b'[i] == b[i];
  }

  function PutInode(dev: Device, sb: Superblock, ino: nat, n: Inode): Device
    requires LayoutOk(dev, sb) && ino < sb.inodeCount && InodeFits(n)
  {
    InodeRoundTrip(n);
    var blk := InodeBlock(sb, ino);
    dev[blk := Patch(dev[blk], InodeOffset(ino), EncodeInode(n))]
  }

  /** An inode slot other than the one written reads as before. */
  lemma OtherInode(dev: Device, sb: Superblock, ino: nat, n: Inode, k: nat)
    requires LayoutOk(dev, sb) && ino < sb.inodeCount && k < sb.inodeCount && k != ino && InodeFits(n)
    ensures InodeAt(PutInode(dev, sb, ino, n), sb, k) == InodeAt(dev, sb, k)
  {
    hide EncodeInode, DecodeInode, SbFits;
    InodeRoundTrip(n);
    if InodeBlock(sb, k) == InodeBlock(sb, ino) {
      var b, off, other := dev[InodeBlock(sb, ino)], InodeOffset(ino), InodeOffset(k);
      assert other + INODE_SIZE <= off || off + INODE_SIZE <= other;
      PatchElsewhere(b, off, EncodeInode(n), other, other + INODE_SIZE);
    }
  }

  lemma ThisInode(dev: Device, sb: Superblock, ino: nat, n: Inode)
    requires LayoutOk(dev, sb) && ino < sb.inodeCount && InodeFits(n)
    ensures InodeAt(PutInode(dev, sb, ino, n), sb, ino) == n
  {
    hide EncodeInode, DecodeInode, SbFits;
    InodeRoundTrip(n);
    var b, off := dev[InodeBlock(sb, ino)], InodeOffset(ino);
    assert Patch(b, off, EncodeInode(n))[off..off + INODE_SIZE] == EncodeInode(n);
  }

  /** Writing an inode's 64 bytes replaces that inode and nothing else. */
  lemma PutInodeIsSetInode(dev: Device, sb: Superblock, ino: nat, n: Inode)
    requires LayoutOk(dev, sb) && ino < sb.inodeCount && InodeFits(n)
    ensures LayoutOk(PutInode(dev, sb, ino, n), sb) && PutInode(dev, sb, ino, n)[0] == dev[0]
    ensures Abs(PutInode(dev, sb, ino, n), sb) == SetInode(Abs(dev, sb), ino, n)
  {
    hide InodeAt, SbFits, TestBit;
    var dev' := PutInode(dev, sb, ino, n);
    ThisInode(dev, sb, ino, n);
    forall k: nat | k < sb.inodeCount && k != ino
      ensures InodeAt(dev', sb, k) == InodeAt(dev, sb, k)
    {
      OtherInode(dev, sb, ino, n, k);
    }
    assert Abs(dev', sb).inodes == SetInode(Abs(dev, sb), ino, n).inodes;
    assert Abs(dev', sb).bits == Abs(dev, sb).bits;
    assert Abs(dev', sb).data == Abs(dev, sb).data;
  }

  function PutBitAt(dev: Device, sb: Superblock, i: nat, on: bool): Device
    requires LayoutOk(dev, sb) && i < sb.dataBlocks
  {
    var blk, off := BitBlock(sb, i), BitOffset(i);
    PutBitIsByte(dev[blk][off], i % 8, on);
    dev[blk := dev[blk][off := PutBit(dev[blk][off], i % 8, on)]]
  }

  lemma PutBitReads(dev: Device, sb: Superblock, i: nat, on: bool, k: nat)
    requires LayoutOk(dev, sb) && i < sb.dataBlocks && k < sb.dataBlocks
    ensures BitAt(PutBitAt(dev, sb, i, on), sb, k) == if k == i then on else BitAt(dev, sb, k)
  {
    hide SbFits, TestBit, PutBit;
    PutBitSpec(dev[BitBlock(sb, i)][BitOffset(i)], i % 8, on, k % 8);
    PutBitIsByte(dev[BitBlock(sb, i)][BitOffset(i)], i % 8, on);
  }

  /** Changing one bitmap bit changes that block's allocation bit and nothing else. */
  lemma PutBitIsSetBit(dev: Device, sb: Superblock, i: nat, on: bool)
    requires LayoutOk(dev, sb) && i < sb.dataBlocks
    ensures LayoutOk(PutBitAt(dev, sb, i, on), sb) && PutBitAt(dev, sb, i, on)[0] == dev[0]
    ensures Abs(PutBitAt(dev, sb, i, on), sb) == SetBit(Abs(dev, sb), i, on)
  {
    hide SbFits, TestBit, PutBit, BitAt, DecodeInode;
    var dev' := PutBitAt(dev, sb, i, on);
    forall k: nat | k < sb.dataBlocks
      ensures BitAt(dev', sb, k) == if k == i then on else BitAt(dev, sb, k)
    {
      PutBitReads(dev, sb, i, on, k);
    }
    assert Abs(dev', sb).bits == SetBit(Abs(dev, sb), i, on).bits;
    assert Abs(dev', sb).inodes == Abs(dev, sb).inodes;
    assert Abs(dev', sb).data == Abs(dev, sb).data;
  }

  /** Writing a data block leaves superblock, bitmap and inode table alone. */
  lemma PutDataIsWriteBlock(dev: Device, sb: Superblock, lba: nat, b: Block)
    requires LayoutOk(dev, sb) && sb.dataStart <= lba < |dev|
    ensures LayoutOk(dev[lba := b], sb) && dev[lba := b][0] == dev[0]
    ensures Abs(dev[lba := b], sb) == WriteBlock(Abs(dev, sb), lba, b)
  {
    hide SbFits, TestBit, DecodeInode;
    var dev' := dev[lba := b];
    assert Abs(dev', sb).bits == Abs(dev, sb).bits;
    assert Abs(dev', sb).inodes == Abs(dev, sb).inodes;
    assert Abs(dev', sb).data == WriteBlock(Abs(dev, sb), lba, b).data;
  }
}
