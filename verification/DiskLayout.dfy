/** The disk byte by byte (cibos-kernel/src/fs.rs): where each field of superblock, bitmap,
    inode table and directories stands, said without the encoders. */
module DiskLayout {
  import opened LittleEndian
  import opened Division
  import opened Volume
  import opened Directories
  import opened DiskFormat
  import opened FileSystem

  // ---- fields at offsets ---------------------------------------------------

  /** Byte `k` of `v`, the lowest being byte 0. */
  function Digit(v: nat, k: nat): Byte {
    v / Pow256(k) % 256
  }

  /** The `width` bytes at `off` hold `v`, lowest byte first. */
  predicate Holds(b: seq<Byte>, off: nat, width: nat, v: nat) {
    off + width <= |b| && forall k: nat {:trigger Digit(v, k)} :: k < width ==> b[off + k] == Digit(v, k)
  }

  lemma {:induction false} EncodeDigit(v: nat, n: nat, k: nat)
    requires k < n
    ensures Encode(v, n)[k] == Digit(v, k)
    decreases n
  {
    if k > 0 {
      EncodeDigit(v / 256, n - 1, k - 1);
      DivDiv(v, 256, Pow256(k - 1), Pow256(k));
    }
  }

  /** Little-endian decoding, digit by digit. */
  lemma DecodesTo(b: seq<Byte>, off: nat, width: nat, v: nat)
    requires off + width <= |b| && v < Pow256(width)
    ensures Decode(b[off..off + width]) == v <==> Holds(b, off, width, v)
  {
    hide Decode, Encode, Digit;
    var s := b[off..off + width];
    forall k: nat | k < width
      ensures Encode(v, width)[k] == Digit(v, k)
    {
      EncodeDigit(v, width, k);
    }
    EncodeDecode(s);
    DecodeEncode(v, width);
    if Holds(b, off, width, v) {
      assert forall k: nat :: k < width ==> s[k] == b[off + k] == Digit(v, k) == Encode(v, width)[k];
      assert s == Encode(v, width);
    }
    if Decode(s) == v {
      assert forall k: nat :: k < width ==> b[off + k] == s[k];
    }
  }

  /** Where field `i` starts. */
  function Start(widths: seq<nat>, i: nat): nat
    requires i <= |widths|
  {
    if i == 0 then 0 else Start(widths, i - 1) + widths[i - 1]
  }

  lemma {:induction false} StartOff(widths: seq<nat>, i: nat)
    requires 0 < i <= |widths|
    ensures Start(widths, i) == widths[0] + Start(widths[1..], i - 1)
  {
    if i > 1 {
      StartOff(widths, i - 1);
    }
  }

  lemma {:induction false} FieldInside(widths: seq<nat>, i: nat)
    requires i < |widths|
    ensures Start(widths, i) + widths[i] <= DiskFormat.Total(widths)
  {
    if i > 0 {
      FieldInside(widths[1..], i - 1);
      StartOff(widths, i);
    }
  }

  lemma {:induction false} GetAt(b: seq<Byte>, widths: seq<nat>, i: nat)
    requires DiskFormat.Total(widths) <= |b| && i < |widths|
    ensures Start(widths, i) + widths[i] <= |b|
    ensures GetAll(b, widths)[i] == Decode(b[Start(widths, i)..Start(widths, i) + widths[i]])
  {
    hide Decode;
    FieldInside(widths, i);
    if i > 0 {
      var w, s := widths[0], Start(widths[1..], i - 1);
      GetAt(b[w..], widths[1..], i - 1);
      StartOff(widths, i);
      assert b[w..][s..s + widths[i]] == b[w + s..w + s + widths[i]];
    }
  }

  // ---- superblock ----------------------------------------------------------

  /** "CIBOSFS1". */
  const MAGIC_BYTES: seq<Byte> := [0x43, 0x49, 0x42, 0x4F, 0x53, 0x46, 0x53, 0x31]

  predicate IsCibosFs(b: Block) {
    b[..8] == MAGIC_BYTES && b[8..12] == [1, 0, 0, 0]
  }

  predicate SbBytes(b: Block, sb: Superblock) {
    && IsCibosFs(b)
    && Holds(b, 12, 4, sb.inodeCount) && Holds(b, 16, 8, sb.totalBlocks) && Holds(b, 24, 8, sb.bitmapStart)
    && Holds(b, 32, 8, sb.bitmapBlocks) && Holds(b, 40, 8, sb.inodeStart) && Holds(b, 48, 8, sb.dataStart)
    && Holds(b, 56, 8, sb.dataBlocks)
  }

  lemma SbStarts()
    ensures Start(SB_WIDTHS, 0) == 0 && Start(SB_WIDTHS, 1) == 8 && Start(SB_WIDTHS, 2) == 12
    ensures Start(SB_WIDTHS, 3) == 16
    ensures Start(SB_WIDTHS, 4) == 24 && Start(SB_WIDTHS, 5) == 32 && Start(SB_WIDTHS, 6) == 40
    ensures Start(SB_WIDTHS, 7) == 48 && Start(SB_WIDTHS, 8) == 56
  {
    assert Start(SB_WIDTHS, 1) == Start(SB_WIDTHS, 0) + 8;
    assert Start(SB_WIDTHS, 2) == 12 && Start(SB_WIDTHS, 3) == 16;
    assert Start(SB_WIDTHS, 4) == 24 && Start(SB_WIDTHS, 5) == 32;
    assert Start(SB_WIDTHS, 6) == 40 && Start(SB_WIDTHS, 7) == 48;
  }

  lemma Identity(b: Block)
    ensures Decode(b[..8]) == FS_MAGIC <==> b[..8] == MAGIC_BYTES
    ensures Decode(b[8..12]) == FS_VERSION <==> b[8..12] == [1, 0, 0, 0]
  {
    hide Decode, Encode;
    EncodeDecode(b[..8]);
    EncodeDecode(b[8..12]);
    MagicEncodes();
    PowersOf256();
    DecodeEncode(FS_MAGIC, 8);
    DecodeEncode(FS_VERSION, 4);
  }

  lemma MagicEncodes()
    ensures Encode(FS_MAGIC, 8) == MAGIC_BYTES && Encode(FS_VERSION, 4) == [1, 0, 0, 0]
  {
    hide Encode;
    EncodeStep(0x31, 1);
    EncodeStep(0x3153, 2);
    EncodeStep(0x31_5346, 3);
    EncodeStep(0x3153_4653, 4);
    EncodeStep(0x31_5346_534F, 5);
    EncodeStep(0x3153_4653_4F42, 6);
    EncodeStep(0x31_5346_534F_4249, 7);
    EncodeStep(FS_MAGIC, 8);
    EncodeStep(0, 1);
    EncodeStep(0, 2);
    EncodeStep(0, 3);
    EncodeStep(1, 4);
  }

  lemma EncodeStep(v: nat, n: nat)
    requires n > 0
    ensures Encode(v, n) == [v % 256] + Encode(v / 256, n - 1) && Encode(v, 0) == []
  {
  }

  /** The fields of a block, each decoded where it stands. */
  lemma SbDecodes(b: Block)
    ensures DiskFormat.Total(SB_WIDTHS) == 64
    ensures GetAll(b, SB_WIDTHS) ==
            [Decode(b[..8]), Decode(b[8..12]), Decode(b[12..16]), Decode(b[16..24]), Decode(b[24..32]),
             Decode(b[32..40]), Decode(b[40..48]), Decode(b[48..56]), Decode(b[56..64])]
  {
    hide Decode, GetAll, DiskFormat.Total, Start;
    SbTotal();
    SbStarts();
    GetAt(b, SB_WIDTHS, 0);
    GetAt(b, SB_WIDTHS, 1);
    GetAt(b, SB_WIDTHS, 2);
    GetAt(b, SB_WIDTHS, 3);
    GetAt(b, SB_WIDTHS, 4);
    GetAt(b, SB_WIDTHS, 5);
    GetAt(b, SB_WIDTHS, 6);
    GetAt(b, SB_WIDTHS, 7);
    GetAt(b, SB_WIDTHS, 8);
  }

  /** A block mounts exactly when it starts with "CIBOSFS1" and version 1, and then as the
      superblock whose fields it holds. */
  lemma SbReads(b: Block, sb: Superblock)
    requires SbFits(sb)
    ensures if IsCibosFs(b) then ReadSb(b).Ok? else ReadSb(b) == Err(BadSuperblock)
    ensures ReadSb(b) == Ok(sb) <==> SbBytes(b, sb)
  {
    hide Decode, GetAll, Holds;
    SbDecodes(b);
    Identity(b);
    PowersOf256();
    DecodesTo(b, 12, 4, sb.inodeCount);
    DecodesTo(b, 16, 8, sb.totalBlocks);
    DecodesTo(b, 24, 8, sb.bitmapStart);
    DecodesTo(b, 32, 8, sb.bitmapBlocks);
    DecodesTo(b, 40, 8, sb.inodeStart);
    DecodesTo(b, 48, 8, sb.dataStart);
    DecodesTo(b, 56, 8, sb.dataBlocks);
  }

  /** A block is a written superblock exactly when it holds the fields and zeros after them. */
  lemma SbLayout(b: Block, sb: Superblock)
    requires SbFits(sb)
    ensures b == SbBlock(sb) <==> SbBytes(b, sb) && forall k: nat :: 64 <= k < BLOCK_SIZE ==> b[k] == 0
  {
    hide PutAll, SbBytes, ReadSb;
    var w := SbBlock(sb);
    SbRoundTrip(sb);
    SbReads(w, sb);
    SbLength(sb);
    if SbBytes(b, sb) && forall k: nat :: 64 <= k < BLOCK_SIZE ==> b[k] == 0 {
      SameSb(b, w, sb);
      assert b == b[..64] + b[64..] && w == w[..64] + w[64..];
    }
  }

  lemma SameSb(a: Block, b: Block, sb: Superblock)
    requires SbBytes(a, sb) && SbBytes(b, sb)
    ensures a[..64] == b[..64]
  {
    hide SbFits;
    SameField(a, b, 12, 4, sb.inodeCount);
    SameField(a, b, 16, 8, sb.totalBlocks);
    SameField(a, b, 24, 8, sb.bitmapStart);
    SameField(a, b, 32, 8, sb.bitmapBlocks);
    SameField(a, b, 40, 8, sb.inodeStart);
    SameField(a, b, 48, 8, sb.dataStart);
    SameField(a, b, 56, 8, sb.dataBlocks);
    Joined(a);
    Joined(b);
  }

  lemma Joined(b: Block)
    ensures b[..64] == b[..8] + b[8..12] + b[12..16] + b[16..24] + b[24..32] + b[32..40] + b[40..48] + b[48..56]
                       + b[56..64]
  {
  }

  lemma SameField(a: seq<Byte>, b: seq<Byte>, off: nat, width: nat, v: nat)
    requires Holds(a, off, width, v) && Holds(b, off, width, v)
    ensures a[off..off + width] == b[off..off + width]
  {
    var s, t := a[off..off + width], b[off..off + width];
    assert forall k: nat :: k < width ==> s[k] == Digit(v, k) == t[k];
  }

  // ---- inodes --------------------------------------------------------------

  /** Kind, reserved zero, size and six block addresses. */
  predicate InodeBytes(b: seq<Byte>, n: Inode) {
    && Holds(b, 0, 4, n.kind) && Holds(b, 8, 8, n.size)
    && Holds(b, 16, 8, n.direct[0]) && Holds(b, 24, 8, n.direct[1]) && Holds(b, 32, 8, n.direct[2])
    && Holds(b, 40, 8, n.direct[3]) && Holds(b, 48, 8, n.direct[4]) && Holds(b, 56, 8, n.direct[5])
  }

  lemma InodeStarts()
    ensures Start(INODE_WIDTHS, 0) == 0 && Start(INODE_WIDTHS, 1) == 4 && Start(INODE_WIDTHS, 2) == 8
    ensures Start(INODE_WIDTHS, 3) == 16
    ensures Start(INODE_WIDTHS, 4) == 24 && Start(INODE_WIDTHS, 5) == 32 && Start(INODE_WIDTHS, 6) == 40
    ensures Start(INODE_WIDTHS, 7) == 48 && Start(INODE_WIDTHS, 8) == 56
  {
    assert Start(INODE_WIDTHS, 1) == Start(INODE_WIDTHS, 0) + 4;
    assert Start(INODE_WIDTHS, 2) == 8 && Start(INODE_WIDTHS, 3) == 16;
    assert Start(INODE_WIDTHS, 4) == 24 && Start(INODE_WIDTHS, 5) == 32;
    assert Start(INODE_WIDTHS, 6) == 40 && Start(INODE_WIDTHS, 7) == 48;
  }

  lemma InodeDecodes(b: seq<Byte>)
    requires |b| == INODE_SIZE
    ensures DecodeInode(b) ==
            Inode(Decode(b[..4]), Decode(b[8..16]), [Decode(b[16..24]), Decode(b[24..32]), Decode(b[32..40]),
                                                    Decode(b[40..48]), Decode(b[48..56]), Decode(b[56..64])])
  {
    hide Decode, GetAll, DiskFormat.Total, Start;
    InodeTotal();
    InodeStarts();
    GetAt(b, INODE_WIDTHS, 0);
    GetAt(b, INODE_WIDTHS, 2);
    GetAt(b, INODE_WIDTHS, 3);
    GetAt(b, INODE_WIDTHS, 4);
    GetAt(b, INODE_WIDTHS, 5);
    GetAt(b, INODE_WIDTHS, 6);
    GetAt(b, INODE_WIDTHS, 7);
    GetAt(b, INODE_WIDTHS, 8);
  }

  /** Sixty-four bytes read as the inode whose fields they hold. */
  lemma InodeReads(b: seq<Byte>, n: Inode)
    requires |b| == INODE_SIZE && InodeFits(n)
    ensures DecodeInode(b) == n <==> InodeBytes(b, n)
  {
    hide Decode, DecodeInode, Holds;
    InodeDecodes(b);
    PowersOf256();
    DecodesTo(b, 0, 4, n.kind);
    DecodesTo(b, 8, 8, n.size);
    forall i: nat | i < 6
      ensures Decode(b[16 + 8 * i..16 + 8 * i + 8]) == n.direct[i] <==> Holds(b, 16 + 8 * i, 8, n.direct[i])
    {
      DecodesTo(b, 16 + 8 * i, 8, n.direct[i]);
    }
    var d := DecodeInode(b).direct;
    assert d == n.direct <==> forall i: nat :: i < 6 ==> d[i] == n.direct[i];
  }

  /** Sixty-four bytes are a written inode exactly when they hold its fields and the reserved
      ones are zero. */
  lemma InodeLayout(b: seq<Byte>, n: Inode)
    requires |b| == INODE_SIZE && InodeFits(n)
    ensures b == EncodeInode(n) <==> InodeBytes(b, n) && Holds(b, 4, 4, 0)
  {
    hide EncodeInode, DecodeInode, InodeBytes, Holds;
    var w := EncodeInode(n);
    InodeRoundTrip(n);
    InodeReads(w, n);
    Reserved(n);
    if InodeBytes(b, n) && Holds(b, 4, 4, 0) {
      SameInode(b, w, n);
    }
  }

  lemma Reserved(n: Inode)
    requires InodeFits(n)
    ensures |EncodeInode(n)| == INODE_SIZE && Holds(EncodeInode(n), 4, 4, 0)
  {
    hide EncodeInode, Decode, GetAll, DiskFormat.Total, Start, Holds;
    var w := EncodeInode(n);
    InodeRead(n);
    InodeStarts();
    GetAt(w, INODE_WIDTHS, 1);
    PowersOf256();
    DecodesTo(w, 4, 4, 0);
  }

  lemma SameInode(a: seq<Byte>, b: seq<Byte>, n: Inode)
    requires |a| == |b| == INODE_SIZE && InodeBytes(a, n) && InodeBytes(b, n)
    requires Holds(a, 4, 4, 0) && Holds(b, 4, 4, 0)
    ensures a == b
  {
    hide Holds;
    SameField(a, b, 0, 4, n.kind);
    SameField(a, b, 4, 4, 0);
    SameField(a, b, 8, 8, n.size);
    SameField(a, b, 16, 8, n.direct[0]);
    SameField(a, b, 24, 8, n.direct[1]);
    SameField(a, b, 32, 8, n.direct[2]);
    SameField(a, b, 40, 8, n.direct[3]);
    SameField(a, b, 48, 8, n.direct[4]);
    SameField(a, b, 56, 8, n.direct[5]);
    JoinedInode(a);
    JoinedInode(b);
  }

  lemma JoinedInode(b: seq<Byte>)
    requires |b| == INODE_SIZE
    ensures b == b[0..4] + b[4..8] + b[8..16] + b[16..24] + b[24..32] + b[32..40] + b[40..48] + b[48..56] + b[56..64]
  {
  }

  // ---- the whole device ----------------------------------------------------

  /** Byte `pos` of the device. */
  function DeviceByte(dev: Device, pos: nat): Byte
    requires pos < 512 * |dev|
  {
    dev[pos / 512][pos % 512]
  }

  predicate HoldsAt(dev: Device, pos: nat, width: nat, v: nat) {
    pos + width <= 512 * |dev|
    && forall k: nat {:trigger Digit(v, k)} :: k < width ==> DeviceByte(dev, pos + k) == Digit(v, k)
  }

  /** A field of an inode slot, found on the device. */
  lemma FieldOnDevice(dev: Device, blk: nat, lo: nat, off: nat, width: nat, v: nat)
    requires blk < |dev| && off + width <= INODE_SIZE && lo + INODE_SIZE <= BLOCK_SIZE
    requires Holds(dev[blk][lo..lo + INODE_SIZE], off, width, v)
    ensures HoldsAt(dev, 512 * blk + lo + off, width, v)
  {
    hide Digit;
    var b := dev[blk][lo..lo + INODE_SIZE];
    forall k: nat | k < width
      ensures DeviceByte(dev, 512 * blk + lo + off + k) == Digit(v, k)
    {
      var at := lo + off + k;
      assert (512 * blk + at) / 512 == blk && (512 * blk + at) % 512 == at;
      assert b[off + k] == dev[blk][at];
    }
  }

  /** The inode's fields at byte `pos` of the device. */
  predicate InodeFieldsAt(dev: Device, pos: nat, n: Inode) {
    && HoldsAt(dev, pos, 4, n.kind) && HoldsAt(dev, pos + 8, 8, n.size)
    && HoldsAt(dev, pos + 16, 8, n.direct[0]) && HoldsAt(dev, pos + 24, 8, n.direct[1])
    && HoldsAt(dev, pos + 32, 8, n.direct[2]) && HoldsAt(dev, pos + 40, 8, n.direct[3])
    && HoldsAt(dev, pos + 48, 8, n.direct[4]) && HoldsAt(dev, pos + 56, 8, n.direct[5])
  }

  lemma SlotOnDevice(dev: Device, blk: nat, lo: nat, n: Inode)
    requires blk < |dev| && lo + INODE_SIZE <= BLOCK_SIZE && InodeBytes(dev[blk][lo..lo + INODE_SIZE], n)
    ensures InodeFieldsAt(dev, 512 * blk + lo, n)
  {
    hide Holds, HoldsAt;
    FieldOnDevice(dev, blk, lo, 0, 4, n.kind);
    FieldOnDevice(dev, blk, lo, 8, 8, n.size);
    FieldOnDevice(dev, blk, lo, 16, 8, n.direct[0]);
    FieldOnDevice(dev, blk, lo, 24, 8, n.direct[1]);
    FieldOnDevice(dev, blk, lo, 32, 8, n.direct[2]);
    FieldOnDevice(dev, blk, lo, 40, 8, n.direct[3]);
    FieldOnDevice(dev, blk, lo, 48, 8, n.direct[4]);
    FieldOnDevice(dev, blk, lo, 56, 8, n.direct[5]);
  }

  lemma DecodedFits(b: seq<Byte>)
    requires |b| == INODE_SIZE
    ensures InodeFits(DecodeInode(b))
  {
    hide Decode, DecodeInode;
    InodeDecodes(b);
    PowersOf256();
  }

  /** Inode `i` of the volume is the 64 bytes at `64 * i` of the inode table, which starts after
      superblock and bitmap. */
  lemma InodeOnDevice(dev: Device, sb: Superblock, i: nat)
    requires LayoutOk(dev, sb) && i < sb.inodeCount
    ensures InodeFieldsAt(dev, 512 * (1 + sb.bitmapBlocks) + 64 * i, Abs(dev, sb).inodes[i])
  {
    hide SbFits, DecodeInode, InodeBytes, InodeFieldsAt;
    var blk, lo := InodeBlock(sb, i), InodeOffset(i);
    var b := dev[blk][lo..lo + INODE_SIZE];
    DecodedFits(b);
    InodeReads(b, DecodeInode(b));
    SlotOnDevice(dev, blk, lo, DecodeInode(b));
    assert 512 * blk + lo == 512 * (1 + sb.bitmapBlocks) + 64 * i;
  }

  lemma DeviceField(dev: Device, blk: nat, lo: nat, v: nat)
    requires blk < |dev| && lo + INODE_SIZE <= BLOCK_SIZE && v < U32
    ensures Decode(dev[blk][lo..lo + INODE_SIZE][0..4]) == v <==> HoldsAt(dev, 512 * blk + lo, 4, v)
  {
    hide Decode, Digit;
    var b := dev[blk][lo..lo + INODE_SIZE];
    PowersOf256();
    DecodesTo(b, 0, 4, v);
    if HoldsAt(dev, 512 * blk + lo, 4, v) {
      forall k: nat | k < 4
        ensures b[0 + k] == Digit(v, k)
      {
        assert (512 * blk + (lo + k)) / 512 == blk && (512 * blk + (lo + k)) % 512 == lo + k;
      }
    }
    if Holds(b, 0, 4, v) {
      FieldOnDevice(dev, blk, lo, 0, 4, v);
    }
  }

  /** Directories are the inodes of kind 2 and files those of kind 1. */
  lemma KindOnDevice(dev: Device, sb: Superblock, i: nat)
    requires LayoutOk(dev, sb) && i < sb.inodeCount
    ensures var pos := 512 * (1 + sb.bitmapBlocks) + 64 * i;
            && (IsDir(Abs(dev, sb), i) <==> HoldsAt(dev, pos, 4, 2))
            && (IsFile(Abs(dev, sb), i) <==> HoldsAt(dev, pos, 4, 1))
  {
    hide SbFits, Decode, DecodeInode, HoldsAt;
    var blk, lo := InodeBlock(sb, i), InodeOffset(i);
    InodeDecodes(dev[blk][lo..lo + INODE_SIZE]);
    DeviceField(dev, blk, lo, 1);
    DeviceField(dev, blk, lo, 2);
    assert 512 * blk + lo == 512 * (1 + sb.bitmapBlocks) + 64 * i;
  }

  lemma {:induction false} BitIs(b: nat, k: nat)
    ensures TestBit(b, k) <==> b / Pow2(k) % 2 == 1
  {
    if k > 0 {
      BitIs(b / 2, k - 1);
      DivDiv(b, 2, Pow2(k - 1), Pow2(k));
    }
  }

  /** Data block `i` is marked by bit `i % 8`, counted from the lowest, of byte `i / 8` of the
      bitmap, which starts after the superblock. */
  lemma BitOnDevice(dev: Device, sb: Superblock, i: nat)
    requires LayoutOk(dev, sb) && i < sb.dataBlocks
    ensures 512 + i / 8 < 512 * |dev|
    ensures Abs(dev, sb).bits[i] <==> DeviceByte(dev, 512 + i / 8) / Pow2(i % 8) % 2 == 1
  {
    hide SbFits, DecodeInode, TestBit, Pow2;
    var pos := 512 + i / 8;
    assert pos / 512 == BitBlock(sb, i) && pos % 512 == BitOffset(i);
    assert BitBlock(sb, i) < |dev|;
    BitIs(dev[BitBlock(sb, i)][BitOffset(i)], i % 8);
  }

  lemma {:induction false} ByteOfContents(v: Vol, n: Inode, m: nat, k: nat)
    requires m <= DIRECT_BLOCKS && m <= n.BlocksUsed() && k < n.size && k < m * BLOCK_SIZE
    ensures k < |ContentsUpTo(v, n, m)| && k / 512 < m
    ensures ContentsUpTo(v, n, m)[k] == ReadBlock(v, n.direct[k / 512])[k % 512]
  {
    hide ReadBlock;
    ContentsLength(v, n, m);
    ContentsLength(v, n, m - 1);
    if k < (m - 1) * BLOCK_SIZE {
      ByteOfContents(v, n, m - 1, k);
    } else {
      assert k / 512 == m - 1 && k % 512 == k - (m - 1) * 512;
    }
  }

  /** Byte `k` of a file or directory is byte `k % 512` of the block whose address the inode holds
      in place `k / 512`. */
  lemma ByteOnDevice(dev: Device, sb: Superblock, n: Inode, k: nat)
    requires LayoutOk(dev, sb) && n.size <= MAX_FILE_SIZE && k < n.size
    requires k / 512 < DIRECT_BLOCKS && sb.dataStart <= n.direct[k / 512] < |dev|
    ensures |Contents(Abs(dev, sb), n)| == n.size
    ensures Contents(Abs(dev, sb), n)[k] == DeviceByte(dev, 512 * n.direct[k / 512] + k % 512)
  {
    hide SbFits, DecodeInode, TestBit;
    var v := Abs(dev, sb);
    ContentsLength(v, n, n.BlocksUsed());
    ByteOfContents(v, n, n.BlocksUsed(), k);
    var pos := 512 * n.direct[k / 512] + k % 512;
    assert pos / 512 == n.direct[k / 512] && pos % 512 == k % 512;
  }

  // ---- directory entries ---------------------------------------------------

  /** Inode number, length and bytes of the name. */
  predicate EntBytes(b: seq<Byte>, off: nat, e: DirEnt) {
    && off + 32 <= |b| && |e.name| <= 23
    && Holds(b, off, 4, e.ino) && b[off + 4] == |e.name| && b[off + 5..off + 5 + |e.name|] == e.name
  }

  /** Slot by slot: an entry is there exactly when its fields are and the inode is not 0. */
  lemma EntReads(b: seq<Byte>, off: nat, e: DirEnt)
    requires off + DIR_ENTRY_SIZE <= |b| && e.ino < INODE_LIMIT
    ensures DecodeEnt(b, off) == [e] <==> e.ino != 0 && EntBytes(b, off, e)
    ensures DecodeEnt(b, off) == [] <==> Holds(b, off, 4, 0) || b[off + 4] > 23
  {
    hide Decode, Holds;
    PowersOf256();
    DecodesTo(b, off, 4, e.ino);
    DecodesTo(b, off, 4, 0);
  }

  /** Thirty-two bytes are a written entry exactly when they hold its fields and zeros after the name. */
  lemma EntLayout(b: seq<Byte>, e: DirEnt)
    requires |b| == DIR_ENTRY_SIZE && EntOk(e)
    ensures b == EncodeEnt(e) <==> EntBytes(b, 0, e) && forall k: nat :: 5 + |e.name| <= k < 32 ==> b[k] == 0
  {
    hide EncodeEnt, DecodeEnt, Holds;
    var w := EncodeEnt(e);
    assert w[0..32] == w;
    DecodeEncodeEnt(e, w, 0);
    EntReads(w, 0, e);
    EntTail(e);
    if EntBytes(b, 0, e) && forall k: nat :: 5 + |e.name| <= k < 32 ==> b[k] == 0 {
      SameField(b, w, 0, 4, e.ino);
      var n := 5 + |e.name|;
      assert b[n..] == w[n..];
      EntPieces(b, n);
      EntPieces(w, n);
    }
  }

  lemma EntTail(e: DirEnt)
    requires EntOk(e)
    ensures forall k: nat :: 5 + |e.name| <= k < 32 ==> EncodeEnt(e)[k] == 0
  {
    hide Encode;
  }

  lemma EntPieces(b: seq<Byte>, n: nat)
    requires |b| == DIR_ENTRY_SIZE && 5 <= n <= DIR_ENTRY_SIZE
    ensures b == b[0..4] + [b[4]] + b[5..n] + b[n..]
  {
  }

  /** Entry `i` of a written directory stands at byte `32 * i`. */
  lemma {:induction false} EntryStands(es: seq<DirEnt>, i: nat)
    requires NamesFit(es) && i < |es|
    ensures EncodeDir(es)[32 * i..32 * i + 32] == EncodeEnt(es[i])
  {
    hide EncodeEnt;
    var n := |es| - 1;
    if i < n {
      EntryStands(es[..n], i);
      assert EncodeDir(es)[32 * i..32 * i + 32] == EncodeDir(es[..n])[32 * i..32 * i + 32];
    }
  }
}
