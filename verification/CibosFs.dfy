/** The mounted filesystem over a block device (cibos-kernel/src/fs.rs): every method
    works on 512-byte blocks and is proved to do to the volume they represent what the
    operations of `FileSystem` do. */
module CibosFs {
  import opened LittleEndian
  import opened Volume
  import opened Directories
  import opened DiskFormat
  import FileSystem
  import FsRuns
  import FsListing

  /** An inode that fits its on-disk fields and whose blocks in use lie in the data region. */
  ghost predicate Usable(v: Vol, n: Inode) {
    InodeFits(n) && n.size <= MAX_FILE_SIZE && forall s: nat :: s < n.BlocksUsed() ==> InData(v, n.direct[s])
  }

  ghost predicate PointersOk(v: Vol) {
    forall i: nat :: i < |v.inodes| ==> Usable(v, v.inodes[i])
  }

  /** The outcome of an operation, without the value it returns. */
  function Status<T>(r: Result<T>): Result<()> {
    if r.Ok? then Ok(()) else Err(r.error)
  }

  function ZeroBlock(): Block {
    Zeros(BLOCK_SIZE)
  }

  /** Bitmap blocks that cover `data` blocks. */
  function Needed(data: nat): nat {
    if data == 0 then 1 else (data + BITS_PER_BLOCK - 1) / BITS_PER_BLOCK
  }

  predicate ZeroFrom(dev: Device, lo: nat, hi: nat) {
    hi <= |dev| && forall b: nat :: lo <= b < hi ==> dev[b] == ZeroBlock()
  }

  /** An empty root directory, no other inode in use and no block allocated. */
  ghost predicate Fresh(v: Vol) {
    && |v.inodes| > 0 && v.inodes[ROOT] == Inode(KIND_DIR, 0, NO_BLOCKS)
    && (forall i: nat :: 0 < i < |v.inodes| ==> v.inodes[i] == Inode(KIND_FREE, 0, NO_BLOCKS))
    && (forall i: nat :: i < |v.bits| ==> !v.bits[i])
  }

  /** A fresh volume satisfies every invariant of the filesystem, and so does the volume
      after any run from it. */
  lemma FreshIsWellFormed(v: Vol, ops: seq<FsRuns.Op>)
    requires Fresh(v) && |v.bits| == |v.data| && v.dataStart > 0 && |v.inodes| <= INODE_LIMIT
    ensures FileSystem.GraphOf(v) == map[ROOT := []]
    ensures FileSystem.Wf(v) && Exact(v) && FileSystem.Wf(FsRuns.Run(v, ops))
    ensures Exact(FsRuns.Run(v, ops)) <==> !FsRuns.RanDry(v, ops)
  {
    hide FsRuns.Run, FsRuns.RanDry;
    var g: Graph := FileSystem.GraphOf(v);
    assert FileSystem.EntriesOf(v, ROOT) == [];
    assert g == map[ROOT := []];
    FsRuns.RunKeeps(v, ops);
  }

  /** Grow the bitmap until it covers the data blocks left beside it. There is no room
      exactly when one bitmap block leaves no data block; otherwise the bitmap has just the
      blocks that cover what one bitmap block would leave. */
  method SizeBitmap(total: nat, inodeBlocks: nat) returns (r: Result<nat>)
    ensures r.Ok? <==> total > 2 + inodeBlocks
    ensures r.Err? ==> r.error == NoSpace
    ensures r.Ok? ==> r.value >= 1 && total > 1 + r.value + inodeBlocks
                      && total - (1 + r.value + inodeBlocks) <= BITS_PER_BLOCK * r.value
    ensures r.Ok? ==> 4096 * (r.value - 1) < total - (2 + inodeBlocks) <= 4096 * r.value
  {
    var bitmapBlocks := 1;
    while true
      invariant bitmapBlocks >= 1
      invariant bitmapBlocks == 1 || (total > 2 + inodeBlocks && bitmapBlocks == Needed(total - (2 + inodeBlocks)))
      decreases total - bitmapBlocks
    {
      var overhead := 1 + bitmapBlocks + inodeBlocks;
      if overhead >= total {
        return Err(NoSpace);
      }
      var needed := Needed(total - overhead);
      if needed <= bitmapBlocks {
        return Ok(bitmapBlocks);
      }
      bitmapBlocks := needed;
    }
  }

  method ZeroBlocks(dev: Device, lo: nat, hi: nat) returns (r: Device)
    requires lo <= hi <= |dev|
    ensures |r| == |dev| && ZeroFrom(r, lo, hi)
    ensures forall b: nat :: b < |dev| && !(lo <= b < hi) ==> r[b] == dev[b]
  {
    r := dev;
    var b := lo;
    while b < hi
      invariant lo <= b <= hi && |r| == |dev| && ZeroFrom(r, lo, b)
      invariant forall k: nat :: k < |dev| && !(lo <= k < b) ==> r[k] == dev[k]
    {
      r := r[b := ZeroBlock()];
      b := b + 1;
    }
  }

  class Fs {
    var dev: Device
    const sb: Superblock

    ghost predicate Valid()
      reads this
    {
      LayoutOk(dev, sb) && dev[0] == SbBlock(sb) && PointersOk(Abs(dev, sb))
    }

    /** The volume on the device. */
    ghost function State(): Vol
      requires Valid()
      reads this
    {
      Abs(dev, sb)
    }

    constructor (dev: Device, sb: Superblock)
      ensures this.dev == dev && this.sb == sb
    {
      this.dev, this.sb := dev, sb;
    }

    // ---- format and mount --------------------------------------------------

    /** Lay out and mount a fresh volume. It succeeds exactly when there is at least one
        inode and a data block is left after superblock, inode table and one bitmap block;
        the new volume is an empty root directory with every block free. */
    static method Format(dev: Device, inodeCount: nat) returns (r: Result<Fs>)
      requires |dev| < WORD_LIMIT && inodeCount < U32
      ensures r.Ok? <==> inodeCount > 0 && |dev| > 2 + InodeBlocks(inodeCount)
      ensures r.Err? ==> r.error == if |dev| > 2 + InodeBlocks(inodeCount) then NotFound else NoSpace
      ensures r.Ok? ==>
                fresh(r.value) && r.value.Valid() && Fresh(r.value.State()) && r.value.sb.inodeCount == inodeCount
      ensures r.Ok? ==>
                var sb := r.value.sb; var inodeBlocks := sb.dataStart - sb.inodeStart;
                && |r.value.dev| == |dev| == sb.totalBlocks == sb.dataStart + sb.dataBlocks
                && sb.bitmapStart == 1 && sb.inodeStart == 1 + sb.bitmapBlocks
                && 8 * (inodeBlocks - 1) < inodeCount <= 8 * inodeBlocks
                && 4096 * (sb.bitmapBlocks - 1) < |dev| - (2 + inodeBlocks) <= 4096 * sb.bitmapBlocks
    {
      hide DecodeInode, EncodeInode, TestBit, SbFields, PutAll;
      var total, inodeBlocks := |dev|, InodeBlocks(inodeCount);
      var bitmapBlocks :- SizeBitmap(total, inodeBlocks);
      var sb := Superblock(total, 1, bitmapBlocks, 1 + bitmapBlocks, inodeCount, 1 + bitmapBlocks + inodeBlocks,
                           total - (1 + bitmapBlocks + inodeBlocks));
      var disk: Device := ZeroBlocks(dev, 1, 1 + bitmapBlocks);
      disk := ZeroBlocks(disk, 1 + bitmapBlocks, 1 + bitmapBlocks + inodeBlocks);
      disk := disk[0 := SbBlock(sb)];
      if inodeCount == 0 {
        return Err(NotFound);
      }
      BlankVolume(disk, sb);
      var fs := new Fs(disk, sb);
      var _ :- fs.WriteInode(ROOT, Inode(KIND_DIR, 0, NO_BLOCKS));
      return Ok(fs);
    }

    /** Mounting reads the superblock and nothing else: a device left by a mounted
        filesystem mounts with the same layout, so as the same volume. */
    static method Mount(dev: Device) returns (r: Result<Fs>)
      ensures |dev| == 0 ==> r == Err(OutOfRange)
      ensures |dev| > 0 && ReadSb(dev[0]).Err? ==> r == Err(BadSuperblock)
      ensures r.Ok? ==> fresh(r.value) && r.value.dev == dev
      ensures forall sb: Superblock {:trigger LayoutOk(dev, sb)} ::
                LayoutOk(dev, sb) && dev[0] == SbBlock(sb) && PointersOk(Abs(dev, sb)) ==>
                  r.Ok? && r.value.Valid() && r.value.State() == Abs(dev, sb)
    {
      hide SbBlock, PointersOk, Abs;
      if 1 > |dev| {
        return Err(OutOfRange);
      }
      forall sb: Superblock | LayoutOk(dev, sb) && dev[0] == SbBlock(sb)
        ensures ReadSb(dev[0]) == Ok(sb)
      {
        SbRoundTrip(sb);
      }
      var sb :- ReadSb(dev[0]);
      var fs := new Fs(dev, sb);
      return Ok(fs);
    }

    // ---- blocks ------------------------------------------------------------

    /** One-block read, refused beyond the end of the device. */
    method ReadBlock(lba: nat) returns (r: Result<Block>)
      ensures r == if lba < |dev| then Ok(dev[lba]) else Err(OutOfRange)
    {
      if lba + 1 > |dev| {
        return Err(OutOfRange);
      }
      return Ok(dev[lba]);
    }

    method WriteBlock(lba: nat, b: Block) returns (r: Result<()>)
      modifies this`dev
      ensures r == if lba < |old(dev)| then Ok(()) else Err(OutOfRange)
      ensures dev == if lba < |old(dev)| then old(dev)[lba := b] else old(dev)
    {
      if lba + 1 > |dev| {
        return Err(OutOfRange);
      }
      dev := dev[lba := b];
      return Ok(());
    }

    // ---- inode table -------------------------------------------------------

    method ReadInode(ino: nat) returns (r: Result<Inode>)
      requires Valid()
      ensures r == FileSystem.ReadInode(State(), ino)
      ensures r.Ok? ==> Usable(State(), r.value)
    {
      hide DecodeInode, SbBlock, BitAt, Usable;
      if ino >= sb.inodeCount {
        return Err(NotFound);
      }
      var blk, off := sb.inodeStart + ino / INODES_PER_BLOCK, ino % INODES_PER_BLOCK * INODE_SIZE;
      var buf :- ReadBlock(blk);
      r := Ok(DecodeInode(buf[off..off + INODE_SIZE]));
      assert r.value == State().inodes[ino];
    }

    method WriteInode(ino: nat, n: Inode) returns (r: Result<()>)
      requires Valid() && Usable(State(), n)
      modifies this`dev
      ensures Valid() && State() == SetInode(old(State()), ino, n)
      ensures r == if ino < |old(State()).inodes| then Ok(()) else Err(NotFound)
    {
      hide DecodeInode, EncodeInode, SbBlock, BitAt;
      if ino >= sb.inodeCount {
        return Err(NotFound);
      }
      var blk, off := sb.inodeStart + ino / INODES_PER_BLOCK, ino % INODES_PER_BLOCK * INODE_SIZE;
      var buf :- ReadBlock(blk);
      InodeRoundTrip(n);
      PutInodeIsSetInode(dev, sb, ino, n);
      r := WriteBlock(blk, Patch(buf, off, EncodeInode(n)));
    }

    method AllocInode() returns (r: Result<nat>)
      requires Valid()
      ensures r == FileSystem.AllocInode(State())
    {
      hide Abs, LayoutOk, SbBlock, PointersOk;
      var ino := 1;
      while ino < sb.inodeCount
        invariant 1 <= ino
        invariant FileSystem.FirstFreeInode(State(), ino) == FileSystem.AllocInode(State())
      {
        var n :- ReadInode(ino);
        if n.kind == KIND_FREE {
          return Ok(ino);
        }
        ino := ino + 1;
      }
      return Err(NoSpace);
    }

    // ---- block bitmap ------------------------------------------------------

    method BitGet(i: nat) returns (r: Result<bool>)
      requires Valid() && i < sb.dataBlocks
      ensures r == Ok(State().bits[i])
    {
      hide SbBlock, PointersOk, TestBit, InodeAt;
      var byte := i / 8;
      var buf :- ReadBlock(sb.bitmapStart + byte / BLOCK_SIZE);
      r := Ok(TestBit(buf[byte % BLOCK_SIZE], i % 8));
    }

    method BitSet(i: nat, on: bool) returns (r: Result<()>)
      requires Valid() && i < sb.dataBlocks
      modifies this`dev
      ensures Valid() && r == Ok(()) && State() == SetBit(old(State()), i, on)
    {
      hide SbBlock, TestBit, PutBit, InodeAt;
      var byte := i / 8;
      var blk, off := sb.bitmapStart + byte / BLOCK_SIZE, byte % BLOCK_SIZE;
      var buf :- ReadBlock(blk);
      PutBitIsByte(buf[off], i % 8, on);
      PutBitIsSetBit(dev, sb, i, on);
      r := WriteBlock(blk, buf[off := PutBit(buf[off], i % 8, on)]);
    }

    method AllocBlock() returns (r: Result<nat>)
      requires Valid()
      modifies this`dev
      ensures Valid() && (State(), r) == Volume.AllocBlock(old(State()))
      ensures r.Ok? ==> InData(State(), r.value)
    {
      hide SbBlock, PointersOk, Abs, LayoutOk;
      var i := 0;
      while i < sb.dataBlocks
        invariant i <= sb.dataBlocks && dev == old(dev)
        invariant FirstClear(State().bits, i) == FirstClear(State().bits, 0)
      {
        var taken :- BitGet(i);
        if !taken {
          var _ :- BitSet(i, true);
          return Ok(sb.dataStart + i);
        }
        i := i + 1;
      }
      return Err(NoSpace);
    }

    method FreeBlock(lba: nat) returns (r: Result<()>)
      requires Valid() && (InData(State(), lba) || lba < sb.dataStart)
      modifies this`dev
      ensures Valid() && State() == Volume.FreeBlock(old(State()), lba)
      ensures r == if lba < sb.dataStart then Err(Corrupt) else Ok(())
    {
      hide SbBlock, PointersOk, Abs, LayoutOk;
      if lba < sb.dataStart {
        return Err(Corrupt);
      }
      r := BitSet(lba - sb.dataStart, false);
    }
  
    // ---- contents ----------------------------------------------------------

    method ReadInodeData(n: Inode) returns (r: Result<seq<Byte>>)
      requires Valid() && Usable(State(), n)
      ensures r == Ok(Contents(State(), n))
    {
      hide SbBlock, PointersOk, SbFits, BitAt, InodeAt;
      var out, remaining := [], n.size;
      var s := 0;
      while s < n.BlocksUsed()
        invariant s <= n.BlocksUsed()
        invariant remaining == n.size - (if s * BLOCK_SIZE < n.size then s * BLOCK_SIZE else n.size)
        invariant out == ContentsUpTo(State(), n, s)
      {
        var buf :- ReadBlock(n.direct[s]);
        var take := if remaining < BLOCK_SIZE then remaining else BLOCK_SIZE;
        assert buf == Volume.ReadBlock(State(), n.direct[s]);
        out := out + buf[..take];
        remaining := remaining - take;
        s := s + 1;
      }
      return Ok(out);
    }

    /** Allocate blocks for slots `lo..hi`. */
    method GrowSlots(direct: Pointers, lo: nat, hi: nat) returns (r: Result<Pointers>)
      requires Valid() && hi <= DIRECT_BLOCKS
      modifies this`dev
      ensures Valid()
      ensures var a := AllocSlots(old(State()), direct, lo, hi);
              State() == a.0.0 && r == if a.1 then Ok(a.0.1) else Err(NoSpace)
      ensures r.Ok? ==> forall s: nat :: s < DIRECT_BLOCKS ==>
                if lo <= s < hi then InData(State(), r.value[s]) else r.value[s] == direct[s]
    {
      hide SbBlock, PointersOk, Abs, LayoutOk, FirstClear;
      var p, i := direct, lo;
      while i < hi
        invariant lo <= i && (i <= hi || i == lo) && Valid()
        invariant AllocSlots(State(), p, i, hi) == AllocSlots(old(State()), direct, lo, hi)
        invariant forall s: nat :: s < DIRECT_BLOCKS ==>
                    if lo <= s < i then InData(State(), p[s]) else p[s] == direct[s]
      {
        var lba :- AllocBlock();
        p := p[i := lba];
        i := i + 1;
      }
      return Ok(p);
    }

    /** Free the blocks of slots `lo..hi`. */
    method ShrinkSlots(direct: Pointers, lo: nat, hi: nat) returns (r: Result<Pointers>)
      requires Valid() && hi <= DIRECT_BLOCKS && forall s: nat :: lo <= s < hi ==> InData(State(), direct[s])
      modifies this`dev
      ensures Valid()
      ensures var f := FreeSlots(old(State()), direct, lo, hi);
              State() == f.0 && r == Ok(f.1)
      ensures forall s: nat :: s < DIRECT_BLOCKS ==> r.value[s] == if lo <= s < hi then 0 else direct[s]
    {
      hide SbBlock, PointersOk, Abs, Volume.FreeBlock;
      var p, i := direct, lo;
      while i < hi
        invariant lo <= i && (i <= hi || i == lo) && Valid()
        invariant FreeSlots(State(), p, i, hi) == FreeSlots(old(State()), direct, lo, hi)
        invariant forall s: nat :: s < DIRECT_BLOCKS ==> p[s] == if lo <= s < i then 0 else direct[s]
      {
        if p[i] != 0 {
          var _ :- FreeBlock(p[i]);
          p := p[i := 0];
        }
        i := i + 1;
      }
      return Ok(p);
    }

    /** Write `d` over the blocks of its slots, zero-padding the last. */
    method WriteChunks(p: Pointers, d: seq<Byte>) returns (r: Result<()>)
      requires Valid() && |d| <= MAX_FILE_SIZE && forall s: nat :: s < BlocksFor(|d|) ==> InData(State(), p[s])
      modifies this`dev
      ensures Valid() && r == Ok(()) && State() == WriteSlots(old(State()), p, d, 0)
    {
      hide SbBlock, BitAt, InodeAt, SbFits, Chunk;
      var i := 0;
      while i < BlocksFor(|d|)
        invariant i <= BlocksFor(|d|) && Valid()
        invariant WriteSlots(State(), p, d, i) == WriteSlots(old(State()), p, d, 0)
      {
        PutDataIsWriteBlock(dev, sb, p[i], Chunk(d, i));
        var _ :- WriteBlock(p[i], Chunk(d, i));
        i := i + 1;
      }
      return Ok(());
    }

    /** Replace the contents of inode `ino`, allocating and freeing blocks as needed;
        returns the inode as written. */
    method WriteInodeData(ino: nat, n: Inode, d: seq<Byte>) returns (r: Result<Inode>)
      requires Valid() && ino < sb.inodeCount && Usable(State(), n)
      modifies this`dev
      ensures Valid() && (State(), r) == WriteData(old(State()), ino, n, d)
    {
      hide SbBlock, PointersOk, Abs, AllocSlots, FreeSlots, WriteSlots;
      if |d| > MAX_FILE_SIZE {
        return Err(TooLarge);
      }
      var p :- GrowSlots(n.direct, n.BlocksUsed(), BlocksFor(|d|));
      p :- ShrinkSlots(p, BlocksFor(|d|), n.BlocksUsed());
      var _ :- WriteChunks(p, d);
      var n' := Inode(n.kind, |d|, p);
      var _ :- WriteInode(ino, n');
      return Ok(n');
    }
  
    // ---- directories -------------------------------------------------------

    method ReadDirEntries(d: nat) returns (r: Result<seq<DirEnt>>)
      requires Valid()
      ensures r == FileSystem.ReadDirEntries(State(), d)
    {
      hide SbBlock, PointersOk, Abs, LayoutOk, Usable, Contents, DecodeEnt;
      var dir :- ReadInode(d);
      if dir.kind != KIND_DIR {
        return Err(WrongKind);
      }
      var data :- ReadInodeData(dir);
      assert DecodeDir(data) == FileSystem.EntriesOf(State(), d);
      var out, k := [], 0;
      while (k + 1) * DIR_ENTRY_SIZE <= |data|
        invariant k * DIR_ENTRY_SIZE <= |data| && out == DecodeUpTo(data, k) && FileSystem.ChildrenExist(State(), out)
      {
        var ent := DecodeEnt(data, k * DIR_ENTRY_SIZE);
        EntriesGrow(data, k + 1, |data| / DIR_ENTRY_SIZE);
        if ent != [] {
          assert ent[0] == DecodeUpTo(data, k + 1)[|out|];
          var _ :- ReadInode(ent[0].ino);
        }
        out := out + ent;
        k := k + 1;
      }
      assert k == |data| / DIR_ENTRY_SIZE;
      return Ok(out);
    }

    method Lookup(d: nat, name: Name) returns (r: Result<nat>)
      requires Valid()
      ensures r == FileSystem.DirLookup(State(), d, name)
    {
      hide SbBlock, PointersOk, Abs, LayoutOk, FileSystem.ReadDirEntries;
      var es :- ReadDirEntries(d);
      var i := 0;
      while i < |es|
        invariant i <= |es| && Find(es[i..], name) == Find(es, name)
      {
        if es[i].name == name {
          return Ok(es[i].ino);
        }
        i := i + 1;
      }
      return Err(NotFound);
    }

    method AddEntry(d: nat, ino: nat, name: Name) returns (r: Result<Inode>)
      requires Valid()
      modifies this`dev
      ensures Valid() && (State(), r) == FileSystem.DirAdd(old(State()), d, ino, name)
    {
      hide SbBlock, PointersOk, Abs, LayoutOk, Usable, WriteData, EncodeDir, DecodeDir, Contents;
      if |name| > NAME_MAX {
        return Err(TooLarge);
      }
      var es :- ReadDirEntries(d);
      var dir :- ReadInode(d);
      r := WriteInodeData(d, dir, EncodeDir(es + [DirEnt(ino, name)]));
    }

    method RemoveEntry(d: nat, name: Name) returns (r: Result<Inode>)
      requires Valid()
      modifies this`dev
      ensures Valid() && (State(), r) == FileSystem.DirRemove(old(State()), d, name)
    {
      hide SbBlock, PointersOk, Abs, LayoutOk, Usable, WriteData, EncodeDir, DecodeDir, Contents;
      var existing :- ReadDirEntries(d);
      var entries := DropNamed(existing, name);
      if |entries| == |existing| {
        return Err(NotFound);
      }
      FileSystem.WithoutOk(existing, name);
      var dir :- ReadInode(d);
      r := WriteInodeData(d, dir, EncodeDir(entries));
    }

    // ---- paths -------------------------------------------------------------

    method Resolve(q: seq<Name>) returns (r: Result<nat>)
      requires Valid()
      ensures r == FileSystem.Resolve(State(), q)
    {
      hide SbBlock, PointersOk, Abs, LayoutOk, FileSystem.DirLookup;
      var ino, i := ROOT, 0;
      while i < |q|
        invariant i <= |q| && FileSystem.Resolve(State(), q[..i]) == Ok(ino)
      {
        assert q[..i + 1][..i] == q[..i];
        StopsAtError(State(), q, i + 1);
        ino :- Lookup(ino, q[i]);
        i := i + 1;
      }
      assert q[..i] == q;
      return Ok(ino);
    }

    /** A fresh inode of `kind` entered into `parent` as `name`. */
    method Create(parent: nat, name: Name, kind: nat) returns (r: Result<nat>)
      requires Valid() && kind <= KIND_DIR
      modifies this`dev
      ensures Valid() && (State(), r) == FileSystem.CreateIn(old(State()), parent, name, kind)
    {
      hide SbBlock, PointersOk, Abs, LayoutOk, FileSystem.DirAdd;
      var ino :- AllocInode();
      FileSystem.FirstFreeSpec(State(), 1);
      var _ :- WriteInode(ino, Inode(kind, 0, NO_BLOCKS));
      var _ :- AddEntry(parent, ino, name);
      return Ok(ino);
    }

    method Mkdir(path: seq<Byte>) returns (r: Result<nat>)
      requires Valid()
      modifies this`dev
      ensures Valid() && (State(), r) == FileSystem.Mkdir(old(State()), FsRuns.Components(path))
    {
      hide SbBlock, PointersOk, Abs, LayoutOk, FileSystem.DirLookup, FileSystem.Resolve, FileSystem.CreateIn,
           FsRuns.Components;
      var q := FsRuns.Components(path);
      if q == [] {
        return Err(NotFound);
      }
      var parent :- Resolve(q[..|q| - 1]);
      var taken := Lookup(parent, q[|q| - 1]);
      if taken.Ok? {
        return Err(Exists);
      }
      r := Create(parent, q[|q| - 1], KIND_DIR);
    }

    method WriteFile(path: seq<Byte>, d: seq<Byte>) returns (r: Result<nat>)
      requires Valid()
      modifies this`dev
      ensures Valid() && (State(), r) == FileSystem.WriteFile(old(State()), FsRuns.Components(path), d)
    {
      hide SbBlock, PointersOk, Abs, LayoutOk, Usable, FileSystem.DirLookup, FileSystem.Resolve, FileSystem.CreateIn,
           WriteData, FsRuns.Components;
      var q := FsRuns.Components(path);
      if q == [] {
        return Err(NotFound);
      }
      var parent :- Resolve(q[..|q| - 1]);
      var found := Lookup(parent, q[|q| - 1]);
      var ino;
      match found {
        case Ok(existing) => ino := existing;
        case Err(e) =>
          if e != NotFound {
            return Err(e);
          }
          ino :- Create(parent, q[|q| - 1], KIND_FILE);
      }
      var node :- ReadInode(ino);
      if node.kind != KIND_FILE {
        return Err(WrongKind);
      }
      var _ :- WriteInodeData(ino, node, d);
      return Ok(ino);
    }

    method ReadFile(path: seq<Byte>) returns (r: Result<seq<Byte>>)
      requires Valid()
      ensures r == FileSystem.ReadFile(State(), FsRuns.Components(path))
    {
      hide SbBlock, PointersOk, Abs, LayoutOk, Usable, FileSystem.Resolve, FsRuns.Components, Contents;
      var ino :- Resolve(FsRuns.Components(path));
      var node :- ReadInode(ino);
      if node.kind != KIND_FILE {
        return Err(WrongKind);
      }
      r := ReadInodeData(node);
    }

    method ListDir(path: seq<Byte>) returns (r: Result<seq<FsListing.Listing>>)
      requires Valid()
      ensures r == FsListing.ListDir(State(), FsRuns.Components(path))
    {
      hide SbBlock, PointersOk, Abs, LayoutOk, Usable, FileSystem.Resolve, FsRuns.Components, FileSystem.EntriesOf;
      var d :- Resolve(FsRuns.Components(path));
      var es :- ReadDirEntries(d);
      var out: seq<FsListing.Listing>, i := [], 0;
      while i < |es|
        invariant i <= |es| && out == FsListing.Listed(State(), es[..i])
      {
        var child :- ReadInode(es[i].ino);
        FsListing.ListedMore(State(), es[..i], es[i]);
        assert es[..i + 1] == es[..i] + [es[i]];
        out := out + [FsListing.Listing(es[i].ino, child.kind == KIND_DIR, es[i].name)];
        i := i + 1;
      }
      assert es[..i] == es;
      return Ok(out);
    }

    method PathExists(path: seq<Byte>) returns (found: bool)
      requires Valid()
      ensures found <==> FileSystem.Resolve(State(), FsRuns.Components(path)).Ok?
    {
      hide SbBlock, PointersOk, Abs, LayoutOk, FileSystem.Resolve, FsRuns.Components;
      var r := Resolve(FsRuns.Components(path));
      return r.Ok?;
    }

    method RemoveFile(path: seq<Byte>) returns (r: Result<()>)
      requires Valid()
      modifies this`dev
      ensures Valid()
      ensures var done := FileSystem.RemoveFile(old(State()), FsRuns.Components(path));
              State() == done.0 && r == Status(done.1)
    {
      hide SbBlock, PointersOk, Abs, LayoutOk, FileSystem.DirLookup, FileSystem.Resolve, FileSystem.DirRemove,
           FreeSlots, FsRuns.Components;
      var q := FsRuns.Components(path);
      if q == [] {
        return Err(NotFound);
      }
      var parent :- Resolve(q[..|q| - 1]);
      var ino :- Lookup(parent, q[|q| - 1]);
      var node :- ReadInode(ino);
      if node.kind != KIND_FILE {
        return Err(WrongKind);
      }
      var _ :- ShrinkSlots(node.direct, 0, node.BlocksUsed());
      var _ :- WriteInode(ino, Inode(KIND_FREE, 0, NO_BLOCKS));
      var _ :- RemoveEntry(parent, q[|q| - 1]);
      return Ok(());
    }
  }

  /** Zeroed bitmap and inode blocks are free blocks and free inodes. */
  lemma BlankVolume(dev: Device, sb: Superblock)
    requires LayoutOk(dev, sb) && ZeroFrom(dev, 1, sb.dataStart)
    ensures var v := Abs(dev, sb);
            && (forall i: nat :: i < |v.inodes| ==> v.inodes[i] == Inode(KIND_FREE, 0, NO_BLOCKS))
            && (forall i: nat :: i < |v.bits| ==> !v.bits[i])
            && PointersOk(v)
  {
    hide DecodeInode, TestBit, SbFits;
    ZeroBits();
    ZeroInode();
    forall i: nat | i < sb.inodeCount
      ensures InodeAt(dev, sb, i) == Inode(KIND_FREE, 0, NO_BLOCKS)
    {
      assert ZeroBlock()[InodeOffset(i)..InodeOffset(i) + INODE_SIZE] == Zeros(INODE_SIZE);
    }
  }

  lemma ZeroBits()
    ensures forall k: nat :: !TestBit(0, k)
  {
    forall k: nat
      ensures !TestBit(0, k)
    {
      ZeroBit(k);
    }
  }

  lemma {:induction false} ZeroBit(k: nat)
    ensures !TestBit(0, k)
  {
    if k > 0 {
      ZeroBit(k - 1);
    }
  }

  lemma {:induction false} ZeroFields(fs: seq<Field>)
    requires forall i :: 0 <= i < |fs| ==> fs[i].value == 0
    ensures forall i :: 0 <= i < |PutAll(fs)| ==> PutAll(fs)[i] == 0
  {
    if fs != [] {
      ZeroFields(fs[1..]);
      EncodeZero(fs[0].width);
    }
  }

  lemma ZeroInode()
    ensures DecodeInode(Zeros(INODE_SIZE)) == Inode(KIND_FREE, 0, NO_BLOCKS)
  {
    hide PutAll, DecodeInode;
    var n := Inode(KIND_FREE, 0, NO_BLOCKS);
    InodeRoundTrip(n);
    ZeroFields(InodeFields(n));
    assert EncodeInode(n) == Zeros(INODE_SIZE);
  }

  lemma WithoutStep(es: seq<DirEnt>, i: nat, name: Name)
    requires i < |es|
    ensures Without(es[i..], name) == (if es[i].name == name then [] else [es[i]]) + Without(es[i + 1..], name)
    ensures Without(es[|es|..], name) == []
  {
    assert es[i..][0] == es[i] && es[i..][1..] == es[i + 1..];
  }

  method DropNamed(es: seq<DirEnt>, name: Name) returns (kept: seq<DirEnt>)
    ensures kept == Without(es, name)
  {
    hide Without;
    kept := [];
    var i := 0;
    assert es[0..] == es;
    while i < |es|
      invariant i <= |es| && kept + Without(es[i..], name) == Without(es, name)
    {
      WithoutStep(es, i, name);
      if es[i].name != name {
        kept := kept + [es[i]];
      }
      i := i + 1;
    }
  }

  /** The entries of the first slots are a prefix of all entries. */
  lemma {:induction false} EntriesGrow(data: seq<Byte>, k: nat, m: nat)
    requires k <= m && m * DIR_ENTRY_SIZE <= |data|
    ensures DecodeUpTo(data, k) <= DecodeUpTo(data, m)
    decreases m
  {
    hide DecodeEnt;
    if k < m {
      EntriesGrow(data, k, m - 1);
    }
  }

  /** A component that fails to resolve fails the whole path with the same error. */
  lemma {:induction false} StopsAtError(v: Vol, q: seq<Name>, i: nat)
    requires i <= |q|
    ensures FileSystem.Resolve(v, q[..i]).Err? ==> FileSystem.Resolve(v, q) == FileSystem.Resolve(v, q[..i])
    decreases |q| - i
  {
    hide FileSystem.DirLookup;
    if i == |q| {
      assert q[..i] == q;
    } else {
      assert q[..i + 1][..i] == q[..i];
      StopsAtError(v, q, i + 1);
    }
  }
}
