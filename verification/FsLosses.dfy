/** What failing CIBOSFS operations cost (cibos-kernel/src/fs.rs): exactly when blocks stay
    marked that nobody uses, and exactly when an inode stays taken that no path leads to. */
module FsLosses {
  import opened LittleEndian
  import opened Volume
  import opened Directories
  import opened FileSystem
  import opened FsTheorems
  import opened Options

  // ---- lost blocks ---------------------------------------------------------

  /** Block `b` is marked but no inode uses it. */
  ghost predicate Lost(v: Vol, b: nat) {
    Marked(v, b) && !Used(v.inodes, b)
  }

  ghost predicate SameLost(v: Vol, v1: Vol) {
    forall b: nat {:trigger Lost(v1, b)} {:trigger Lost(v, b)} :: Lost(v1, b) <==> Lost(v, b)
  }

  /** Blocks once lost stay lost. */
  ghost predicate KeepsLost(v: Vol, v1: Vol) {
    forall b: nat {:trigger Lost(v1, b)} {:trigger Lost(v, b)} :: Lost(v, b) ==> Lost(v1, b)
  }

  lemma ExactIsNoneLost(v: Vol)
    ensures Exact(v) <==> forall b: nat {:trigger Lost(v, b)} :: !Lost(v, b)
  {
    forall b: nat
      ensures Lost(v, b) <==> Marked(v, b) && !Used(v.inodes, b)
    {
    }
  }

  lemma UsedSplit(inodes: seq<Inode>, ino: nat, b: nat)
    requires ino < |inodes|
    ensures Used(inodes, b) <==> Holds(inodes[ino], b) || UsedByOther(inodes, ino, b)
  {
    if Used(inodes, b) {
      var i: nat, s: nat :| InUse(inodes, i, s) && inodes[i].direct[s] == b;
      if i == ino {
        assert Holds(inodes[ino], b);
      }
    }
    if Holds(inodes[ino], b) {
      var s: nat :| s < inodes[ino].BlocksUsed() && s < DIRECT_BLOCKS && inodes[ino].direct[s] == b;
      assert InUse(inodes, ino, s);
    }
  }

  ghost predicate UsedByOther(inodes: seq<Inode>, ino: nat, b: nat) {
    exists i: nat, s: nat :: i != ino && InUse(inodes, i, s) && inodes[i].direct[s] == b
  }

  lemma OthersUseSame(a: seq<Inode>, c: seq<Inode>, ino: nat, b: nat)
    requires |a| == |c| && forall j: nat :: j < |a| && j != ino ==> a[j] == c[j]
    ensures UsedByOther(a, ino, b) <==> UsedByOther(c, ino, b)
  {
    if UsedByOther(a, ino, b) {
      var i: nat, s: nat :| i != ino && InUse(a, i, s) && a[i].direct[s] == b;
      assert InUse(c, i, s) && c[i].direct[s] == b;
    }
    if UsedByOther(c, ino, b) {
      var i: nat, s: nat :| i != ino && InUse(c, i, s) && c[i].direct[s] == b;
      assert InUse(a, i, s) && a[i].direct[s] == b;
    }
  }

  /** A block newly taken by an inode was clear. */
  lemma TakenWasClear(v: Vol, ino: nat, d: seq<Byte>, b: nat)
    requires BlocksOk(v) && ino < |v.inodes| && |d| <= MAX_FILE_SIZE && Fits(v, v.inodes[ino], d)
    ensures var v1 := WriteData(v, ino, v.inodes[ino], d).0;
            ino < |v1.inodes| && (Holds(v1.inodes[ino], b) ==> Holds(v.inodes[ino], b) || !Marked(v, b))
  {
    hide WriteData, ClearCount, Marked, NoSharedBlocks, InData, ReadBlock;
    var n := v.inodes[ino];
    assert InodeOk(v, n);
    SlotsDistinct(v, ino);
    var vw, p := RewriteSlots(v, n, d);
    var v1 := WriteData(v, ino, n, d).0;
    if Holds(v1.inodes[ino], b) {
      var s: nat :| s < v1.inodes[ino].BlocksUsed() && s < DIRECT_BLOCKS && v1.inodes[ino].direct[s] == b;
      assert s < n.BlocksUsed() ==> n.direct[s] == b;
    }
  }

  /** Replacing contents with room enough loses no block and recovers none. */
  lemma WriteKeepsLost(v: Vol, ino: nat, d: seq<Byte>)
    requires BlocksOk(v) && ino < |v.inodes| && v.inodes[ino].kind != KIND_FREE
    requires |d| <= MAX_FILE_SIZE && Fits(v, v.inodes[ino], d)
    ensures SameLost(v, WriteData(v, ino, v.inodes[ino], d).0)
  {
    hide WriteData, ClearCount, Marked, BlocksOk, Contents, Exact, Used, Holds, UsedByOther, Fits;
    WriteDataCorrect(v, ino, d);
    var v1 := WriteData(v, ino, v.inodes[ino], d).0;
    forall b: nat
      ensures Lost(v1, b) <==> Lost(v, b)
    {
      UsedSplit(v.inodes, ino, b);
      UsedSplit(v1.inodes, ino, b);
      OthersUseSame(v.inodes, v1.inodes, ino, b);
      TakenWasClear(v, ino, d, b);
      HeldIsMarkedNow(v, ino, b);
    }
  }

  lemma HeldIsMarkedNow(v: Vol, ino: nat, b: nat)
    requires BlocksOk(v) && ino < |v.inodes|
    ensures Holds(v.inodes[ino], b) ==> Marked(v, b)
  {
    hide NoSharedBlocks, Marked;
    assert InodeOk(v, v.inodes[ino]);
  }

  lemma {:induction false} FailedAllocTakesAll(v: Vol, p: Pointers, i: nat, hi: nat)
    requires |v.bits| == |v.data| && hi <= DIRECT_BLOCKS && !AllocSlots(v, p, i, hi).1
    ensures ClearCount(AllocSlots(v, p, i, hi).0.0.bits) == 0
    decreases hi - i
  {
    hide ClearCount, FirstClear;
    AllocBlockSpec(v);
    var a := AllocBlock(v);
    if a.1.Ok? {
      FailedAllocTakesAll(a.0, p[i := a.1.value], i + 1, hi);
    }
  }

  lemma {:induction false} ClearCountZero(bits: seq<bool>)
    ensures ClearCount(bits) == 0 <==> forall k :: 0 <= k < |bits| ==> bits[k]
  {
    if bits != [] {
      ClearCountZero(bits[..|bits| - 1]);
    }
  }

  lemma UsedIsMarked(v: Vol, b: nat)
    requires BlocksOk(v)
    ensures Used(v.inodes, b) ==> Marked(v, b)
  {
    if Used(v.inodes, b) {
      var i: nat, s: nat :| InUse(v.inodes, i, s) && v.inodes[i].direct[s] == b;
      assert InodeOk(v, v.inodes[i]);
    }
  }

  /** A write that runs out of space marks every clear block and gives none back: the
      blocks lost by it are exactly the blocks that were clear. */
  lemma NoSpaceLosesAllBlocks(v: Vol, ino: nat, d: seq<Byte>, b: nat)
    requires BlocksOk(v) && ino < |v.inodes| && |d| <= MAX_FILE_SIZE && !Fits(v, v.inodes[ino], d)
    ensures var v1 := WriteData(v, ino, v.inodes[ino], d).0;
            && v1.inodes == v.inodes && ClearCount(v1.bits) == 0
            && (Lost(v1, b) <==> Lost(v, b) || (InData(v, b) && !Marked(v, b)))
  {
    hide ClearCount, NoSharedBlocks, Used;
    var n := v.inodes[ino];
    assert InodeOk(v, n);
    var v1 := WriteData(v, ino, n, d).0;
    AllocSlotsSpec(v, n.direct, n.BlocksUsed(), BlocksFor(|d|));
    FailedAllocTakesAll(v, n.direct, n.BlocksUsed(), BlocksFor(|d|));
    ClearCountZero(v1.bits);
    UsedIsMarked(v, b);
    assert InData(v, b) ==> Marked(v1, b);
  }

  // ---- counting clear blocks -----------------------------------------------

  lemma {:induction false} AllocSlotsClear(v: Vol, p: Pointers, i: nat, hi: nat)
    requires |v.bits| == |v.data| && i <= hi <= DIRECT_BLOCKS && AllocSlots(v, p, i, hi).1
    ensures ClearCount(AllocSlots(v, p, i, hi).0.0.bits) == ClearCount(v.bits) - (hi - i)
    decreases hi - i
  {
    hide ClearCount, FirstClear;
    if i < hi {
      AllocBlockSpec(v);
      AllocSlotsClear(AllocBlock(v).0, p[i := AllocBlock(v).1.value], i + 1, hi);
    }
  }

  lemma {:induction false} ClearCountClear(bits: seq<bool>, i: nat)
    requires i < |bits| && bits[i]
    ensures ClearCount(bits[i := false]) == ClearCount(bits) + 1
  {
    assert bits[i := false][i := true] == bits;
    ClearCountSet(bits[i := false], i);
  }

  lemma {:induction false} FreeSlotsClear(v: Vol, p: Pointers, i: nat, hi: nat)
    requires |v.bits| == |v.data| && v.dataStart > 0 && i <= hi <= DIRECT_BLOCKS && SlotsApart(p, i, hi)
    requires forall s: nat :: i <= s < hi ==> InData(v, p[s]) && Marked(v, p[s])
    ensures ClearCount(FreeSlots(v, p, i, hi).0.bits) == ClearCount(v.bits) + (hi - i)
    decreases hi - i
  {
    hide ClearCount;
    if i < hi {
      ClearCountClear(v.bits, p[i] - v.dataStart);
      FreeSlotsClear(FreeBlock(v, p[i]), p[i := 0], i + 1, hi);
    }
  }

  lemma {:induction false} WriteSlotsBits(v: Vol, p: Pointers, d: seq<Byte>, i: nat)
    requires |d| <= MAX_FILE_SIZE && i <= BlocksFor(|d|)
    ensures WriteSlots(v, p, d, i).bits == v.bits
    decreases BlocksFor(|d|) - i
  {
    hide Chunk;
    if i < BlocksFor(|d|) {
      WriteSlotsBits(WriteBlock(v, p[i], Chunk(d, i)), p, d, i + 1);
    }
  }

  /** A completed write takes the blocks it needs and returns the ones it gives up. */
  lemma WriteClear(v: Vol, ino: nat, d: seq<Byte>)
    requires BlocksOk(v) && ino < |v.inodes| && |d| <= MAX_FILE_SIZE && Fits(v, v.inodes[ino], d)
    ensures ClearCount(WriteData(v, ino, v.inodes[ino], d).0.bits)
            == ClearCount(v.bits) + v.inodes[ino].BlocksUsed() - BlocksFor(|d|)
  {
    hide ClearCount, NoSharedBlocks, AllocSlots, FreeSlots, WriteSlots;
    var n, k := v.inodes[ino], BlocksFor(|d|);
    var u := n.BlocksUsed();
    assert InodeOk(v, n);
    SlotsDistinct(v, ino);
    AllocSlotsSpec(v, n.direct, u, k);
    var ((va, pa), ok) := AllocSlots(v, n.direct, u, k);
    var (vf, pf) := FreeSlots(va, pa, k, u);
    WriteSlotsBits(vf, pf, d, 0);
    if u <= k {
      AllocSlotsClear(v, n.direct, u, k);
      NoSlots(v, n.direct, va, pa, k, u);
    } else {
      NoSlots(v, n.direct, v, n.direct, u, k);
      FreeSlotsClear(v, n.direct, k, u);
    }
  }

  /** An empty range allocates and frees nothing. */
  lemma NoSlots(v: Vol, p: Pointers, v1: Vol, p1: Pointers, i: nat, hi: nat)
    requires hi <= i
    ensures FreeSlots(v1, p1, i, hi) == (v1, p1) && (hi <= DIRECT_BLOCKS ==> AllocSlots(v, p, i, hi) == ((v, p), true))
  {
  }

  // ---- entering a name -----------------------------------------------------

  /** Bytes of directory `p` with one more entry. */
  function GrownSize(v: Vol, p: nat): nat
    requires IsDir(v, p)
  {
    DIR_ENTRY_SIZE * (|GraphOf(v)[p]| + 1)
  }

  /** Clear blocks left after directory `p` took one more entry. */
  function ClearAfter(v: Vol, p: nat): int
    requires IsDir(v, p)
  {
    ClearCount(v.bits) + v.inodes[p].BlocksUsed() - BlocksFor(GrownSize(v, p))
  }

  /** Why a name cannot be entered into `p`: it is no directory, the name is too long, the
      directory is full, or a block it needs is not clear. */
  predicate CannotEnter(v: Vol, p: nat, name: Name) {
    !IsDir(v, p) || |name| > NAME_MAX || GrownSize(v, p) > MAX_FILE_SIZE || ClearAfter(v, p) < 0
  }

  /** One more entry needs at most one more block. */
  lemma OneMoreBlock(v: Vol, p: nat)
    requires Wf(v) && IsDir(v, p)
    ensures BlocksFor(GrownSize(v, p)) <= v.inodes[p].BlocksUsed() + 1
  {
    hide DecodeDir, ReadBlock, TreeLike, NoSharedBlocks;
    var n := v.inodes[p];
    assert InodeOk(v, n);
    ContentsLength(v, n, n.BlocksUsed());
    assert GraphOf(v)[p] == EntriesOf(v, p);
  }

  /** Making an entry for a new inode fails exactly when the name cannot be entered; the
      inode claimed for it is then taken all the same. Either way no block is lost, and on
      success the clear blocks are those the directory leaves. */
  lemma CreateExactly(v: Vol, p: nat, name: Name, kind: nat)
    requires Wf(v) && p < |v.inodes| && v.inodes[p].kind != KIND_FREE && kind in {KIND_FILE, KIND_DIR}
    requires AllocInode(v).Ok?
    ensures var ino := AllocInode(v).value;
            var (v1, r) := CreateIn(v, p, name, kind);
            && ino < |v.inodes| && v.inodes[ino].kind == KIND_FREE && SameLost(v, v1)
            && (r.Err? <==> CannotEnter(v, p, name))
            && (r.Err? ==> v1.inodes == v.inodes[ino := Inode(kind, 0, NO_BLOCKS)] && v1.data == v.data
                           && v1.dataStart == v.dataStart)
            && (r.Ok? ==> r.value == ino && ClearCount(v1.bits) == ClearAfter(v, p))
            && |v1.inodes| == |v.inodes|
            && (forall i: nat :: i < |v.inodes| && i != ino ==> v1.inodes[i].kind == v.inodes[i].kind)
  {
    hide Contents, WriteData, BlocksOk, Exact, EncodeDir, DecodeDir, TreeLike, GraphOf, ClearCount, RefsOk, Lost;
    FirstFreeSpec(v, 1);
    var ino := AllocInode(v).value;
    var v0 := SetInode(v, ino, Inode(kind, 0, NO_BLOCKS));
    ClaimInode(v, ino, kind);
    ClaimLoses(v, ino, kind);
    if !IsDir(v, p) {
      NotADirectory(v0, p, ino, name);
    } else if |name| <= NAME_MAX {
      LookupReads(v0, p);
      OneMoreBlock(v, p);
      var d := EncodeDir(GraphOf(v0)[p] + [DirEnt(ino, name)]);
      WriteDataCorrect(v0, p, d);
      EnterLoses(v0, p, d);
    }
  }

  lemma ClaimLoses(v: Vol, ino: nat, kind: nat)
    requires Wf(v) && ino < |v.inodes| && v.inodes[ino].kind == KIND_FREE
    ensures SameLost(v, SetInode(v, ino, Inode(kind, 0, NO_BLOCKS)))
  {
    hide Marked, NoSharedBlocks, TreeLike, GraphOf, Used, UsedByOther;
    assert InodeOk(v, v.inodes[ino]);
    var v1 := SetInode(v, ino, Inode(kind, 0, NO_BLOCKS));
    SameMarks(v, v1);
    forall b: nat
      ensures Lost(v1, b) <==> Lost(v, b)
    {
      UsedSplit(v.inodes, ino, b);
      UsedSplit(v1.inodes, ino, b);
      OthersUseSame(v.inodes, v1.inodes, ino, b);
    }
  }

  /** A directory short of the one block it needs loses none, as none was clear. */
  lemma EnterLoses(v: Vol, p: nat, d: seq<Byte>)
    requires BlocksOk(v) && p < |v.inodes| && v.inodes[p].kind != KIND_FREE
    requires BlocksFor(|d|) <= v.inodes[p].BlocksUsed() + 1
    ensures SameLost(v, WriteData(v, p, v.inodes[p], d).0)
    ensures |d| <= MAX_FILE_SIZE && Fits(v, v.inodes[p], d) ==>
              ClearCount(WriteData(v, p, v.inodes[p], d).0.bits)
              == ClearCount(v.bits) + v.inodes[p].BlocksUsed() - BlocksFor(|d|)
  {
    hide WriteData, ClearCount, BlocksOk, Lost;
    if |d| > MAX_FILE_SIZE {
      TooMuch(v, p, d);
    } else if Fits(v, v.inodes[p], d) {
      WriteKeepsLost(v, p, d);
      WriteClear(v, p, d);
    } else {
      NoneClear(v);
      forall b: nat
        ensures Lost(WriteData(v, p, v.inodes[p], d).0, b) <==> Lost(v, b)
      {
        NoSpaceLosesAllBlocks(v, p, d, b);
      }
    }
  }

  lemma TooMuch(v: Vol, ino: nat, d: seq<Byte>)
    requires ino < |v.inodes| && |d| > MAX_FILE_SIZE
    ensures WriteData(v, ino, v.inodes[ino], d) == (v, Err(TooLarge))
  {
  }

  lemma NoneClear(v: Vol)
    requires BlocksOk(v) && ClearCount(v.bits) == 0
    ensures forall b: nat :: InData(v, b) ==> Marked(v, b)
  {
    ClearCountZero(v.bits);
  }

  // ---- orphaned inodes -----------------------------------------------------

  /** Inode `ino` was free and is now taken, but no path leads to it. */
  ghost predicate Orphan(v: Vol, v1: Vol, ino: nat) {
    && ino < |v.inodes| && ino < |v1.inodes| && v.inodes[ino].kind == KIND_FREE && v1.inodes[ino].kind != KIND_FREE
    && forall q: Path :: Walk(GraphOf(v1), q) != Some(ino)
  }

  ghost predicate LosesInode(v: Vol, v1: Vol) {
    exists ino: nat :: Orphan(v, v1, ino)
  }

  lemma SameGraph(v: Vol, v1: Vol)
    requires v1.inodes == v.inodes && v1.data == v.data && v1.dataStart == v.dataStart
    ensures GraphOf(v1) == GraphOf(v)
  {
    hide Contents, DecodeDir;
    Untouched(v, v1);
  }

  /** Creating a node orphans an inode exactly when the name cannot be entered. */
  lemma CreateOrphans(v: Vol, p: nat, c: Path, kind: nat)
    requires FreePlace(v, p, c) && kind in {KIND_FILE, KIND_DIR}
    ensures var (v1, r) := CreateIn(v, p, c[|c| - 1], kind);
            && SameLost(v, v1)
            && (LosesInode(v, v1) <==> AllocInode(v).Ok? && CannotEnter(v, p, c[|c| - 1]))
  {
    hide Contents, GraphOf, BlocksOk, CreateIn, TreeLike, Lost, Exact, CannotEnter, Detached, Walk;
    var name := c[|c| - 1];
    PlaceFacts(v, p, c);
    if AllocInode(v).Ok? {
      CreateExactly(v, p, name, kind);
      CreateCorrect(v, p, c, kind);
      var ino := AllocInode(v).value;
      var (v1, r) := CreateIn(v, p, name, kind);
      if r.Err? {
        FailedClaim(v, ino, kind, v1);
        assert Orphan(v, v1, ino);
      }
    } else {
      NothingClaimed(v, p, name, kind);
    }
  }

  lemma NothingClaimed(v: Vol, p: nat, name: Name, kind: nat)
    requires AllocInode(v).Err?
    ensures CreateIn(v, p, name, kind).0 == v && CreateIn(v, p, name, kind).1.Err?
  {
  }

  lemma FailedClaim(v: Vol, ino: nat, kind: nat, v1: Vol)
    requires Wf(v) && ino < |v.inodes| && v.inodes[ino].kind == KIND_FREE && kind in {KIND_FILE, KIND_DIR}
    requires v1.inodes == v.inodes[ino := Inode(kind, 0, NO_BLOCKS)] && v1.data == v.data && v1.dataStart == v.dataStart
    ensures forall q: Path :: Walk(GraphOf(v1), q) != Some(ino)
  {
    hide Contents, GraphOf, BlocksOk, Walk, Exact, NodeAt;
    var v0 := SetInode(v, ino, Inode(kind, 0, NO_BLOCKS));
    ClaimInode(v, ino, kind);
    SameGraph(v0, v1);
    RootIsDir(v);
    forall q: Path
      ensures Walk(GraphOf(v1), q) != Some(ino)
    {
      NeverReached(GraphOf(v0), ino, q);
    }
  }

  // ---- mkdir ---------------------------------------------------------------

  /** The parent of `c` exists, `c` does not, an inode is free, and the name cannot be
      entered. */
  ghost predicate MkdirOrphans(v: Vol, c: Path) {
    && c != [] && Walk(GraphOf(v), c[..|c| - 1]).Some? && Walk(GraphOf(v), c).None?
    && AllocInode(v).Ok? && CannotEnter(v, Walk(GraphOf(v), c[..|c| - 1]).value, c[|c| - 1])
  }

  /** `mkdir` never loses a block, and loses an inode exactly when the new name cannot be
      entered: its parent is a file, the name is too long, the directory is full, or a
      block it needs is not clear. */
  lemma MkdirLosses(v: Vol, c: Path)
    requires Wf(v)
    ensures SameLost(v, Mkdir(v, c).0)
    ensures LosesInode(v, Mkdir(v, c).0) <==> MkdirOrphans(v, c)
  {
    hide Contents, GraphOf, BlocksOk, CreateIn, DirLookup, Wf, Lost, CannotEnter, NodeOf;
    if c != [] {
      ResolveIsWalk(v, c[..|c| - 1]);
      var p := Resolve(v, c[..|c| - 1]);
      if p.Ok? {
        LookupIsFind(v, p.value, c[|c| - 1]);
        if DirLookup(v, p.value, c[|c| - 1]).Err? {
          CreateOrphans(v, p.value, c, KIND_DIR);
        }
      }
    }
  }

  // ---- write_file ----------------------------------------------------------

  /** Fewer blocks are clear than the data still needs, but some are. */
  predicate RunsOut(clear: int, needed: int) {
    0 < clear < needed
  }

  /** Replacing the bytes of a file: blocks are lost exactly when the clear blocks run out
      on the way, and then every clear block is. */
  lemma OverwriteLosses(v: Vol, ino: nat, d: seq<Byte>)
    requires Wf(v) && IsFile(v, ino)
    ensures var v1 := Overwrite(v, ino, d).0;
            && KeepsLost(v, v1) && GraphOf(v1) == GraphOf(v) && |v1.inodes| == |v.inodes|
            && (forall i: nat :: i < |v.inodes| ==> v1.inodes[i].kind == v.inodes[i].kind)
            && (SameLost(v, v1) <==>
                  |d| > MAX_FILE_SIZE || !RunsOut(ClearCount(v.bits), BlocksFor(|d|) - v.inodes[ino].BlocksUsed()))
  {
    hide Contents, GraphOf, WriteData, ClearCount, Lost, TreeLike, RefsOk;
    var v1 := Overwrite(v, ino, d).0;
    Rewrite(v, ino, d);
    RewriteGraph(v, ino, d, v1, WriteData(v, ino, v.inodes[ino], d).1);
    if |d| > MAX_FILE_SIZE {
      TooMuch(v, ino, d);
    } else if Fits(v, v.inodes[ino], d) {
      WriteKeepsLost(v, ino, d);
    } else {
      forall b: nat
        ensures Lost(v1, b) <==> Lost(v, b) || (InData(v, b) && !Marked(v, b))
      {
        NoSpaceLosesAllBlocks(v, ino, d, b);
      }
      if ClearCount(v.bits) == 0 {
        NoneClear(v);
      } else {
        var b := SomeClear(v);
        assert !Lost(v, b) by { NotLost(v, b); }
      }
    }
  }

  lemma NotLost(v: Vol, b: nat)
    requires !Marked(v, b)
    ensures !Lost(v, b)
  {
  }

  lemma SomeClear(v: Vol) returns (b: nat)
    requires |v.bits| == |v.data| && ClearCount(v.bits) > 0
    ensures InData(v, b) && !Marked(v, b)
  {
    ClearCountZero(v.bits);
    var k :| 0 <= k < |v.bits| && !v.bits[k];
    b := v.dataStart + k;
  }

  /** `write_file` creates a file: parent directory, name not taken, an inode free. */
  ghost predicate Creates(v: Vol, c: Path) {
    && c != [] && Walk(GraphOf(v), c[..|c| - 1]).Some? && IsDir(v, Walk(GraphOf(v), c[..|c| - 1]).value)
    && Walk(GraphOf(v), c).None? && AllocInode(v).Ok?
  }

  ghost predicate WriteOrphans(v: Vol, c: Path) {
    Creates(v, c) && CannotEnter(v, Walk(GraphOf(v), c[..|c| - 1]).value, c[|c| - 1])
  }

  /** The clear blocks run out while the data is written, to the file there was or to a
      file just created. */
  ghost predicate WriteRunsOut(v: Vol, c: Path, d: seq<Byte>) {
    && |d| <= MAX_FILE_SIZE && c != []
    && match Walk(GraphOf(v), c)
       case Some(i) => IsFile(v, i) && RunsOut(ClearCount(v.bits), BlocksFor(|d|) - v.inodes[i].BlocksUsed())
       case None =>
         && Creates(v, c) && !WriteOrphans(v, c)
         && RunsOut(ClearAfter(v, Walk(GraphOf(v), c[..|c| - 1]).value), BlocksFor(|d|))
  }

  /** `write_file` loses blocks exactly when the clear ones run out on the way, and an inode
      exactly when a new name cannot be entered into the parent directory. */
  lemma WriteFileLosses(v: Vol, c: Path, d: seq<Byte>)
    requires Wf(v)
    ensures var v1 := WriteFile(v, c, d).0;
            && KeepsLost(v, v1) && (SameLost(v, v1) <==> !WriteRunsOut(v, c, d))
            && (LosesInode(v, v1) <==> WriteOrphans(v, c))
  {
    hide Contents, GraphOf, BlocksOk, CreateIn, DirLookup, Wf, Lost, CannotEnter, NodeOf, Overwrite, ClearCount,
         ClearAfter;
    if c != [] {
      ResolveIsWalk(v, c[..|c| - 1]);
      var p := Resolve(v, c[..|c| - 1]);
      if p.Ok? {
        LookupIsFind(v, p.value, c[|c| - 1]);
        match DirLookup(v, p.value, c[|c| - 1]) {
          case Ok(existing) =>
            ResolveIsWalk(v, c);
            ExistingLosses(v, existing, d);
          case Err(e) =>
            if e == NotFound {
              NewFileLosses(v, p.value, c, d);
            }
        }
      }
    }
  }

  lemma ExistingLosses(v: Vol, ino: nat, d: seq<Byte>)
    requires Wf(v) && ino < |v.inodes|
    ensures var v1 := Overwrite(v, ino, d).0;
            && KeepsLost(v, v1) && !LosesInode(v, v1)
            && (SameLost(v, v1) <==> !(IsFile(v, ino) && |d| <= MAX_FILE_SIZE
                                       && RunsOut(ClearCount(v.bits), BlocksFor(|d|) - v.inodes[ino].BlocksUsed())))
  {
    hide Contents, GraphOf, WriteData, Wf, Lost, ClearCount;
    if IsFile(v, ino) {
      OverwriteLosses(v, ino, d);
    }
  }

  lemma NewFileLosses(v: Vol, p: nat, c: Path, d: seq<Byte>)
    requires FreePlace(v, p, c) && IsDir(v, p)
    ensures var made := CreateIn(v, p, c[|c| - 1], KIND_FILE);
            var v1 := if made.1.Ok? then Overwrite(made.0, made.1.value, d).0 else made.0;
            && KeepsLost(v, v1)
            && (LosesInode(v, v1) <==> AllocInode(v).Ok? && CannotEnter(v, p, c[|c| - 1]))
            && (SameLost(v, v1) <==> !(|d| <= MAX_FILE_SIZE && AllocInode(v).Ok? && !CannotEnter(v, p, c[|c| - 1])
                                       && RunsOut(ClearAfter(v, p), BlocksFor(|d|))))
  {
    hide Contents, GraphOf, BlocksOk, CreateIn, Lost, Exact, CannotEnter, Walk, Overwrite, ClearCount, ClearAfter;
    var name := c[|c| - 1];
    PlaceFacts(v, p, c);
    CreateOrphans(v, p, c, KIND_FILE);
    if AllocInode(v).Ok? {
      CreateExactly(v, p, name, KIND_FILE);
      CreateCorrect(v, p, c, KIND_FILE);
      var (vm, made) := CreateIn(v, p, name, KIND_FILE);
      if made.Ok? {
        OverwriteLosses(vm, made.value, d);
        NewFileEmpty(v, p, name);
      }
    } else {
      NothingClaimed(v, p, name, KIND_FILE);
    }
  }

  /** A file just created holds no blocks. */
  lemma NewFileEmpty(v: Vol, p: nat, name: Name)
    requires Wf(v) && IsDir(v, p) && AllocInode(v).Ok? && CreateIn(v, p, name, KIND_FILE).1.Ok?
    ensures var (v1, r) := CreateIn(v, p, name, KIND_FILE);
            r.value < |v1.inodes| && v1.inodes[r.value] == Inode(KIND_FILE, 0, NO_BLOCKS)
  {
    hide Contents, WriteData, BlocksOk, Exact, EncodeDir, DecodeDir, TreeLike, GraphOf, ClearCount, RefsOk;
    FirstFreeSpec(v, 1);
    var ino := AllocInode(v).value;
    var v0 := SetInode(v, ino, Inode(KIND_FILE, 0, NO_BLOCKS));
    ClaimInode(v, ino, KIND_FILE);
    LookupReads(v0, p);
    WriteDataCorrect(v0, p, EncodeDir(GraphOf(v0)[p] + [DirEnt(ino, name)]));
  }

  // ---- remove_file ---------------------------------------------------------

  lemma DiscardLosses(v: Vol, ino: nat, v1: Vol)
    requires ino < |v.inodes| && Discarded(v, ino, v1)
    ensures SameLost(v, v1)
  {
    hide BlocksOk, Exact, Used, UsedByOther, Marked;
    forall b: nat
      ensures Lost(v1, b) <==> Lost(v, b)
    {
      UsedSplit(v.inodes, ino, b);
      UsedSplit(v1.inodes, ino, b);
      OthersUseSame(v.inodes, v1.inodes, ino, b);
    }
  }

  lemma UnlinkLosses(v: Vol, p: nat, name: Name, ino: nat, v0: Vol)
    requires Wf(v) && IsDir(v, p) && IsFile(v, ino) && Discarded(v, ino, v0) && Find(GraphOf(v)[p], name) == Some(ino)
    ensures SameLost(v0, DirRemove(v0, p, name).0)
  {
    hide Contents, BlocksOk, Exact, EncodeDir, DecodeDir, GraphOf, TreeLike, WriteData, Fits, Lost;
    DiscardGraph(v, ino, v0);
    LookupReads(v, p);
    SameEntries(v, v0, p);
    var es := Without(GraphOf(v)[p], name);
    WithoutOk(GraphOf(v)[p], name);
    NamesOf(v, p);
    WithoutLength(GraphOf(v)[p], name);
    ShrunkFits(v0, p, es);
    WriteKeepsLost(v0, p, EncodeDir(es));
  }

  lemma RemovedLosses(v: Vol, p: nat, name: Name, ino: nat)
    requires Wf(v) && IsDir(v, p) && IsFile(v, ino) && Find(GraphOf(v)[p], name) == Some(ino)
    ensures var v1 := DirRemove(Discard(v, ino), p, name).0; SameLost(v, v1) && !LosesInode(v, v1)
  {
    hide Contents, Exact, GraphOf, DirRemove, Discard, TreeLike, Lost, Marked;
    var v0 := Discard(v, ino);
    DiscardFile(v, ino);
    DiscardLosses(v, ino, v0);
    UnlinkCorrect(v, p, name, ino, v0);
    UnlinkLosses(v, p, name, ino, v0);
  }

  /** `remove_file` loses neither blocks nor inodes. */
  lemma RemoveFileLosses(v: Vol, c: Path)
    requires Wf(v)
    ensures SameLost(v, RemoveFile(v, c).0) && !LosesInode(v, RemoveFile(v, c).0)
  {
    hide Contents, BlocksOk, GraphOf, DirLookup, DirRemove, Discard, Wf, Lost;
    ResolveIsWalk(v, c);
    if c != [] {
      ResolveIsWalk(v, c[..|c| - 1]);
      var parent := Resolve(v, c[..|c| - 1]);
      if parent.Ok? {
        LookupIsFind(v, parent.value, c[|c| - 1]);
        var ino := DirLookup(v, parent.value, c[|c| - 1]);
        if ino.Ok? && v.inodes[ino.value].kind == KIND_FILE {
          RemovedLosses(v, parent.value, c[|c| - 1], ino.value);
        }
      }
    }
  }
}
