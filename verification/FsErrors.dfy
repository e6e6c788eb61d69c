/** Which error each CIBOSFS operation returns and when (cibos-kernel/src/fs.rs), by the tree of
    names, the free inodes and the clear blocks before it. */
module FsErrors {
  import opened LittleEndian
  import opened Volume
  import opened Directories
  import opened FileSystem
  import opened FsTheorems
  import opened FsLosses
  import opened Options

  // ---- lowest free inode and block -----------------------------------------

  predicate FreeInode(v: Vol, i: nat) {
    0 < i < |v.inodes| && v.inodes[i].kind == 0
  }

  /** Some inode besides the root is free. */
  ghost predicate InodeLeft(v: Vol) {
    exists i: nat :: FreeInode(v, i)
  }

  /** The free inode with the lowest number is taken, never the root. */
  lemma {:induction false} LowestInode(v: Vol, i: nat)
    ensures AllocInode(v) == Ok(i) <==> FreeInode(v, i) && forall k: nat :: FreeInode(v, k) ==> i <= k
    ensures AllocInode(v) == Err(NoSpace) <==> !InodeLeft(v)
    ensures AllocInode(v).Ok? <==> InodeLeft(v)
  {
    FirstFreeSpec(v, 1);
    NoneBefore(v, 1);
    if AllocInode(v).Ok? {
      assert FreeInode(v, AllocInode(v).value);
    }
  }

  lemma {:induction false} NoneBefore(v: Vol, i: nat)
    requires i >= 1
    ensures FirstFreeInode(v, i).Ok? ==> forall k: nat :: i <= k < FirstFreeInode(v, i).value ==> !FreeInode(v, k)
    decreases |v.inodes| - i
  {
    if i < |v.inodes| && v.inodes[i].kind != KIND_FREE {
      NoneBefore(v, i + 1);
    }
  }

  /** The clear block with the lowest number is taken, and its bit set. */
  lemma LowestBlock(v: Vol, i: nat)
    requires i < |v.bits|
    ensures AllocBlock(v) == (v.(bits := v.bits[i := true]), Ok(v.dataStart + i)) <==>
              !v.bits[i] && forall k: nat :: k < i ==> v.bits[k]
    ensures AllocBlock(v) == (v, Err(NoSpace)) <==> forall k: nat :: k < |v.bits| ==> v.bits[k]
  {
    var f := FirstClear(v.bits, 0);
    if f < |v.bits| {
      assert v.bits[f := true][f] && !v.bits[f];
    }
  }

  /** The clear bits are counted. */
  lemma {:induction false} ClearIsCount(bits: seq<bool>)
    ensures ClearCount(bits) == |set i: nat | i < |bits| && !bits[i]|
  {
    var clear := set i: nat | i < |bits| && !bits[i];
    if bits == [] {
      assert clear == {};
    } else {
      var n := |bits| - 1;
      ClearIsCount(bits[..n]);
      var before := set i: nat | i < |bits[..n]| && !bits[..n][i];
      assert clear == before + if bits[n] then {} else {n};
      assert n !in before;
    }
  }

  /** Just the blocks that hold `n` bytes. */
  lemma BlocksForLeast(n: nat)
    ensures 512 * (BlocksFor(n) - 1) < n <= 512 * BlocksFor(n)
  {
  }

  // ---- lookups -------------------------------------------------------------

  /** A proper prefix of the path names a file. */
  ghost predicate PassesFile(v: Vol, q: Path) {
    exists k: nat :: k < |q| && NamesFile(v, q[..k])
  }

  ghost predicate NamesFile(v: Vol, q: Path) {
    Walk(GraphOf(v), q).Some? && !IsDir(v, Walk(GraphOf(v), q).value)
  }

  /** Why a path leads nowhere. */
  ghost function LookupError(v: Vol, q: Path): FsError {
    if PassesFile(v, q) then WrongKind else NotFound
  }

  lemma {:induction false} PrefixIsDir(g: Graph, q: Path, k: nat)
    requires Walk(g, q).Some? && k < |q|
    ensures Walk(g, q[..k]).Some? && Walk(g, q[..k]).value in g
    decreases |q|
  {
    var n := |q| - 1;
    if k < n {
      PrefixIsDir(g, q[..n], k);
      assert q[..n][..k] == q[..k];
    }
  }

  lemma LastStepFails(v: Vol, q: Path)
    requires q != []
    ensures PassesFile(v, q) <==> PassesFile(v, q[..|q| - 1]) || NamesFile(v, q[..|q| - 1])
  {
    hide NamesFile;
    var n := |q| - 1;
    if PassesFile(v, q) {
      var k: nat :| k < |q| && NamesFile(v, q[..k]);
      assert k < n ==> q[..n][..k] == q[..k];
    }
    if PassesFile(v, q[..n]) {
      var k: nat :| k < n && NamesFile(v, q[..n][..k]);
      assert q[..n][..k] == q[..k];
    }
  }

  lemma ExistingPassesNoFile(v: Vol, q: Path)
    requires Walk(GraphOf(v), q).Some?
    ensures !PassesFile(v, q)
  {
    hide Walk, Contents;
    forall k: nat | k < |q|
      ensures !NamesFile(v, q[..k])
    {
      PrefixIsDir(GraphOf(v), q, k);
    }
  }

  /** A path resolves to what it leads to; otherwise it runs through a file or into nothing. */
  lemma {:induction false} ResolveExactly(v: Vol, q: Path)
    requires Wf(v)
    ensures Resolve(v, q) == match Walk(GraphOf(v), q) case Some(i) => Ok(i) case None => Err(LookupError(v, q))
    decreases |q|
  {
    hide Contents, GraphOf, DirLookup, Wf, PassesFile;
    ResolveIsWalk(v, q);
    if q != [] {
      var front := q[..|q| - 1];
      ResolveExactly(v, front);
      LastStepFails(v, q);
      var d := Walk(GraphOf(v), front);
      if d.Some? {
        ResolveIsWalk(v, front);
        LookupIsFind(v, d.value, q[|q| - 1]);
        ExistingPassesNoFile(v, front);
      }
    }
  }

  // ---- read_file and remove_file -------------------------------------------

  /** Reading gives the bytes of the file named, or says what is wrong with the path. */
  lemma ReadFileExactly(v: Vol, c: Path)
    requires Wf(v)
    ensures ReadFile(v, c) == match NodeAt(v, c)
                              case Some(FileNode(bytes)) => Ok(bytes)
                              case Some(DirNode) => Err(WrongKind)
                              case None => Err(LookupError(v, c))
  {
    hide Contents, GraphOf, Wf, PassesFile;
    ReadFileIsNode(v, c);
    ResolveExactly(v, c);
  }

  /** Removing fails as reading does, and for the root, which has no entry. */
  lemma RemoveFileExactly(v: Vol, c: Path)
    requires Wf(v)
    ensures var r := RemoveFile(v, c).1;
            if c == [] then r == Err(NotFound)
            else match NodeAt(v, c)
                 case Some(FileNode(_)) => r.Ok?
                 case Some(DirNode) => r == Err(WrongKind)
                 case None => r == Err(LookupError(v, c))
  {
    hide Contents, GraphOf, Wf, PassesFile, DirRemove, DirLookup, Discard;
    RemoveFileCorrect(v, c);
    if c != [] {
      var front := c[..|c| - 1];
      ResolveExactly(v, c);
      ResolveExactly(v, front);
      LastStepFails(v, c);
      if Walk(GraphOf(v), front).Some? {
        ResolveIsWalk(v, front);
        LookupIsFind(v, Walk(GraphOf(v), front).value, c[|c| - 1]);
        ExistingPassesNoFile(v, front);
      }
    }
  }

  // ---- mkdir and write_file ------------------------------------------------

  /** Why a new inode cannot be entered as `name` into `p`: no inode is left, the name is too long,
      `p` is no directory, it is full, or the block it needs is not there. */
  ghost function EnterError(v: Vol, p: nat, name: Name): Option<FsError>
  {
    if !InodeLeft(v) then Some(NoSpace)
    else if |name| > 23 then Some(TooLarge)
    else if !IsDir(v, p) then Some(WrongKind)
    else if |GraphOf(v)[p]| >= 96 then Some(TooLarge)
    else if ClearAfter(v, p) < 0 then Some(NoSpace)
    else None
  }

  ghost predicate Gives<T>(r: Result<T>, error: Option<FsError>) {
    match error
    case None => r.Ok?
    case Some(e) => r == Err(e)
  }

  lemma EnteredOrNot(v: Vol, p: nat, ino: nat, name: Name)
    requires Wf(v) && IsDir(v, p) && |name| <= NAME_MAX && 0 < ino < INODE_LIMIT
    ensures Gives(DirAdd(v, p, ino, name).1,
                  if GrownSize(v, p) > MAX_FILE_SIZE then Some(TooLarge)
                  else if ClearAfter(v, p) < 0 then Some(NoSpace) else None)
  {
    hide Contents, WriteData, BlocksOk, Exact, EncodeDir, DecodeDir, TreeLike, GraphOf, ClearCount, RefsOk;
    LookupReads(v, p);
    WriteDataCorrect(v, p, EncodeDir(GraphOf(v)[p] + [DirEnt(ino, name)]));
  }

  lemma CreateError(v: Vol, p: nat, c: Path, kind: nat)
    requires FreePlace(v, p, c) && kind in {KIND_FILE, KIND_DIR}
    ensures Gives(CreateIn(v, p, c[|c| - 1], kind).1, EnterError(v, p, c[|c| - 1]))
    ensures InodeLeft(v) <==> AllocInode(v).Ok?
    ensures CreateIn(v, p, c[|c| - 1], kind).1.Ok? ==> CreateIn(v, p, c[|c| - 1], kind).1 == AllocInode(v)
  {
    hide Contents, GraphOf, BlocksOk, DirAdd, TreeLike, RefsOk, ClearCount, NodeOf;
    var name := c[|c| - 1];
    PlaceFacts(v, p, c);
    LowestInode(v, 0);
    FirstFreeSpec(v, 1);
    if AllocInode(v).Ok? {
      var ino := AllocInode(v).value;
      var v0 := SetInode(v, ino, Inode(kind, 0, NO_BLOCKS));
      ClaimInode(v, ino, kind);
      if !IsDir(v, p) {
        NotADirectory(v0, p, ino, name);
      } else if |name| > NAME_MAX {
        LongName(v0, p, ino, name);
      } else {
        EnteredOrNot(v0, p, ino, name);
        assert GraphOf(v0)[p] == GraphOf(v)[p];
      }
    }
  }

  lemma LongName(v: Vol, p: nat, ino: nat, name: Name)
    requires |name| > NAME_MAX
    ensures DirAdd(v, p, ino, name) == (v, Err(TooLarge))
  {
  }

  /** Why `mkdir` fails, in the order the code finds out. */
  ghost function MkdirError(v: Vol, c: Path): Option<FsError> {
    if c == [] then Some(NotFound)
    else
      var front := c[..|c| - 1];
      match Walk(GraphOf(v), front)
      case None => Some(LookupError(v, front))
      case Some(p) => if Walk(GraphOf(v), c).Some? then Some(Exists) else EnterError(v, p, c[|c| - 1])
  }

  /** Exactly these errors, and otherwise the lowest free inode. */
  lemma MkdirExactly(v: Vol, c: Path)
    requires Wf(v)
    ensures Gives(Mkdir(v, c).1, MkdirError(v, c))
    ensures Mkdir(v, c).1.Ok? ==> Mkdir(v, c).1 == AllocInode(v)
  {
    hide Contents, GraphOf, CreateIn, DirLookup, Wf, PassesFile, InodeLeft;
    if c != [] {
      var front := c[..|c| - 1];
      ResolveExactly(v, front);
      if Walk(GraphOf(v), front).Some? {
        var p := Walk(GraphOf(v), front).value;
        LookupIsFind(v, p, c[|c| - 1]);
        if DirLookup(v, p, c[|c| - 1]).Err? {
          CreateError(v, p, c, KIND_DIR);
        }
      }
    }
  }

  /** Why `write_file` fails, in the order the code finds out. */
  ghost function WriteError(v: Vol, c: Path, size: nat): Option<FsError> {
    if c == [] then Some(NotFound)
    else
      var front := c[..|c| - 1];
      match Walk(GraphOf(v), front)
      case None => Some(LookupError(v, front))
      case Some(p) =>
        match Walk(GraphOf(v), c)
        case Some(i) =>
          if !IsFile(v, i) then Some(WrongKind)
          else SizeError(size, ClearCount(v.bits) + v.inodes[i].BlocksUsed())
        case None =>
          if !IsDir(v, p) then Some(WrongKind)
          else if EnterError(v, p, c[|c| - 1]).Some? then EnterError(v, p, c[|c| - 1])
          else SizeError(size, ClearAfter(v, p))
  }

  /** Six blocks at most, and no more than there are. */
  function SizeError(size: nat, blocks: int): Option<FsError> {
    if size > 3072 then Some(TooLarge) else if BlocksFor(size) > blocks then Some(NoSpace) else None
  }

  lemma OverwriteError(v: Vol, ino: nat, d: seq<Byte>)
    requires Wf(v) && IsFile(v, ino)
    ensures Gives(Overwrite(v, ino, d).1, SizeError(|d|, ClearCount(v.bits) + v.inodes[ino].BlocksUsed()))
  {
    hide Contents, GraphOf, BlocksOk, WriteData, Exact, TreeLike, RefsOk, ClearCount;
    WriteDataCorrect(v, ino, d);
  }

  lemma NewFileError(v: Vol, p: nat, c: Path, d: seq<Byte>)
    requires FreePlace(v, p, c) && IsDir(v, p)
    ensures var made := CreateIn(v, p, c[|c| - 1], KIND_FILE);
            var r := if made.1.Ok? then Overwrite(made.0, made.1.value, d).1 else made.1;
            Gives(r, if EnterError(v, p, c[|c| - 1]).Some? then EnterError(v, p, c[|c| - 1])
                     else SizeError(|d|, ClearAfter(v, p)))
  {
    hide Contents, GraphOf, BlocksOk, CreateIn, Overwrite, ClearCount, ClearAfter, NodeOf, InodeLeft, Lost;
    var name := c[|c| - 1];
    PlaceFacts(v, p, c);
    CreateError(v, p, c, KIND_FILE);
    CreateCorrect(v, p, c, KIND_FILE);
    var made := CreateIn(v, p, name, KIND_FILE);
    if made.1.Ok? {
      CreateExactly(v, p, name, KIND_FILE);
      NewFileEmpty(v, p, name);
      OverwriteError(made.0, made.1.value, d);
    }
  }

  lemma WriteFileExactly(v: Vol, c: Path, d: seq<Byte>)
    requires Wf(v)
    ensures Gives(WriteFile(v, c, d).1, WriteError(v, c, |d|))
  {
    hide Contents, GraphOf, CreateIn, DirLookup, Wf, PassesFile, InodeLeft, Overwrite, ClearAfter, ClearCount;
    if c != [] {
      var front, name := c[..|c| - 1], c[|c| - 1];
      ResolveExactly(v, front);
      if Walk(GraphOf(v), front).Some? {
        var p := Walk(GraphOf(v), front).value;
        ResolveIsWalk(v, front);
        LookupIsFind(v, p, name);
        match DirLookup(v, p, name) {
          case Ok(i) =>
            ResolveIsWalk(v, c);
            OverwriteCorrect(v, i, c, d);
            if IsFile(v, i) {
              OverwriteError(v, i, d);
            }
          case Err(e) =>
            if IsDir(v, p) {
              NewFileError(v, p, c, d);
            }
        }
      }
    }
  }
}
