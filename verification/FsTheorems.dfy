/** What CIBOSFS operations do to the tree of names (cibos-kernel/src/fs.rs): each
    changes the path it names and nothing else, for every growth and shrink case, and
    keeps the volume well formed even when it fails. */
module FsTheorems {
  import opened LittleEndian
  import opened Volume
  import opened Directories
  import opened FileSystem
  import opened Options

  // ---- claiming a free inode -----------------------------------------------

  lemma {:induction false} NeverReached(g: Graph, ino: nat, q: Path)
    requires TreeLike(g) && ino != ROOT
    requires forall d, i: nat {:trigger Slot(g, d, i)} :: Slot(g, d, i) ==> g[d][i].ino != ino
    ensures Walk(g, q) != Some(ino)
  {
    if q != [] && Walk(g, q[..|q| - 1]).Some? && FindIn(g, Walk(g, q[..|q| - 1]).value, q[|q| - 1]).Some? {
      var i := FoundSlot(g, Walk(g, q[..|q| - 1]).value, q[|q| - 1]);
    }
  }

  lemma {:induction false} NewDirUnseen(g: Graph, ino: nat, q: Path)
    requires TreeLike(g) && ino !in g
    requires forall d, i: nat {:trigger Slot(g, d, i)} :: Slot(g, d, i) ==> g[d][i].ino != ino
    ensures Walk(g[ino := []], q) == Walk(g, q)
  {
    if q != [] {
      NewDirUnseen(g, ino, q[..|q| - 1]);
      NeverReached(g, ino, q[..|q| - 1]);
    }
  }

  lemma NewDirTree(g: Graph, ino: nat)
    requires TreeLike(g) && ino !in g
    ensures TreeLike(g[ino := []])
    ensures forall d, i: nat {:trigger Slot(g[ino := []], d, i)} :: Slot(g[ino := []], d, i) ==>
              Slot(g, d, i) && d != ino
  {
    var g' := g[ino := []];
    forall d, i: nat | Slot(g', d, i)
      ensures Slot(g, d, i) && d != ino
    {
    }
    assert forall d, i: nat {:trigger Slot(g', d, i)} :: Slot(g', d, i) ==> Slot(g, d, i);
  }

  lemma Untouched(v: Vol, v1: Vol)
    requires v1.data == v.data && v1.dataStart == v.dataStart
    ensures forall n: Inode :: Contents(v1, n) == Contents(v, n)
  {
    hide ReadBlock;
    SameRegion(v, v1);
    forall n: Inode
      ensures Contents(v1, n) == Contents(v, n)
    {
      SameBlocks(v, v1, n, if n.BlocksUsed() < DIRECT_BLOCKS then n.BlocksUsed() else DIRECT_BLOCKS);
    }
  }

  /** Overwriting an inode that uses no blocks by one that uses no blocks. */
  lemma EmptyInodeSwap(v: Vol, ino: nat, kind: nat)
    requires BlocksOk(v) && ino < |v.inodes| && v.inodes[ino].size == 0 && kind <= KIND_DIR
    ensures var v1 := SetInode(v, ino, Inode(kind, 0, NO_BLOCKS));
            BlocksOk(v1) && (Exact(v) ==> Exact(v1))
  {
    var v1 := SetInode(v, ino, Inode(kind, 0, NO_BLOCKS));
    assert InodeOk(v, v.inodes[ino]);
    forall j: nat | j < |v1.inodes|
      ensures InodeOk(v1, v1.inodes[j])
    {
      assert InodeOk(v, v.inodes[j]);
    }
    forall i: nat, s: nat
      ensures InUse(v1.inodes, i, s) <==> InUse(v.inodes, i, s)
      ensures InUse(v.inodes, i, s) ==> v1.inodes[i] == v.inodes[i]
    {
    }
    if Exact(v) {
      forall b: nat | Marked(v1, b)
        ensures Used(v1.inodes, b)
      {
        assert Marked(v, b);
        var i: nat, s: nat :| InUse(v.inodes, i, s) && v.inodes[i].direct[s] == b;
        assert InUse(v1.inodes, i, s);
      }
    }
  }

  /** A claimed inode is not visible to anyone yet. */
  ghost predicate Claimed(v: Vol, v1: Vol, ino: nat, kind: nat) {
    && Wf(v1) && v1 == SetInode(v, ino, Inode(kind, 0, NO_BLOCKS)) && ino < |v.inodes|
    && Detached(GraphOf(v1), ino) && (forall q: Path :: NodeAt(v1, q) == NodeAt(v, q))
    && (forall q: Path :: Walk(GraphOf(v1), q) == Walk(GraphOf(v), q))
    && (forall d: nat :: IsDir(v, d) ==> d != ino && IsDir(v1, d) && GraphOf(v1)[d] == GraphOf(v)[d])
    && (Exact(v) ==> Exact(v1))
  }

  lemma FreeIsUnreferenced(v: Vol, ino: nat)
    requires Wf(v) && ino < |v.inodes| && v.inodes[ino].kind == KIND_FREE
    ensures ino !in GraphOf(v) && v.inodes[ino].size == 0
    ensures forall d, i: nat {:trigger Slot(GraphOf(v), d, i)} :: Slot(GraphOf(v), d, i) ==> GraphOf(v)[d][i].ino != ino
  {
    hide Contents, DecodeDir;
    assert InodeOk(v, v.inodes[ino]);
  }

  lemma ClaimGraph(v: Vol, ino: nat, kind: nat)
    requires ino < |v.inodes| && v.inodes[ino].kind == KIND_FREE && kind in {KIND_FILE, KIND_DIR}
    ensures var v1 := SetInode(v, ino, Inode(kind, 0, NO_BLOCKS));
            GraphOf(v1) == if kind == KIND_DIR then GraphOf(v)[ino := []] else GraphOf(v)
  {
    hide DecodeDir;
    var v1 := SetInode(v, ino, Inode(kind, 0, NO_BLOCKS));
    Untouched(v, v1);
    NoEntries();
    assert Contents(v1, v1.inodes[ino]) == [];
  }

  lemma ClaimInode(v: Vol, ino: nat, kind: nat)
    requires Wf(v) && ino < |v.inodes| && v.inodes[ino].kind == KIND_FREE && kind in {KIND_FILE, KIND_DIR}
    ensures Claimed(v, SetInode(v, ino, Inode(kind, 0, NO_BLOCKS)), ino, kind)
  {
    hide Contents, DecodeDir, BlocksOk, Exact, Walk;
    var v1 := SetInode(v, ino, Inode(kind, 0, NO_BLOCKS));
    var g: Graph, g1: Graph := GraphOf(v), GraphOf(v1);
    RootIsDir(v);
    FreeIsUnreferenced(v, ino);
    EmptyInodeSwap(v, ino, kind);
    ClaimGraph(v, ino, kind);
    if kind == KIND_DIR {
      NewDirTree(g, ino);
    }
    Untouched(v, v1);
    forall q: Path
      ensures Walk(g1, q) == Walk(g, q) && NodeAt(v1, q) == NodeAt(v, q)
    {
      if kind == KIND_DIR {
        NewDirUnseen(g, ino, q);
      }
      NeverReached(g, ino, q);
    }
    forall d, i: nat | Slot(g1, d, i)
      ensures g1[d][i].ino != ino && g1[d][i].ino < |v1.inodes| && v1.inodes[g1[d][i].ino].kind != KIND_FREE
    {
      assert Slot(g, d, i);
    }
  }

  // ---- rewriting one inode -------------------------------------------------

  /** What replacing the contents of inode `ino` by `d` does to the name tree. */
  ghost predicate RewroteInode(v: Vol, ino: nat, d: seq<Byte>, v1: Vol, r: Result<Inode>)
    requires ino < |v.inodes|
  {
    && BlocksOk(v1) && |v1.inodes| == |v.inodes|
    && (forall i: nat :: i < |v.inodes| ==> v1.inodes[i].kind == v.inodes[i].kind)
    && (forall i: nat :: i < |v.inodes| && (i != ino || r.Err?) ==>
          Contents(v1, v1.inodes[i]) == Contents(v, v.inodes[i]))
    && (r.Ok? ==> Contents(v1, v1.inodes[ino]) == d)
    && (Exact(v) && r != Err(NoSpace) ==> Exact(v1))
  }

  lemma Rewrite(v: Vol, ino: nat, d: seq<Byte>)
    requires BlocksOk(v) && ino < |v.inodes| && v.inodes[ino].kind != KIND_FREE
    ensures var (v1, r) := WriteData(v, ino, v.inodes[ino], d);
            RewroteInode(v, ino, d, v1, r)
  {
    hide Contents, WriteData, BlocksOk, Exact, ClearCount;
    WriteDataCorrect(v, ino, d);
    var (v1, r) := WriteData(v, ino, v.inodes[ino], d);
    if r.Err? {
      Untouched(v, v1);
    }
  }

  lemma RewriteGraph(v: Vol, ino: nat, d: seq<Byte>, v1: Vol, r: Result<Inode>)
    requires ino < |v.inodes| && RewroteInode(v, ino, d, v1, r)
    ensures GraphOf(v1) == if r.Ok? && IsDir(v, ino) then GraphOf(v)[ino := DecodeDir(d)] else GraphOf(v)
  {
    hide Contents, DecodeDir, BlocksOk, Exact;
  }

  /** Replacing a file's bytes changes the node of that file's path only. */
  lemma RewriteFile(v: Vol, ino: nat, d: seq<Byte>, v1: Vol, r: Result<Inode>, c: Path)
    requires Wf(v) && IsFile(v, ino) && RewroteInode(v, ino, d, v1, r) && Walk(GraphOf(v), c) == Some(ino)
    ensures Wf(v1)
    ensures forall q: Path :: NodeAt(v1, q) == if q == c && r.Ok? then Some(FileNode(d)) else NodeAt(v, q)
  {
    hide Contents, DecodeDir, BlocksOk, Exact, Walk, TreeLike;
    RewriteGraph(v, ino, d, v1, r);
    forall q: Path
      ensures NodeAt(v1, q) == if q == c && r.Ok? then Some(FileNode(d)) else NodeAt(v, q)
    {
      var w := Walk(GraphOf(v), q);
      if w == Some(ino) {
        UniquePath(GraphOf(v), q, c);
      } else if w.Some? {
        ResolveIsWalk(v, q);
      }
    }
  }

  /** Replacing a directory's entries: the tree of `g[d := es]` over the same inodes. */
  lemma RewriteDir(v: Vol, d: nat, es: seq<DirEnt>, v1: Vol, r: Result<Inode>)
    requires BlocksOk(v) && |v.inodes| <= INODE_LIMIT && IsDir(v, d) && EntsOk(es)
             && RewroteInode(v, d, EncodeDir(es), v1, r)
    ensures GraphOf(v1) == if r.Ok? then GraphOf(v)[d := es] else GraphOf(v)
    ensures forall i: nat :: i < |v.inodes| ==> NodeOf(v1, i) == NodeOf(v, i)
  {
    hide Contents, DecodeDir, EncodeDir, BlocksOk, Exact;
    DecodeEncodeDir(es);
    RewriteGraph(v, d, EncodeDir(es), v1, r);
  }

  // ---- creating ------------------------------------------------------------

  /** Entering claimed inode `ino` as `name` into directory `p` at path `c`. */
  ghost predicate Enterable(v: Vol, p: nat, ino: nat, name: Name, c: Path) {
    && Wf(v) && IsDir(v, p) && p != ino && 0 < ino < |v.inodes| && v.inodes[ino].kind != KIND_FREE
    && Detached(GraphOf(v), ino) && Find(GraphOf(v)[p], name).None?
    && c != [] && Walk(GraphOf(v), c[..|c| - 1]) == Some(p) && c[|c| - 1] == name
  }

  ghost predicate Entered(v: Vol, ino: nat, c: Path, v1: Vol, r: Result<Inode>) {
    && Wf(v1) && |v1.inodes| == |v.inodes| && (forall i: nat :: i < |v.inodes| ==> NodeOf(v1, i) == NodeOf(v, i))
    && (forall i: nat :: i < |v.inodes| ==> v1.inodes[i].kind == v.inodes[i].kind)
    && (forall q: Path :: Walk(GraphOf(v1), q) == if r.Ok? && q == c then Some(ino) else Walk(GraphOf(v), q))
    && (Exact(v) && r != Err(NoSpace) ==> Exact(v1))
    && (r.Err? ==> r.error in {NoSpace, TooLarge})
  }

  lemma EnterEntry(v: Vol, p: nat, e: DirEnt, c: Path, v1: Vol, r: Result<Inode>)
    requires Enterable(v, p, e.ino, e.name, c) && EntOk(e) && EntsOk(GraphOf(v)[p])
    requires RewroteInode(v, p, EncodeDir(GraphOf(v)[p] + [e]), v1, r) && (r.Err? ==> r.error in {NoSpace, TooLarge})
    ensures Entered(v, e.ino, c, v1, r)
  {
    hide Contents, BlocksOk, Exact, EncodeDir, DecodeDir, GraphOf, TreeLike, NodeOf, Walk, Find;
    var g: Graph := GraphOf(v);
    var es := g[p] + [e];
    RewriteDir(v, p, es, v1, r);
    AddedTree(g, p, e);
    EnterNameWalks(g, g[p := es], p, e, c);
    if r.Ok? {
      EnteredRefs(v, v1, p, e);
    }
  }

  lemma EnterName(v: Vol, p: nat, ino: nat, name: Name, c: Path)
    requires Enterable(v, p, ino, name, c)
    ensures var (v1, r) := DirAdd(v, p, ino, name);
            Entered(v, ino, c, v1, r) && (|name| > NAME_MAX ==> r == Err(TooLarge))
  {
    hide Contents, WriteData, BlocksOk, Exact, EncodeDir, DecodeDir, TreeLike, GraphOf, RewroteInode, NodeOf;
    if |name| <= NAME_MAX {
      var es := GraphOf(v)[p] + [DirEnt(ino, name)];
      LookupReads(v, p);
      Rewrite(v, p, EncodeDir(es));
      WriteErrors(v, p, EncodeDir(es));
      var (v1, r) := WriteData(v, p, v.inodes[p], EncodeDir(es));
      EnterEntry(v, p, DirEnt(ino, name), c, v1, r);
    }
  }

  lemma LookupReads(v: Vol, p: nat)
    requires Wf(v) && IsDir(v, p)
    ensures ReadDirEntries(v, p) == Ok(GraphOf(v)[p]) && EntsOk(GraphOf(v)[p])
  {
    hide Contents, DecodeDir, BlocksOk, TreeLike;
    var g: Graph := GraphOf(v);
    forall i: nat | i < |g[p]|
      ensures g[p][i].ino < |v.inodes|
    {
      assert Slot(g, p, i);
    }
  }

  lemma WriteErrors(v: Vol, ino: nat, d: seq<Byte>)
    ensures var n := if ino < |v.inodes| then v.inodes[ino] else Inode(0, 0, NO_BLOCKS);
            var r := WriteData(v, ino, n, d).1;
            r.Err? ==> r.error in {NoSpace, TooLarge}
  {
  }

  lemma EnterNameWalks(g: Graph, g': Graph, p: nat, e: DirEnt, c: Path)
    requires p in g && g' == g[p := g[p] + [e]]
    requires TreeLike(g) && p in g && p != e.ino && Detached(g, e.ino) && e.ino != ROOT && Find(g[p], e.name).None?
    requires c != [] && Walk(g, c[..|c| - 1]) == Some(p) && c[|c| - 1] == e.name
    ensures forall q: Path :: Walk(g', q) == if q == c then Some(e.ino) else Walk(g, q)
  {
    forall q: Path
      ensures Walk(g', q) == if q == c then Some(e.ino) else Walk(g, q)
    {
      AddedPath(g, p, e, c, q);
    }
  }

  lemma EnteredRefs(v: Vol, v1: Vol, p: nat, e: DirEnt)
    requires RefsOk(v, GraphOf(v)) && p in GraphOf(v) && GraphOf(v1) == GraphOf(v)[p := GraphOf(v)[p] + [e]]
    requires |v1.inodes| == |v.inodes| && (forall i: nat :: i < |v.inodes| ==> v1.inodes[i].kind == v.inodes[i].kind)
    requires e.ino < |v.inodes| && v.inodes[e.ino].kind != KIND_FREE
    ensures RefsOk(v1, GraphOf(v1))
  {
    hide Contents, DecodeDir;
    var g: Graph, g1: Graph := GraphOf(v), GraphOf(v1);
    forall d, i: nat | Slot(g1, d, i)
      ensures g1[d][i].ino < |v1.inodes| && v1.inodes[g1[d][i].ino].kind != KIND_FREE
    {
      if !(d == p && i == |g[p]|) {
        assert Slot(g, d, i) && g1[d][i] == g[d][i];
      }
    }
  }

  /** `q` is where a new node named by path `c` may go: its parent resolves to `p`, and
      if `p` is a directory the name is not taken. */
  ghost predicate FreePlace(v: Vol, p: nat, c: Path) {
    && Wf(v) && c != [] && Walk(GraphOf(v), c[..|c| - 1]) == Some(p) && FindIn(GraphOf(v), p, c[|c| - 1]).None?
  }

  function NewNode(kind: nat): Node {
    if kind == KIND_DIR then DirNode else FileNode([])
  }

  /** Creating a node at `c`: on success that node appears and nothing else changes, on
      failure nothing visible changes. */
  ghost predicate Created(v: Vol, c: Path, kind: nat, v1: Vol, r: Result<nat>) {
    && Wf(v1)
    && (forall q: Path :: NodeAt(v1, q) == if r.Ok? && q == c then Some(NewNode(kind)) else NodeAt(v, q))
    && (r.Ok? ==> Walk(GraphOf(v1), c) == Some(r.value) && r.value < |v1.inodes| && v1.inodes[r.value].kind == kind)
    && (Exact(v) && r != Err(NoSpace) ==> Exact(v1))
  }

  lemma PlaceFacts(v: Vol, p: nat, c: Path)
    requires FreePlace(v, p, c)
    ensures p < |v.inodes| && v.inodes[p].kind != KIND_FREE && NodeAt(v, c).None?
  {
    hide Contents, BlocksOk, GraphOf;
    ResolveIsWalk(v, c[..|c| - 1]);
  }

  lemma CreateCorrect(v: Vol, p: nat, c: Path, kind: nat)
    requires FreePlace(v, p, c) && kind in {KIND_FILE, KIND_DIR}
    ensures var (v1, r) := CreateIn(v, p, c[|c| - 1], kind);
            Created(v, c, kind, v1, r)
  {
    hide Contents, BlocksOk, Exact, GraphOf, Walk, DirAdd, TreeLike, Detached, RefsOk, NodeOf;
    var name := c[|c| - 1];
    PlaceFacts(v, p, c);
    FirstFreeSpec(v, 1);
    var a := AllocInode(v);
    if a.Ok? {
      var ino := a.value;
      var v0 := SetInode(v, ino, Inode(kind, 0, NO_BLOCKS));
      ClaimInode(v, ino, kind);
      if IsDir(v, p) {
        EnterName(v0, p, ino, name, c);
        CreatedAfterEntering(v, v0, ino, kind, c, DirAdd(v0, p, ino, name));
      } else {
        NotADirectory(v0, p, ino, name);
      }
    }
  }

  lemma NotADirectory(v: Vol, p: nat, ino: nat, name: Name)
    requires p < |v.inodes| && !IsDir(v, p)
    ensures DirAdd(v, p, ino, name) == (v, Err(if |name| > NAME_MAX then TooLarge else WrongKind))
  {
  }

  lemma CreatedAfterEntering(v: Vol, v0: Vol, ino: nat, kind: nat, c: Path, res: (Vol, Result<Inode>))
    requires Claimed(v, v0, ino, kind) && kind in {KIND_FILE, KIND_DIR} && Entered(v0, ino, c, res.0, res.1)
    ensures Created(v, c, kind, res.0, if res.1.Ok? then Ok(ino) else Err(res.1.error))
  {
    hide BlocksOk, Exact, GraphOf, Walk, Wf, Detached;
    var (v1, r) := res;
    assert NodeOf(v0, ino) == NewNode(kind);
    forall q: Path
      ensures NodeAt(v1, q) == if r.Ok? && q == c then Some(NewNode(kind)) else NodeAt(v, q)
    {
      var w := Walk(GraphOf(v0), q);
      if w.Some? {
        ResolveIsWalk(v0, q);
        assert NodeOf(v1, w.value) == NodeOf(v0, w.value);
      }
      assert NodeAt(v0, q) == NodeAt(v, q);
    }
  }

  // ---- mkdir and write_file ------------------------------------------------

  /** `mkdir`: on success exactly one directory node appears; on any error nothing
      visible changes. */
  lemma MkdirCorrect(v: Vol, c: Path)
    requires Wf(v)
    ensures var (v1, r) := Mkdir(v, c);
            && Wf(v1)
            && (forall q: Path :: NodeAt(v1, q) == if r.Ok? && q == c then Some(DirNode) else NodeAt(v, q))
            && (r.Ok? ==> NodeAt(v, c).None?)
            && (c != [] && NodeAt(v, c).Some? ==> r == Err(Exists))
            && (Exact(v) && r != Err(NoSpace) ==> Exact(v1))
  {
    hide Contents, BlocksOk, Exact, GraphOf, CreateIn, DirLookup, Wf, NodeOf;
    if c != [] {
      ResolveIsWalk(v, c[..|c| - 1]);
      var p := Resolve(v, c[..|c| - 1]);
      if p.Ok? {
        LookupIsFind(v, p.value, c[|c| - 1]);
        if DirLookup(v, p.value, c[|c| - 1]).Err? {
          CreateCorrect(v, p.value, c, KIND_DIR);
        }
      }
    }
  }

  /** Replacing the bytes of the file at `c`. */
  lemma OverwriteCorrect(v: Vol, ino: nat, c: Path, d: seq<Byte>)
    requires Wf(v) && ino < |v.inodes| && Walk(GraphOf(v), c) == Some(ino)
    ensures var (v1, r) := Overwrite(v, ino, d);
            && Wf(v1)
            && (forall q: Path :: NodeAt(v1, q) == if r.Ok? && q == c then Some(FileNode(d)) else NodeAt(v, q))
            && (!IsFile(v, ino) ==> r == Err(WrongKind))
            && (IsFile(v, ino) ==> (r.Ok? <==> |d| <= MAX_FILE_SIZE && Fits(v, v.inodes[ino], d)))
            && (IsFile(v, ino) && |d| > MAX_FILE_SIZE ==> r == Err(TooLarge))
            && (Exact(v) && r != Err(NoSpace) ==> Exact(v1))
  {
    hide Contents, Exact, GraphOf, Walk, WriteData, NodeOf, Fits, RewroteInode, NodeAt, TreeLike;
    if IsFile(v, ino) {
      WriteDataCorrect(v, ino, d);
      Rewrite(v, ino, d);
      var (v1, r) := WriteData(v, ino, v.inodes[ino], d);
      RewriteFile(v, ino, d, v1, r, c);
    }
  }

  /** What `write_file(c, d)` does: on success `c` is a file holding `d` and every other
      path is as before; on an error every path that named something still names the
      same thing, and at most an empty new file has appeared at `c`. */
  ghost predicate FileWritten(v: Vol, c: Path, d: seq<Byte>, v1: Vol, r: Result<nat>) {
    && Wf(v1)
    && (forall q: Path :: q != c ==> NodeAt(v1, q) == NodeAt(v, q))
    && (r.Ok? ==> NodeAt(v1, c) == Some(FileNode(d)))
    && (r.Err? ==> NodeAt(v1, c) == NodeAt(v, c) || (NodeAt(v, c).None? && NodeAt(v1, c) == Some(FileNode([]))))
    && (Exact(v) && r != Err(NoSpace) ==> Exact(v1))
  }

  lemma WriteFileCorrect(v: Vol, c: Path, d: seq<Byte>)
    requires Wf(v)
    ensures var (v1, r) := WriteFile(v, c, d);
            && FileWritten(v, c, d, v1, r)
            && (c != [] && NodeAt(v, c) == Some(DirNode) ==> r == Err(WrongKind))
            && (|d| > MAX_FILE_SIZE ==> r.Err?)
  {
    hide Contents, BlocksOk, Exact, GraphOf, CreateIn, DirLookup, Overwrite, Wf, Fits;
    if c != [] {
      ResolveIsWalk(v, c[..|c| - 1]);
      var p := Resolve(v, c[..|c| - 1]);
      if p.Ok? {
        var name := c[|c| - 1];
        LookupIsFind(v, p.value, name);
        match DirLookup(v, p.value, name) {
          case Ok(existing) =>
            ResolveIsWalk(v, c);
            OverwriteCorrect(v, existing, c, d);
          case Err(e) =>
            if e == NotFound {
              CreateCorrect(v, p.value, c, KIND_FILE);
              var (v1, made) := CreateIn(v, p.value, name, KIND_FILE);
              if made.Ok? {
                OverwriteCorrect(v1, made.value, c, d);
              }
            }
        }
      }
    }
  }

  /** Writing then reading: the bytes come back. */
  lemma WriteThenRead(v: Vol, c: Path, d: seq<Byte>)
    requires Wf(v) && WriteFile(v, c, d).1.Ok?
    ensures ReadFile(WriteFile(v, c, d).0, c) == Ok(d)
    ensures forall q: Path :: q != c && ReadFile(v, q).Ok? ==> ReadFile(WriteFile(v, c, d).0, q) == ReadFile(v, q)
  {
    hide Wf, NodeAt, ReadFile, WriteFile;
    WriteFileCorrect(v, c, d);
    var v1 := WriteFile(v, c, d).0;
    ReadFileIsNode(v1, c);
    forall q: Path | q != c && ReadFile(v, q).Ok?
      ensures ReadFile(v1, q) == ReadFile(v, q)
    {
      ReadFileIsNode(v, q);
      ReadFileIsNode(v1, q);
    }
  }

  // ---- remove_file ---------------------------------------------------------

  /** Freeing a file's blocks and inode leaves every other inode as it was. */
  ghost predicate Discarded(v: Vol, ino: nat, v1: Vol)
    requires ino < |v.inodes|
  {
    && BlocksOk(v1) && v1.data == v.data && v1.dataStart == v.dataStart
    && v1.inodes == v.inodes[ino := Inode(KIND_FREE, 0, NO_BLOCKS)]
    && (forall b: nat :: Marked(v1, b) <==> Marked(v, b) && !Holds(v.inodes[ino], b))
    && (Exact(v) ==> Exact(v1))
  }

  lemma DiscardFile(v: Vol, ino: nat)
    requires BlocksOk(v) && ino < |v.inodes|
    ensures Discarded(v, ino, Discard(v, ino))
  {
    hide FreeSlots, ReadBlock;
    var n := v.inodes[ino];
    assert InodeOk(v, n);
    SlotsDistinct(v, ino);
    FreeSlotsSpec(v, n.direct, 0, n.BlocksUsed());
    var v1 := Discard(v, ino);
    var vf := FreeSlots(v, n.direct, 0, n.BlocksUsed()).0;
    SameMarks(vf, v1);
    forall i: nat, s: nat | InUse(v1.inodes, i, s)
      ensures i != ino && InUse(v.inodes, i, s) && !Holds(n, v.inodes[i].direct[s])
    {
      NotHeld(v, ino, i, s);
    }
    forall j: nat | j < |v1.inodes|
      ensures InodeOk(v1, v1.inodes[j])
    {
      assert InodeOk(v, v.inodes[j]);
      if j != ino {
        forall s: nat | s < v.inodes[j].BlocksUsed()
          ensures Marked(v1, v.inodes[j].direct[s])
        {
          assert InUse(v1.inodes, j, s);
        }
      }
    }
    if Exact(v) {
      DiscardExact(v, ino, v1);
    }
  }

  lemma NotHeld(v: Vol, ino: nat, i: nat, s: nat)
    requires BlocksOk(v) && ino < |v.inodes| && InUse(v.inodes[ino := Inode(KIND_FREE, 0, NO_BLOCKS)], i, s)
    ensures i != ino && InUse(v.inodes, i, s) && !Holds(v.inodes[ino], v.inodes[i].direct[s])
  {
    var n := v.inodes[ino];
    assert i != ino;
    assert InUse(v.inodes, i, s);
    forall t: nat | t < n.BlocksUsed() && t < DIRECT_BLOCKS
      ensures n.direct[t] != v.inodes[i].direct[s]
    {
      assert InUse(v.inodes, ino, t);
    }
  }

  lemma DiscardExact(v: Vol, ino: nat, v1: Vol)
    requires BlocksOk(v) && ino < |v.inodes| && Exact(v) && v1.inodes == v.inodes[ino := Inode(KIND_FREE, 0, NO_BLOCKS)]
    requires forall b: nat :: Marked(v1, b) <==> Marked(v, b) && !Holds(v.inodes[ino], b)
    ensures Exact(v1)
  {
    forall b: nat | Marked(v1, b)
      ensures Used(v1.inodes, b)
    {
      assert Used(v.inodes, b);
      var i: nat, s: nat :| InUse(v.inodes, i, s) && v.inodes[i].direct[s] == b;
      assert i != ino;
      assert InUse(v1.inodes, i, s);
    }
  }

  lemma DiscardGraph(v: Vol, ino: nat, v1: Vol)
    requires Wf(v) && IsFile(v, ino) && Discarded(v, ino, v1)
    ensures GraphOf(v1) == GraphOf(v)
    ensures forall i: nat :: i < |v.inodes| && i != ino ==> NodeOf(v1, i) == NodeOf(v, i)
  {
    hide Contents, DecodeDir, BlocksOk, TreeLike, Exact;
    Untouched(v, v1);
  }

  /** Dropping an entry never needs another block. */
  lemma ShrunkFits(v: Vol, d: nat, es: seq<DirEnt>)
    requires BlocksOk(v) && d < |v.inodes| && NamesFit(es) && |es| <= |EntriesOf(v, d)|
    ensures |EncodeDir(es)| <= MAX_FILE_SIZE && Fits(v, v.inodes[d], EncodeDir(es))
    ensures BlocksFor(|EncodeDir(es)|) <= v.inodes[d].BlocksUsed() <= DIRECT_BLOCKS
  {
    hide EncodeDir, DecodeDir, ReadBlock;
    var n := v.inodes[d];
    assert InodeOk(v, n);
    ContentsLength(v, n, n.BlocksUsed());
  }

  lemma RemovedRefs(v: Vol, p: nat, name: Name, ino: nat, v1: Vol)
    requires TreeLike(GraphOf(v)) && RefsOk(v, GraphOf(v)) && p in GraphOf(v) && Find(GraphOf(v)[p], name) == Some(ino)
    requires GraphOf(v1) == GraphOf(v)[p := Without(GraphOf(v)[p], name)] && |v1.inodes| == |v.inodes|
    requires forall i: nat :: i < |v.inodes| && i != ino ==> v1.inodes[i].kind == v.inodes[i].kind
    ensures RefsOk(v1, GraphOf(v1))
  {
    hide Contents, DecodeDir, GraphOf;
    var g: Graph, g1: Graph := GraphOf(v), GraphOf(v1);
    var k := FoundSlot(g, p, name);
    forall d, i: nat | Slot(g1, d, i)
      ensures g1[d][i].ino < |v1.inodes| && v1.inodes[g1[d][i].ino].kind != KIND_FREE
    {
      var l := StillThere(g, p, name, d, i);
      assert Slot(g, d, l);
    }
  }

  lemma RemovedWalks(g: Graph, g': Graph, p: nat, name: Name, c: Path)
    requires p in g && g' == g[p := Without(g[p], name)]
    requires TreeLike(g) && c != [] && Walk(g, c[..|c| - 1]) == Some(p) && c[|c| - 1] == name
    requires Walk(g, c).Some? && Walk(g, c).value !in g
    ensures forall q: Path :: Walk(g', q) == if q == c then None else Walk(g, q)
  {
    forall q: Path
      ensures Walk(g', q) == if q == c then None else Walk(g, q)
    {
      RemovedPath(g, p, name, c, q);
    }
  }

  /** Unlinking after the file was discarded: it succeeds, and the directory holds the
      other entries. */
  lemma UnlinkCorrect(v: Vol, p: nat, name: Name, ino: nat, v0: Vol)
    requires Wf(v) && IsDir(v, p) && IsFile(v, ino) && Discarded(v, ino, v0) && Find(GraphOf(v)[p], name) == Some(ino)
    ensures var es := Without(GraphOf(v)[p], name);
            var (v1, r) := DirRemove(v0, p, name);
            && EntsOk(es) && r.Ok? && RewroteInode(v0, p, EncodeDir(es), v1, r)
            && (forall b: nat :: Marked(v1, b) <==>
                  (Marked(v0, b) && !Holds(v0.inodes[p], b)) || Holds(v1.inodes[p], b))
            && (forall b: nat :: Holds(v1.inodes[p], b) ==> Holds(v0.inodes[p], b))
  {
    hide Contents, BlocksOk, Exact, EncodeDir, DecodeDir, GraphOf, TreeLike, WriteData, Marked, Holds, Fits;
    DiscardGraph(v, ino, v0);
    LookupReads(v, p);
    SameEntries(v, v0, p);
    var es := Without(GraphOf(v)[p], name);
    WithoutOk(GraphOf(v)[p], name);
    NamesOf(v, p);
    WithoutLength(GraphOf(v)[p], name);
    ShrunkFits(v0, p, es);
    WriteDataCorrect(v0, p, EncodeDir(es));
    Rewrite(v0, p, EncodeDir(es));
    ShrinkReuses(v0, p, EncodeDir(es));
  }

  lemma NamesOf(v: Vol, p: nat)
    requires Wf(v) && IsDir(v, p)
    ensures UniqueNames(GraphOf(v)[p])
  {
    hide Contents, DecodeDir, BlocksOk;
  }

  lemma SameEntries(v: Vol, v0: Vol, p: nat)
    requires IsDir(v, p) && IsDir(v0, p) && GraphOf(v0) == GraphOf(v) && ReadDirEntries(v, p).Ok?
             && |v0.inodes| == |v.inodes|
    ensures ReadDirEntries(v0, p) == Ok(GraphOf(v)[p]) && EntriesOf(v0, p) == GraphOf(v)[p]
  {
    hide Contents, DecodeDir;
    assert GraphOf(v0)[p] == EntriesOf(v0, p) && GraphOf(v)[p] == EntriesOf(v, p);
  }

  /** The marks lost are those of the file's blocks and of the blocks its directory gave up. */
  ghost predicate FreedExactly(v: Vol, ino: nat, p: nat, v1: Vol)
    requires ino < |v.inodes| && p < |v.inodes| && p < |v1.inodes|
  {
    forall b: nat :: Marked(v1, b) <==>
      Marked(v, b) && !Holds(v.inodes[ino], b) && (Holds(v.inodes[p], b) ==> Holds(v1.inodes[p], b))
  }

  lemma MarksFreed(v: Vol, ino: nat, p: nat, v0: Vol, v1: Vol)
    requires BlocksOk(v) && ino < |v.inodes| && p < |v.inodes| && ino != p && Discarded(v, ino, v0) && p < |v1.inodes|
    requires forall b: nat :: Marked(v1, b) <==> (Marked(v0, b) && !Holds(v0.inodes[p], b)) || Holds(v1.inodes[p], b)
    requires forall b: nat :: Holds(v1.inodes[p], b) ==> Holds(v0.inodes[p], b)
    ensures FreedExactly(v, ino, p, v1)
  {
    hide Contents, Exact, Marked;
    forall b: nat | Holds(v.inodes[p], b)
      ensures Marked(v, b) && !Holds(v.inodes[ino], b)
    {
      HeldIsMarked(v, p, ino, b);
    }
  }

  lemma HeldIsMarked(v: Vol, p: nat, ino: nat, b: nat)
    requires BlocksOk(v) && ino < |v.inodes| && p < |v.inodes| && ino != p && Holds(v.inodes[p], b)
    ensures Marked(v, b) && !Holds(v.inodes[ino], b)
  {
    hide Contents, Exact, Marked;
    var s: nat :| s < v.inodes[p].BlocksUsed() && s < DIRECT_BLOCKS && v.inodes[p].direct[s] == b;
    assert InodeOk(v, v.inodes[p]) && InUse(v.inodes, p, s);
    forall t: nat | InUse(v.inodes, ino, t)
      ensures v.inodes[ino].direct[t] != b
    {
    }
    assert forall t: nat :: t < v.inodes[ino].BlocksUsed() && t < DIRECT_BLOCKS ==> InUse(v.inodes, ino, t);
  }

  /** `remove_file` succeeds exactly on paths naming a file; then that path names
      nothing, every other path is as before, and the marks lost are those of the
      file's blocks and of the blocks its directory gave up. Otherwise nothing changes. */
  lemma RemoveFileCorrect(v: Vol, c: Path)
    requires Wf(v)
    ensures var (v1, r) := RemoveFile(v, c);
            && Wf(v1)
            && (r.Ok? <==> NodeAt(v, c).Some? && NodeAt(v, c).value.FileNode?)
            && (r.Err? ==> v1 == v)
            && (c != [] && NodeAt(v, c) == Some(DirNode) ==> r == Err(WrongKind))
            && (forall q: Path :: NodeAt(v1, q) == if r.Ok? && q == c then None else NodeAt(v, q))
            && (Exact(v) ==> Exact(v1))
            && (r.Ok? ==>
                  var ino, p := Walk(GraphOf(v), c).value, Walk(GraphOf(v), c[..|c| - 1]).value;
                  ino < |v.inodes| && p < |v.inodes| && |v1.inodes| == |v.inodes| && FreedExactly(v, ino, p, v1))
  {
    hide Contents, BlocksOk, Exact, GraphOf, DirLookup, DirRemove, Discard, Wf, Marked, Holds;
    RootIsDir(v);
    ResolveIsWalk(v, c);
    if c != [] {
      ResolveIsWalk(v, c[..|c| - 1]);
      var parent := Resolve(v, c[..|c| - 1]);
      if parent.Ok? {
        LookupIsFind(v, parent.value, c[|c| - 1]);
        var ino := DirLookup(v, parent.value, c[|c| - 1]);
        if ino.Ok? && v.inodes[ino.value].kind == KIND_FILE {
          RemoveExisting(v, c, parent.value, ino.value);
        }
      }
    }
  }

  lemma RemoveExisting(v: Vol, c: Path, p: nat, ino: nat)
    requires Wf(v) && c != [] && Walk(GraphOf(v), c[..|c| - 1]) == Some(p)
             && FindIn(GraphOf(v), p, c[|c| - 1]) == Some(ino)
    requires IsFile(v, ino)
    ensures var (v1, r) := DirRemove(Discard(v, ino), p, c[|c| - 1]);
            && Wf(v1) && r.Ok? && |v1.inodes| == |v.inodes| && p < |v.inodes|
            && (forall q: Path :: NodeAt(v1, q) == if q == c then None else NodeAt(v, q))
            && (Exact(v) ==> Exact(v1))
            && FreedExactly(v, ino, p, v1)
  {
    hide Contents, Exact, GraphOf, DirRemove, Discard, Marked, Holds, NodeOf, EncodeDir, TreeLike, Find, Walk, BlocksOk;
    var name := c[|c| - 1];
    var g: Graph := GraphOf(v);
    assert IsDir(v, p);
    var v0 := Discard(v, ino);
    DiscardFile(v, ino);
    DiscardGraph(v, ino, v0);
    UnlinkCorrect(v, p, name, ino, v0);
    var es := Without(g[p], name);
    var (v1, r) := DirRemove(v0, p, name);
    RewriteDir(v0, p, es, v1, r);
    RemovedTree(g, p, name);
    RemovedRefs(v, p, name, ino, v1);
    StepWalk(g, c, p, name, ino);
    RemovedWalks(g, g[p := es], p, name, c);
    MarksFreed(v, ino, p, v0, v1);
    forall q: Path
      ensures NodeAt(v1, q) == if q == c then None else NodeAt(v, q)
    {
      var w := Walk(g, q);
      if q != c && w.Some? {
        ResolveIsWalk(v, q);
        if w.value == ino {
          UniquePath(g, q, c);
        }
      }
    }
  }

  lemma StepWalk(g: Graph, c: Path, p: nat, name: Name, ino: nat)
    requires c != [] && Walk(g, c[..|c| - 1]) == Some(p) && c[|c| - 1] == name && FindIn(g, p, name) == Some(ino)
    ensures Walk(g, c) == Some(ino) && Find(g[p], name) == Some(ino)
  {
  }
}
