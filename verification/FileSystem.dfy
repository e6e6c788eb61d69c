/** CIBOSFS operations on a volume (cibos-kernel/src/fs.rs) and what they do to the
    tree of names and byte strings that callers see. */
module FileSystem {
  import opened LittleEndian
  import opened Volume
  import opened Directories
  import opened Options

  // ---- directories of a volume ---------------------------------------------

  function ReadInode(v: Vol, ino: nat): Result<Inode> {
    if ino < |v.inodes| then Ok(v.inodes[ino]) else Err(NotFound)
  }

  predicate IsDir(v: Vol, ino: nat) {
    ino < |v.inodes| && v.inodes[ino].kind == KIND_DIR
  }

  predicate IsFile(v: Vol, ino: nat) {
    ino < |v.inodes| && v.inodes[ino].kind == KIND_FILE
  }

  function EntriesOf(v: Vol, d: nat): seq<DirEnt>
    requires d < |v.inodes|
  {
    DecodeDir(Contents(v, v.inodes[d]))
  }

  /** Every listed child has an inode. */
  predicate ChildrenExist(v: Vol, es: seq<DirEnt>) {
    forall i :: 0 <= i < |es| ==> es[i].ino < |v.inodes|
  }

  function ReadDirEntries(v: Vol, d: nat): Result<seq<DirEnt>> {
    if d >= |v.inodes| then Err(NotFound)
    else if v.inodes[d].kind != KIND_DIR then Err(WrongKind)
    else if ChildrenExist(v, EntriesOf(v, d)) then Ok(EntriesOf(v, d)) else Err(NotFound)
  }

  function DirLookup(v: Vol, d: nat, name: Name): Result<nat> {
    var es := ReadDirEntries(v, d);
    if es.Err? then Err(es.error)
    else
      var r := Find(es.value, name);
      if r.Some? then Ok(r.value) else Err(NotFound)
  }

  /** The inode a path resolves to. */
  function Resolve(v: Vol, q: Path): Result<nat> {
    if q == [] then Ok(ROOT)
    else
      var d := Resolve(v, q[..|q| - 1]);
      if d.Ok? then DirLookup(v, d.value, q[|q| - 1]) else d
  }

  function ReplaceEntries(v: Vol, d: nat, es: seq<DirEnt>): (Vol, Result<Inode>)
    requires NamesFit(es) && d < |v.inodes|
  {
    WriteData(v, d, v.inodes[d], EncodeDir(es))
  }

  function DirAdd(v: Vol, d: nat, ino: nat, name: Name): (Vol, Result<Inode>) {
    if |name| > NAME_MAX then (v, Err(TooLarge))
    else
      var es := ReadDirEntries(v, d);
      if es.Err? then (v, Err(es.error)) else ReplaceEntries(v, d, es.value + [DirEnt(ino, name)])
  }

  lemma WithoutOk(es: seq<DirEnt>, name: Name)
    requires EntsOk(es)
    ensures EntsOk(Without(es, name))
  {
    var r := Without(es, name);
    forall i | 0 <= i < |r|
      ensures EntOk(r[i])
    {
      assert r[i] in es;
    }
  }

  function DirRemove(v: Vol, d: nat, name: Name): (Vol, Result<Inode>) {
    var es := ReadDirEntries(v, d);
    if es.Err? then (v, Err(es.error))
    else if |Without(es.value, name)| == |es.value| then (v, Err(NotFound))
    else
      WithoutOk(es.value, name);
      ReplaceEntries(v, d, Without(es.value, name))
  }

  function FirstFreeInode(v: Vol, i: nat): Result<nat>
    decreases |v.inodes| - i
  {
    if i >= |v.inodes| then Err(NoSpace) else if v.inodes[i].kind == KIND_FREE then Ok(i) else FirstFreeInode(v, i + 1)
  }

  function AllocInode(v: Vol): Result<nat> {
    FirstFreeInode(v, 1)
  }

  lemma {:induction false} FirstFreeSpec(v: Vol, i: nat)
    ensures match FirstFreeInode(v, i)
            case Ok(ino) => i <= ino < |v.inodes| && v.inodes[ino].kind == KIND_FREE
            case Err(e) => e == NoSpace && forall k: nat :: i <= k < |v.inodes| ==> v.inodes[k].kind != KIND_FREE
    decreases |v.inodes| - i
  {
    if i < |v.inodes| && v.inodes[i].kind != KIND_FREE {
      FirstFreeSpec(v, i + 1);
    }
  }

  // ---- operations ----------------------------------------------------------

  /** A fresh inode of `kind`, entered into directory `parent` as `name`. */
  function CreateIn(v: Vol, parent: nat, name: Name, kind: nat): (Vol, Result<nat>)
  {
    var ino := AllocInode(v);
    if ino.Err? then (v, Err(ino.error))
    else
      var r := DirAdd(SetInode(v, ino.value, Inode(kind, 0, NO_BLOCKS)), parent, ino.value, name);
      (r.0, if r.1.Ok? then Ok(ino.value) else Err(r.1.error))
  }

  /** Replace the contents of an existing file inode. */
  function Overwrite(v: Vol, ino: nat, d: seq<Byte>): (Vol, Result<nat>)
  {
    if ino >= |v.inodes| then (v, Err(NotFound))
    else if v.inodes[ino].kind != KIND_FILE then (v, Err(WrongKind))
    else
      var r := WriteData(v, ino, v.inodes[ino], d);
      (r.0, if r.1.Ok? then Ok(ino) else Err(r.1.error))
  }

  function Mkdir(v: Vol, q: Path): (Vol, Result<nat>)
  {
    if q == [] then (v, Err(NotFound))
    else
      var parent := Resolve(v, q[..|q| - 1]);
      if parent.Err? then (v, parent)
      else if DirLookup(v, parent.value, q[|q| - 1]).Ok? then (v, Err(Exists))
      else CreateIn(v, parent.value, q[|q| - 1], KIND_DIR)
  }

  function WriteFile(v: Vol, q: Path, d: seq<Byte>): (Vol, Result<nat>) {
    if q == [] then (v, Err(NotFound))
    else
      var parent := Resolve(v, q[..|q| - 1]);
      if parent.Err? then (v, parent)
      else
        match DirLookup(v, parent.value, q[|q| - 1])
        case Ok(existing) => Overwrite(v, existing, d)
        case Err(e) =>
          if e != NotFound then (v, Err(e))
          else
            var c := CreateIn(v, parent.value, q[|q| - 1], KIND_FILE);
            if c.1.Ok? then Overwrite(c.0, c.1.value, d) else c
  }

  /** Free a file's blocks and inode. */
  function Discard(v: Vol, ino: nat): Vol
    requires ino < |v.inodes|
  {
    var n := v.inodes[ino];
    SetInode(FreeSlots(v, n.direct, 0, n.BlocksUsed()).0, ino, Inode(KIND_FREE, 0, NO_BLOCKS))
  }

  function RemoveFile(v: Vol, q: Path): (Vol, Result<Inode>) {
    if q == [] then (v, Err(NotFound))
    else
      var parent := Resolve(v, q[..|q| - 1]);
      if parent.Err? then (v, Err(parent.error))
      else
        var ino := DirLookup(v, parent.value, q[|q| - 1]);
        if ino.Err? then (v, Err(ino.error))
        else if ino.value >= |v.inodes| then (v, Err(NotFound))
        else if v.inodes[ino.value].kind != KIND_FILE then (v, Err(WrongKind))
        else DirRemove(Discard(v, ino.value), parent.value, q[|q| - 1])
  }

  function ReadFile(v: Vol, q: Path): Result<seq<Byte>> {
    var ino := Resolve(v, q);
    if ino.Err? then Err(ino.error)
    else if ino.value >= |v.inodes| then Err(NotFound)
    else if v.inodes[ino.value].kind != KIND_FILE then Err(WrongKind)
    else Ok(Contents(v, v.inodes[ino.value]))
  }

  // ---- the tree callers see ------------------------------------------------

  datatype Node = DirNode | FileNode(bytes: seq<Byte>)

  function GraphOf(v: Vol): (g: Graph)
    ensures forall d: nat :: d in g <==> IsDir(v, d)
  {
    map d: nat | 0 <= d < |v.inodes| && v.inodes[d].kind == KIND_DIR :: EntriesOf(v, d)
  }

  function NodeOf(v: Vol, i: nat): Node {
    if i < |v.inodes| && v.inodes[i].kind == KIND_FILE then FileNode(Contents(v, v.inodes[i])) else DirNode
  }

  /** What a path names: nothing, a directory, or a file with its bytes. */
  function NodeAt(v: Vol, q: Path): Option<Node> {
    match Walk(GraphOf(v), q)
    case None => None
    case Some(i) => Some(NodeOf(v, i))
  }

  /** Every entry leads to an existing inode in use. */
  ghost predicate RefsOk(v: Vol, g: Graph) {
    forall d, i: nat {:trigger Slot(g, d, i)} :: Slot(g, d, i) ==>
      g[d][i].ino < |v.inodes| && v.inodes[g[d][i].ino].kind != KIND_FREE
  }

  ghost predicate Wf(v: Vol) {
    BlocksOk(v) && |v.inodes| <= INODE_LIMIT && TreeLike(GraphOf(v)) && RefsOk(v, GraphOf(v))
  }

  // ---- resolution is walking the tree --------------------------------------

  lemma LookupIsFind(v: Vol, d: nat, name: Name)
    requires Wf(v)
    ensures DirLookup(v, d, name).Ok? <==> FindIn(GraphOf(v), d, name).Some?
    ensures DirLookup(v, d, name).Ok? ==> DirLookup(v, d, name).value == FindIn(GraphOf(v), d, name).value
    ensures IsDir(v, d) && FindIn(GraphOf(v), d, name).None? ==> DirLookup(v, d, name) == Err(NotFound)
    ensures d < |v.inodes| && !IsDir(v, d) ==> DirLookup(v, d, name) == Err(WrongKind)
  {
    hide Contents, DecodeDir, BlocksOk, TreeLike;
    if IsDir(v, d) {
      var g: Graph := GraphOf(v);
      forall i: nat | i < |g[d]|
        ensures g[d][i].ino < |v.inodes|
      {
        assert Slot(g, d, i);
      }
    }
  }

  lemma {:induction false} ResolveIsWalk(v: Vol, q: Path)
    requires Wf(v)
    ensures Resolve(v, q).Ok? <==> Walk(GraphOf(v), q).Some?
    ensures Resolve(v, q).Ok? ==> Resolve(v, q).value == Walk(GraphOf(v), q).value && Resolve(v, q).value < |v.inodes|
                                  && v.inodes[Resolve(v, q).value].kind != KIND_FREE
    ensures Resolve(v, q).Err? ==> Resolve(v, q).error in {NotFound, WrongKind}
    decreases |q|
  {
    hide Contents, DecodeDir, BlocksOk, GraphOf, DirLookup;
    var g: Graph := GraphOf(v);
    if q == [] {
      RootIsDir(v);
    } else {
      ResolveIsWalk(v, q[..|q| - 1]);
      var d := Resolve(v, q[..|q| - 1]);
      if d.Ok? {
        LookupIsFind(v, d.value, q[|q| - 1]);
        if FindIn(g, d.value, q[|q| - 1]).Some? {
          var i := FoundSlot(g, d.value, q[|q| - 1]);
        }
      }
    }
  }

  lemma RootIsDir(v: Vol)
    requires Wf(v)
    ensures IsDir(v, ROOT)
  {
    hide Contents, DecodeDir, BlocksOk;
  }

  /** Reading a path returns exactly the bytes of the file it names. */
  lemma ReadFileIsNode(v: Vol, q: Path)
    requires Wf(v)
    ensures ReadFile(v, q).Ok? <==> NodeAt(v, q).Some? && NodeAt(v, q).value.FileNode?
    ensures ReadFile(v, q).Ok? ==> NodeAt(v, q) == Some(FileNode(ReadFile(v, q).value))
    ensures NodeAt(v, q) == Some(DirNode) ==> ReadFile(v, q) == Err(WrongKind)
  {
    hide Contents, GraphOf, Wf;
    ResolveIsWalk(v, q);
  }
}
