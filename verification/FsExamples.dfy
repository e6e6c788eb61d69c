/** What failing CIBOSFS operations cost, shown on freshly formatted volumes
    (cibos-kernel/src/fs.rs). */
module FsExamples {
  import opened LittleEndian
  import opened Volume
  import opened Directories
  import opened FileSystem
  import opened FsTheorems
  import opened FsLosses
  import opened Options
  import CibosFs

  /** A formatted volume of at least `inodes` inodes and exactly `blocks` data blocks. */
  ghost predicate Formatted(v: Vol, inodes: nat, blocks: nat) {
    && CibosFs.Fresh(v) && |v.bits| == |v.data| == blocks && v.dataStart > 0 && inodes <= |v.inodes| <= INODE_LIMIT
  }

  lemma FormattedFacts(v: Vol, inodes: nat, blocks: nat)
    requires Formatted(v, inodes, blocks)
    ensures Wf(v) && Exact(v) && GraphOf(v) == map[ROOT := []] && IsDir(v, ROOT) && ClearCount(v.bits) == blocks
    ensures inodes > 1 ==> AllocInode(v) == Ok(1)
    ensures forall q: Path :: Walk(GraphOf(v), q) == if q == [] then Some(ROOT) else None
  {
    hide BlocksOk, Contents, DecodeDir, Wf, GraphOf, Exact;
    CibosFs.FreshIsWellFormed(v, []);
    AllClear(v.bits);
    RootIsDir(v);
    forall q: Path
      ensures Walk(GraphOf(v), q) == if q == [] then Some(ROOT) else None
    {
      EmptyTree(q);
    }
  }

  lemma {:induction false} AllClear(bits: seq<bool>)
    requires forall k :: 0 <= k < |bits| ==> !bits[k]
    ensures ClearCount(bits) == |bits|
  {
    if bits != [] {
      AllClear(bits[..|bits| - 1]);
    }
  }

  lemma {:induction false} EmptyTree(q: Path)
    ensures Walk(map[ROOT := []], q) == if q == [] then Some(ROOT) else None
  {
    if q != [] {
      EmptyTree(q[..|q| - 1]);
    }
  }

  /** Writing two blocks of data to a new file on a volume of two blocks: the directory
      takes one, the other is marked and then belongs to nobody. */
  lemma LeakExample(v: Vol, name: Name, d: seq<Byte>)
    requires Formatted(v, 2, 2) && |name| <= NAME_MAX && |d| == 2 * BLOCK_SIZE
    ensures Exact(v) && !Exact(WriteFile(v, [name], d).0)
  {
    hide Contents, DecodeDir, Wf, GraphOf, Exact, WriteFile, ClearCount, Lost, Walk;
    FormattedFacts(v, 2, 2);
    assert [name][..0] == [];
    WriteFileLosses(v, [name], d);
    ExactIsNoneLost(v);
    ExactIsNoneLost(WriteFile(v, [name], d).0);
  }

  /** A name of 24 bytes is refused and costs an inode. */
  lemma LongNameExample(v: Vol, blocks: nat, name: Name)
    requires Formatted(v, 2, blocks) && |name| == NAME_MAX + 1
    ensures Mkdir(v, [name]).1 == Err(TooLarge) && LosesInode(v, Mkdir(v, [name]).0)
  {
    hide Contents, DecodeDir, Wf, GraphOf, Exact, ClearCount, LosesInode, Walk;
    FormattedFacts(v, 2, blocks);
    assert [name][..0] == [] && Resolve(v, []) == Ok(ROOT);
    LookupIsFind(v, ROOT, name);
    MkdirLosses(v, [name]);
  }

  /** A directory made under a file is refused and costs an inode; a file written under a
      file is refused and costs nothing. */
  lemma UnderFile(v: Vol, q: Path, i: nat, x: Name, d: seq<Byte>)
    requires Wf(v) && Walk(GraphOf(v), q) == Some(i) && IsFile(v, i) && AllocInode(v).Ok? && |x| <= NAME_MAX
    ensures Mkdir(v, q + [x]).1 == Err(WrongKind) && LosesInode(v, Mkdir(v, q + [x]).0)
    ensures WriteFile(v, q + [x], d) == (v, Err(WrongKind))
  {
    hide Contents, DecodeDir, Exact, ClearCount, LosesInode, BlocksOk, TreeLike;
    var c := q + [x];
    assert c[..|c| - 1] == q;
    ResolveIsWalk(v, q);
    LookupIsFind(v, i, x);
    FirstFreeSpec(v, 1);
    NotADirectory(SetInode(v, AllocInode(v).value, Inode(KIND_DIR, 0, NO_BLOCKS)), i, AllocInode(v).value, x);
    MkdirLosses(v, c);
  }

  /** An empty file written to a formatted volume, with an inode to spare. */
  lemma FirstFile(v: Vol, blocks: nat, f: Name)
    requires Formatted(v, 3, blocks) && blocks > 0 && |f| <= NAME_MAX
    ensures var (v1, r) := WriteFile(v, [f], []);
            && r.Ok? && Wf(v1) && Walk(GraphOf(v1), [f]) == Some(1) && IsFile(v1, 1) && AllocInode(v1).Ok?
  {
    hide Contents, DecodeDir, Wf, GraphOf, Exact, ClearCount, Walk, CreateIn, Overwrite, LosesInode, Lost, NodeAt;
    FormattedFacts(v, 3, blocks);
    assert [f][..0] == [] && Resolve(v, []) == Ok(ROOT);
    LookupIsFind(v, ROOT, f);
    CreateExactly(v, ROOT, f, KIND_FILE);
    CreateCorrect(v, ROOT, [f], KIND_FILE);
    var vm := CreateIn(v, ROOT, f, KIND_FILE).0;
    OverwriteCorrect(vm, 1, [f], []);
    OverwriteLosses(vm, 1, []);
    FirstFreeSpec(Overwrite(vm, 1, []).0, 1);
  }

  /** Both, one after the other, on a formatted volume. */
  lemma FileParentExample(v: Vol, blocks: nat, f: Name, x: Name, d: seq<Byte>)
    requires Formatted(v, 3, blocks) && blocks > 0 && |f| <= NAME_MAX && |x| <= NAME_MAX
    ensures var v1 := WriteFile(v, [f], []).0;
            && Mkdir(v1, [f, x]).1 == Err(WrongKind) && LosesInode(v1, Mkdir(v1, [f, x]).0)
            && WriteFile(v1, [f, x], d) == (v1, Err(WrongKind))
  {
    hide Mkdir, WriteFile, Wf, LosesInode, GraphOf;
    FirstFile(v, blocks, f);
    assert [f] + [x] == [f, x];
    UnderFile(WriteFile(v, [f], []).0, [f], 1, x, d);
  }
}
