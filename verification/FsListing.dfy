/** Listing directories (cibos-kernel/src/fs.rs), and what each operation does to every list. */
module FsListing {
  import opened LittleEndian
  import opened Volume
  import opened Directories
  import opened FileSystem
  import opened FsTheorems
  import opened FsErrors
  import FsLosses
  import opened Options

  datatype Listing = Listing(ino: nat, isDir: bool, name: Name)

  function Listed(v: Vol, es: seq<DirEnt>): (r: seq<Listing>)
    ensures |r| == |es|
    ensures forall i :: 0 <= i < |es| ==> r[i] == Listing(es[i].ino, IsDir(v, es[i].ino), es[i].name)
  {
    seq(|es|, i requires 0 <= i < |es| => Listing(es[i].ino, IsDir(v, es[i].ino), es[i].name))
  }

  function ListDir(v: Vol, q: Path): Result<seq<Listing>> {
    var d := Resolve(v, q);
    if d.Err? then Err(d.error)
    else
      var es := ReadDirEntries(v, d.value);
      if es.Err? then Err(es.error) else Ok(Listed(v, es.value))
  }

  lemma ListIs(v: Vol, q: Path)
    requires Wf(v)
    ensures ListDir(v, q) == match Walk(GraphOf(v), q)
                             case None => Err(LookupError(v, q))
                             case Some(d) => if IsDir(v, d) then Ok(Listed(v, GraphOf(v)[d])) else Err(WrongKind)
  {
    hide Contents, GraphOf, Wf, PassesFile;
    ResolveExactly(v, q);
    ResolveIsWalk(v, q);
    if Walk(GraphOf(v), q).Some? && IsDir(v, Walk(GraphOf(v), q).value) {
      LookupReads(v, Walk(GraphOf(v), q).value);
    }
  }

  /** The list of a directory names exactly what is in it, each once, with its inode and kind;
      a file has no list, and other paths give the error of the lookup. */
  lemma ListsExactly(v: Vol, q: Path, name: Name)
    requires Wf(v)
    ensures match NodeAt(v, q)
            case None => ListDir(v, q) == Err(LookupError(v, q))
            case Some(FileNode(_)) => ListDir(v, q) == Err(WrongKind)
            case Some(DirNode) =>
              && ListDir(v, q).Ok?
              && var r := ListDir(v, q).value;
                 && (forall i, j :: 0 <= i < j < |r| ==> r[i].name != r[j].name)
                 && (NodeAt(v, q + [name]).Some? <==> exists i :: 0 <= i < |r| && r[i].name == name)
                 && (forall i :: 0 <= i < |r| && r[i].name == name ==>
                       && Walk(GraphOf(v), q + [name]) == Some(r[i].ino)
                       && (r[i].isDir <==> NodeAt(v, q + [name]) == Some(DirNode)))
  {
    hide Contents, GraphOf, BlocksOk, PassesFile;
    ListIs(v, q);
    ResolveIsWalk(v, q);
    if NodeAt(v, q) == Some(DirNode) {
      DirIsDir(v, q);
      Child(v, q, name);
    }
  }

  lemma DirIsDir(v: Vol, q: Path)
    requires Wf(v) && NodeAt(v, q) == Some(DirNode)
    ensures Walk(GraphOf(v), q).Some? && IsDir(v, Walk(GraphOf(v), q).value)
  {
    hide Contents, BlocksOk, GraphOf, Wf;
    ResolveIsWalk(v, q);
    KnownKind(v, Walk(GraphOf(v), q).value);
  }

  lemma KnownKind(v: Vol, i: nat)
    requires Wf(v) && i < |v.inodes| && v.inodes[i].kind != KIND_FREE
    ensures IsDir(v, i) || IsFile(v, i)
  {
    hide Contents, TreeLike, GraphOf, NoSharedBlocks;
    assert InodeOk(v, v.inodes[i]);
  }

  /** Where a name leads from directory `q`. */
  lemma Child(v: Vol, q: Path, name: Name)
    requires Wf(v) && Walk(GraphOf(v), q).Some? && IsDir(v, Walk(GraphOf(v), q).value)
    ensures var es := GraphOf(v)[Walk(GraphOf(v), q).value];
            && UniqueNames(es)
            && (NodeAt(v, q + [name]).Some? <==> exists i :: 0 <= i < |es| && es[i].name == name)
            && (forall i :: 0 <= i < |es| && es[i].name == name ==>
                  && Walk(GraphOf(v), q + [name]) == Some(es[i].ino)
                  && (IsDir(v, es[i].ino) <==> NodeAt(v, q + [name]) == Some(DirNode)))
  {
    hide Contents, GraphOf, BlocksOk, Wf;
    var d := Walk(GraphOf(v), q).value;
    var es := GraphOf(v)[d];
    NamesOf(v, d);
    assert (q + [name])[..|q|] == q;
    FindNone(es, name);
    ResolveIsWalk(v, q + [name]);
    if Find(es, name).Some? {
      var i := FindSome(es, name);
      KnownKind(v, es[i].ino);
    }
  }

  // ---- a new entry ---------------------------------------------------------

  /** No directory has an entry for `ino`. */
  ghost predicate NotEntered(g: Graph, ino: nat) {
    forall d, i: nat {:trigger Slot(g, d, i)} :: Slot(g, d, i) ==> g[d][i].ino != ino
  }

  /** The tree after `c` was made as inode `ino` in directory `p`. */
  ghost predicate NewIn(v: Vol, p: nat, c: Path, kind: nat, v1: Vol, ino: nat)
    requires c != []
  {
    && Wf(v1) && IsDir(v, p) && p != ino && NotEntered(GraphOf(v), ino)
    && (forall q: Path :: Walk(GraphOf(v1), q) == if q == c then Some(ino) else Walk(GraphOf(v), q))
    && (forall d: nat :: IsDir(v, d) ==>
          && d != ino && IsDir(v1, d)
          && GraphOf(v1)[d] == if d == p then GraphOf(v)[p] + [DirEnt(ino, c[|c| - 1])] else GraphOf(v)[d])
    && (forall i: nat :: i != ino ==> (IsDir(v1, i) <==> IsDir(v, i)))
    && (IsDir(v1, ino) <==> kind == KIND_DIR) && (kind == KIND_DIR ==> GraphOf(v1)[ino] == [])
  }

  lemma CreateEnters(v: Vol, p: nat, c: Path, kind: nat)
    requires FreePlace(v, p, c) && kind in {KIND_FILE, KIND_DIR} && CreateIn(v, p, c[|c| - 1], kind).1.Ok?
    ensures var (v1, r) := CreateIn(v, p, c[|c| - 1], kind); NewIn(v, p, c, kind, v1, r.value)
  {
    hide Contents, BlocksOk, Exact, GraphOf, DirAdd, TreeLike, RefsOk, NodeOf, Walk;
    var name := c[|c| - 1];
    PlaceFacts(v, p, c);
    FirstFreeSpec(v, 1);
    var ino := AllocInode(v).value;
    var v0 := SetInode(v, ino, Inode(kind, 0, NO_BLOCKS));
    FreeIsUnreferenced(v, ino);
    ClaimInode(v, ino, kind);
    ClaimGraph(v, ino, kind);
    if IsDir(v, p) {
      EnterName(v0, p, ino, name, c);
      EnteredGraph(v0, p, ino, name);
    } else {
      NotADirectory(v0, p, ino, name);
    }
  }

  lemma EnteredGraph(v: Vol, p: nat, ino: nat, name: Name)
    requires Wf(v) && IsDir(v, p) && 0 < ino < |v.inodes| && DirAdd(v, p, ino, name).1.Ok?
    ensures GraphOf(DirAdd(v, p, ino, name).0) == GraphOf(v)[p := GraphOf(v)[p] + [DirEnt(ino, name)]]
  {
    hide Contents, WriteData, BlocksOk, EncodeDir, DecodeDir, TreeLike, GraphOf, RewroteInode;
    var es := GraphOf(v)[p] + [DirEnt(ino, name)];
    LookupReads(v, p);
    Rewrite(v, p, EncodeDir(es));
    var (v1, r) := WriteData(v, p, v.inodes[p], EncodeDir(es));
    RewriteDir(v, p, es, v1, r);
  }

  /** What a directory's list gains. */
  function Gained(q: Path, c: Path, ino: nat, isDir: bool): seq<Listing>
    requires c != []
  {
    if q == c[..|c| - 1] then [Listing(ino, isDir, c[|c| - 1])] else []
  }

  lemma ListGrows(v: Vol, p: nat, c: Path, kind: nat, v1: Vol, ino: nat, q: Path)
    requires Wf(v) && c != [] && NewIn(v, p, c, kind, v1, ino) && Walk(GraphOf(v), c[..|c| - 1]) == Some(p)
    requires ListDir(v, q).Ok? && Walk(GraphOf(v), c).None?
    ensures ListDir(v1, q) == Ok(ListDir(v, q).value + Gained(q, c, ino, kind == KIND_DIR))
  {
    hide Contents, Wf, GraphOf, Walk, ListDir, Listed, NotEntered, LookupError;
    ListIs(v, q);
    ListIs(v1, q);
    var d, n := Walk(GraphOf(v), q).value, |c| - 1;
    SameFlags(v, v1, d, ino);
    if d == p {
      OneParent(v, q, c[..n]);
      ListedMore(v1, GraphOf(v)[p], DirEnt(ino, c[n]));
    } else {
      assert q != c[..n];
      assert ListDir(v, q).value + [] == ListDir(v, q).value;
    }
  }

  lemma OneParent(v: Vol, a: Path, b: Path)
    requires Wf(v) && Walk(GraphOf(v), a).Some? && Walk(GraphOf(v), a) == Walk(GraphOf(v), b)
    ensures a == b
  {
    hide Contents, BlocksOk, GraphOf, TreeLike, Walk;
    UniquePath(GraphOf(v), a, b);
  }

  lemma ListedMore(v: Vol, es: seq<DirEnt>, e: DirEnt)
    ensures Listed(v, es + [e]) == Listed(v, es) + [Listing(e.ino, IsDir(v, e.ino), e.name)]
  {
  }

  lemma SameFlags(v: Vol, v1: Vol, d: nat, ino: nat)
    requires IsDir(v, d) && (forall i: nat :: i != ino ==> (IsDir(v1, i) <==> IsDir(v, i)))
    requires NotEntered(GraphOf(v), ino)
    ensures Listed(v1, GraphOf(v)[d]) == Listed(v, GraphOf(v)[d])
  {
    hide Contents, GraphOf;
    var g: Graph := GraphOf(v);
    InGraph(v, d);
    forall i: nat | i < |g[d]|
      ensures Listed(v1, g[d])[i] == Listed(v, g[d])[i]
    {
      assert Slot(g, d, i);
    }
  }

  lemma InGraph(v: Vol, d: nat)
    ensures d in GraphOf(v) <==> IsDir(v, d)
  {
  }

  /** `mkdir` adds the new directory, itself empty, at the end of its parent's list, and changes
      no other list. */
  lemma MkdirLists(v: Vol, c: Path, q: Path)
    requires Wf(v) && Mkdir(v, c).1.Ok? && ListDir(v, q).Ok?
    ensures c != [] && ListDir(Mkdir(v, c).0, c) == Ok([])
    ensures ListDir(Mkdir(v, c).0, q) == Ok(ListDir(v, q).value + Gained(q, c, Mkdir(v, c).1.value, true))
  {
    hide Contents, GraphOf, CreateIn, DirLookup, Wf, NewIn, ListDir;
    var n := |c| - 1;
    ResolveIsWalk(v, c[..n]);
    var p := Resolve(v, c[..n]).value;
    LookupIsFind(v, p, c[n]);
    CreateEnters(v, p, c, KIND_DIR);
    var (v1, r) := CreateIn(v, p, c[n], KIND_DIR);
    ListGrows(v, p, c, KIND_DIR, v1, r.value, q);
    NewIsEmpty(v, p, c, v1, r.value);
  }

  lemma NewIsEmpty(v: Vol, p: nat, c: Path, v1: Vol, ino: nat)
    requires c != [] && NewIn(v, p, c, KIND_DIR, v1, ino)
    ensures ListDir(v1, c) == Ok([])
  {
    hide Contents, GraphOf, Wf, ListDir, Walk;
    ListIs(v1, c);
    assert Listed(v1, []) == [];
  }

  /** Replacing a file's bytes changes no list. */
  lemma OverwriteLists(v: Vol, ino: nat, d: seq<Byte>, q: Path)
    requires Wf(v) && IsFile(v, ino) && Wf(Overwrite(v, ino, d).0)
    ensures ListDir(v, q).Ok? ==> ListDir(Overwrite(v, ino, d).0, q) == ListDir(v, q)
  {
    hide Contents, GraphOf, Wf, ListDir, Walk, Overwrite, LookupError;
    var v1 := Overwrite(v, ino, d).0;
    FsLosses.OverwriteLosses(v, ino, d);
    ListIs(v, q);
    ListIs(v1, q);
    var at := Walk(GraphOf(v), q);
    if at.Some? && IsDir(v, at.value) {
      assert Listed(v1, GraphOf(v)[at.value]) == Listed(v, GraphOf(v)[at.value]);
    }
  }

  lemma OverwriteReturns(v: Vol, ino: nat, d: seq<Byte>)
    ensures Overwrite(v, ino, d).1.Ok? ==> Overwrite(v, ino, d).1.value == ino
  {
    hide WriteData;
  }

  /** `write_file` adds a new file at the end of its parent's list and changes no other list. */
  lemma WriteFileLists(v: Vol, c: Path, d: seq<Byte>, q: Path)
    requires Wf(v) && WriteFile(v, c, d).1.Ok? && ListDir(v, q).Ok?
    ensures c != []
    ensures ListDir(WriteFile(v, c, d).0, q) ==
            Ok(ListDir(v, q).value + if NodeAt(v, c).Some? then [] else Gained(q, c, WriteFile(v, c, d).1.value, false))
  {
    hide Contents, GraphOf, CreateIn, DirLookup, Wf, NewIn, ListDir, Overwrite, Walk, NodeOf;
    var n := |c| - 1;
    ResolveIsWalk(v, c[..n]);
    ResolveIsWalk(v, c);
    var p := Resolve(v, c[..n]).value;
    LookupIsFind(v, p, c[n]);
    WriteFileCorrect(v, c, d);
    assert ListDir(v, q).value + [] == ListDir(v, q).value;
    match DirLookup(v, p, c[n]) {
      case Ok(i) =>
        OverwriteCorrect(v, i, c, d);
        OverwriteLists(v, i, d, q);
      case Err(e) =>
        var (v1, r) := CreateIn(v, p, c[n], KIND_FILE);
        CreateEnters(v, p, c, KIND_FILE);
        CreateCorrect(v, p, c, KIND_FILE);
        ListGrows(v, p, c, KIND_FILE, v1, r.value, q);
        assert NodeAt(v, c).None? && IsFile(v1, r.value);
        OverwriteCorrect(v1, r.value, c, d);
        OverwriteLists(v1, r.value, d, q);
        OverwriteReturns(v1, r.value, d);
    }
  }

  // ---- an entry gone -------------------------------------------------------

  lemma RemovedGraph(v: Vol, p: nat, name: Name, ino: nat)
    requires Wf(v) && IsDir(v, p) && IsFile(v, ino) && Find(GraphOf(v)[p], name) == Some(ino)
    ensures var v1 := DirRemove(Discard(v, ino), p, name).0;
            && GraphOf(v1) == GraphOf(v)[p := Without(GraphOf(v)[p], name)]
            && forall i: nat :: IsDir(v1, i) <==> IsDir(v, i)
  {
    hide Contents, BlocksOk, Exact, EncodeDir, GraphOf, TreeLike, DirRemove, Discard, Marked, Holds, Find;
    var v0 := Discard(v, ino);
    DiscardFile(v, ino);
    DiscardGraph(v, ino, v0);
    UnlinkCorrect(v, p, name, ino, v0);
    var (v1, r) := DirRemove(v0, p, name);
    RewriteDir(v0, p, Without(GraphOf(v)[p], name), v1, r);
  }

  lemma {:induction false} WithoutIs(es: seq<DirEnt>, name: Name) returns (k: nat)
    requires UniqueNames(es) && Find(es, name).Some?
    ensures k < |es| && es[k].name == name && Without(es, name) == es[..k] + es[k + 1..]
  {
    if es[0].name == name {
      k := 0;
      FindNone(es[1..], name);
      assert forall i :: 0 <= i < |es[1..]| ==> es[1..][i] == es[i + 1];
      NoneDropped(es[1..], name);
    } else {
      assert UniqueNames(es[1..]) by {
        assert forall i :: 0 <= i < |es[1..]| ==> es[1..][i] == es[i + 1];
      }
      k := WithoutIs(es[1..], name);
      k := k + 1;
      assert [es[0]] + es[1..][..k - 1] == es[..k] && es[1..][k..] == es[k + 1..];
    }
  }

  lemma {:induction false} NoneDropped(es: seq<DirEnt>, name: Name)
    requires Find(es, name).None?
    ensures Without(es, name) == es
  {
    if es != [] {
      NoneDropped(es[1..], name);
      assert [es[0]] + es[1..] == es;
    }
  }

  /** `b` is `a` with the item of that name taken out. */
  ghost predicate Lacks(a: seq<Listing>, b: seq<Listing>, name: Name) {
    exists k: nat :: k < |a| && a[k].name == name && b == a[..k] + a[k + 1..]
  }

  lemma SameList(v: Vol, v1: Vol, es: seq<DirEnt>)
    requires forall i: nat :: IsDir(v1, i) <==> IsDir(v, i)
    ensures Listed(v1, es) == Listed(v, es)
  {
  }

  lemma ListedLess(v: Vol, es: seq<DirEnt>, name: Name)
    requires UniqueNames(es) && Find(es, name).Some?
    ensures Lacks(Listed(v, es), Listed(v, Without(es, name)), name)
  {
    hide Find, Without, UniqueNames;
    var k := WithoutIs(es, name);
    var a, b := Listed(v, es), Listed(v, Without(es, name));
    assert b == a[..k] + a[k + 1..];
  }

  /** `remove_file` takes the file out of its parent's list, in order, and changes no other list. */
  lemma RemoveFileLists(v: Vol, c: Path, q: Path)
    requires Wf(v) && RemoveFile(v, c).1.Ok? && ListDir(v, q).Ok?
    ensures c != [] && ListDir(RemoveFile(v, c).0, q).Ok?
    ensures var before, after := ListDir(v, q).value, ListDir(RemoveFile(v, c).0, q).value;
            if q == c[..|c| - 1] then Lacks(before, after, c[|c| - 1]) else after == before
  {
    hide Contents, GraphOf, DirLookup, DirRemove, Discard, Wf, ListDir, Walk, NodeOf, LookupError, Lacks, Find;
    var n := |c| - 1;
    ResolveIsWalk(v, c[..n]);
    ResolveIsWalk(v, c);
    var p := Resolve(v, c[..n]).value;
    LookupIsFind(v, p, c[n]);
    var ino := DirLookup(v, p, c[n]).value;
    InGraph(v, p);
    RemoveFileCorrect(v, c);
    RemovedGraph(v, p, c[n], ino);
    var v1 := RemoveFile(v, c).0;
    ListIs(v, q);
    ListIs(v1, q);
    ListKept(v, c, p, ino, v1, q);
    var d := Walk(GraphOf(v), q).value;
    SameList(v, v1, GraphOf(v1)[d]);
    if d == p {
      OneParent(v, q, c[..n]);
      NamesOf(v, p);
      ListedLess(v, GraphOf(v)[p], c[n]);
    }
  }

  /** Removing a file moves no directory. */
  lemma ListKept(v: Vol, c: Path, p: nat, ino: nat, v1: Vol, q: Path)
    requires Wf(v) && c != [] && Walk(GraphOf(v), c[..|c| - 1]) == Some(p) && IsDir(v, p) && IsFile(v, ino)
    requires Find(GraphOf(v)[p], c[|c| - 1]) == Some(ino)
    requires GraphOf(v1) == GraphOf(v)[p := Without(GraphOf(v)[p], c[|c| - 1])]
    requires Walk(GraphOf(v), q).Some? && IsDir(v, Walk(GraphOf(v), q).value)
    ensures Walk(GraphOf(v1), q) == Walk(GraphOf(v), q)
  {
    hide Contents, BlocksOk, GraphOf, TreeLike, Find;
    var g: Graph := GraphOf(v);
    InGraph(v, ino);
    StepWalk(g, c, p, c[|c| - 1], ino);
    RemovedWalks(g, GraphOf(v1), p, c[|c| - 1], c);
  }
}
