/** When CIBOSFS operations succeed (cibos-kernel/src/fs.rs), by the volume before them. */
module FsOutcomes {
  import opened LittleEndian
  import opened Volume
  import opened Directories
  import opened FileSystem
  import opened FsTheorems
  import opened FsLosses
  import opened Options

  /** `c` names nothing, its parent exists, an inode is free, and the name can be entered into
      the parent. */
  ghost predicate CanEnter(v: Vol, c: Path) {
    && c != [] && Walk(GraphOf(v), c[..|c| - 1]).Some? && Walk(GraphOf(v), c).None?
    && AllocInode(v).Ok? && !CannotEnter(v, Walk(GraphOf(v), c[..|c| - 1]).value, c[|c| - 1])
  }

  /** The clear blocks that a new file at `c` would find. */
  ghost function ClearFor(v: Vol, c: Path): int
    requires CanEnter(v, c)
  {
    ClearAfter(v, Walk(GraphOf(v), c[..|c| - 1]).value)
  }

  lemma CreateSucceeds(v: Vol, p: nat, c: Path, kind: nat)
    requires FreePlace(v, p, c) && kind in {KIND_FILE, KIND_DIR}
    ensures CreateIn(v, p, c[|c| - 1], kind).1.Ok? <==> CanEnter(v, c)
  {
    hide Contents, GraphOf, BlocksOk, CreateIn, CannotEnter, Lost, Wf;
    PlaceFacts(v, p, c);
    if AllocInode(v).Ok? {
      CreateExactly(v, p, c[|c| - 1], kind);
    } else {
      NoInode(v, p, c[|c| - 1], kind);
    }
  }

  lemma NoInode(v: Vol, p: nat, name: Name, kind: nat)
    requires AllocInode(v).Err?
    ensures CreateIn(v, p, name, kind).1.Err?
  {
  }

  /** `mkdir` succeeds exactly when the path names nothing, its parent exists and the name can
      be entered: the parent is a directory with room for it and the name is short enough. */
  lemma MkdirSucceeds(v: Vol, c: Path)
    requires Wf(v)
    ensures Mkdir(v, c).1.Ok? <==> CanEnter(v, c)
  {
    hide Contents, GraphOf, BlocksOk, CreateIn, DirLookup, Wf, CannotEnter;
    if c != [] {
      ResolveIsWalk(v, c[..|c| - 1]);
      var p := Resolve(v, c[..|c| - 1]);
      if p.Ok? {
        LookupIsFind(v, p.value, c[|c| - 1]);
        if DirLookup(v, p.value, c[|c| - 1]).Err? {
          CreateSucceeds(v, p.value, c, KIND_DIR);
        }
      }
    }
  }

  /** There is a file at `c` and room for `d` in its place, or a file can be made there and
      leaves room for `d`. */
  ghost predicate CanWrite(v: Vol, c: Path, d: seq<Byte>) {
    && |d| <= MAX_FILE_SIZE && c != []
    && match Walk(GraphOf(v), c)
       case Some(i) => IsFile(v, i) && Fits(v, v.inodes[i], d)
       case None => CanEnter(v, c) && BlocksFor(|d|) <= ClearFor(v, c)
  }

  /** The file can be made but `d` does not fit into it. */
  ghost predicate LeavesEmpty(v: Vol, c: Path, d: seq<Byte>) {
    CanEnter(v, c) && (|d| > MAX_FILE_SIZE || BlocksFor(|d|) > ClearFor(v, c))
  }

  lemma NewFileOutcome(v: Vol, p: nat, c: Path, d: seq<Byte>)
    requires FreePlace(v, p, c) && IsDir(v, p)
    ensures var made := CreateIn(v, p, c[|c| - 1], KIND_FILE);
            var (v1, r) := if made.1.Ok? then Overwrite(made.0, made.1.value, d) else made;
            && (r.Ok? <==> CanWrite(v, c, d))
            && (r.Err? ==> NodeAt(v1, c) == if LeavesEmpty(v, c, d) then Some(FileNode([])) else None)
            && (r.Ok? ==> !LeavesEmpty(v, c, d))
  {
    hide Contents, GraphOf, BlocksOk, CreateIn, Lost, Exact, CannotEnter, Overwrite, ClearCount, ClearAfter, NodeOf;
    var name := c[|c| - 1];
    PlaceFacts(v, p, c);
    CreateSucceeds(v, p, c, KIND_FILE);
    CreateCorrect(v, p, c, KIND_FILE);
    var (vm, made) := CreateIn(v, p, name, KIND_FILE);
    if made.Ok? {
      CreateExactly(v, p, name, KIND_FILE);
      NewFileEmpty(v, p, name);
      OverwriteCorrect(vm, made.value, c, d);
    }
  }

  lemma NoEntry(v: Vol, p: nat, name: Name)
    requires !IsDir(v, p)
    ensures CannotEnter(v, p, name)
  {
  }

  /** `write_file` succeeds exactly when it can write, and a failing one leaves a new empty file
      exactly when the file could be made; otherwise the path is as it was. */
  lemma WriteFileSucceeds(v: Vol, c: Path, d: seq<Byte>)
    requires Wf(v)
    ensures var (v1, r) := WriteFile(v, c, d);
            && (r.Ok? <==> CanWrite(v, c, d))
            && (r.Err? ==> NodeAt(v1, c) == if LeavesEmpty(v, c, d) then Some(FileNode([])) else NodeAt(v, c))
            && (r.Ok? ==> !LeavesEmpty(v, c, d))
  {
    hide Contents, GraphOf, BlocksOk, CreateIn, DirLookup, Wf, CannotEnter, Overwrite, ClearCount, ClearAfter, NodeOf;
    if c != [] {
      ResolveIsWalk(v, c[..|c| - 1]);
      var p := Resolve(v, c[..|c| - 1]);
      if p.Ok? {
        LookupIsFind(v, p.value, c[|c| - 1]);
        match DirLookup(v, p.value, c[|c| - 1]) {
          case Ok(existing) =>
            ResolveIsWalk(v, c);
            OverwriteCorrect(v, existing, c, d);
          case Err(e) =>
            if e == NotFound {
              NewFileOutcome(v, p.value, c, d);
            } else {
              NoEntry(v, p.value, c[|c| - 1]);
            }
        }
      }
    }
  }
}
