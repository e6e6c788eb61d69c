/** What mapping a run of pages needs, read off the state before it: the frames for the pages
    and for the tables they lack (cibos-kernel/src/paging.rs, address_space.rs). */
module Demand {
  import opened Division
  import opened LittleEndian
  import opened PageEncoding
  import opened Addressing
  import opened FramePool
  import opened PageTables
  import opened Mapping
  import opened Ranges
  import opened Boundaries
  import opened Options

  // ---- tables by their path ------------------------------------------------

  /** The table that the indices `p` lead to from the root, if there is one. */
  function TableAt(E: Encoder, mem: Memory, root: nat, p: seq<nat>): Option<nat>
    decreases |p|
  {
    if p == [] then Some(root)
    else
      var level, i := |p| - 1, p[|p| - 1];
      match TableAt(E, mem, root, p[..level])
      case None => None
      case Some(u) =>
        if i < ENTRIES && level < LEVELS - 1 && E.isPresent(Entry(mem, u, i)) && !E.isBlockLeaf(Entry(mem, u, i), level)
        then Some(E.entryFrame(Entry(mem, u, i))) else None
  }

  predicate HasTable(E: Encoder, mem: Memory, root: nat, p: seq<nat>) {
    TableAt(E, mem, root, p).Some?
  }

  lemma {:induction false} TableInTree(E: Encoder, mem: Memory, root: nat, tree: Tree, p: seq<nat>)
    requires Wf(E, mem, root, tree) && HasTable(E, mem, root, p)
    ensures TableAt(E, mem, root, p).value in tree && tree[TableAt(E, mem, root, p).value] == p
    decreases |p|
  {
    if p != [] {
      var level := |p| - 1;
      TableInTree(E, mem, root, tree, p[..level]);
      assert SlotOk(E, mem, tree, TableAt(E, mem, root, p[..level]).value, p[level]);
      assert p == p[..level] + [p[level]];
    }
  }

  lemma {:induction false} TreeHasTable(E: Encoder, mem: Memory, root: nat, tree: Tree, t: nat)
    requires Wf(E, mem, root, tree) && t in tree
    ensures TableAt(E, mem, root, tree[t]) == Some(t)
    decreases |tree[t]|
  {
    if t != root {
      assert HasParent(E, mem, tree, t);
      var u, i: nat :| u in tree && i < ENTRIES && tree[t] == tree[u] + [i] && Points(E, mem, tree, u, i, t);
      TreeHasTable(E, mem, root, tree, u);
      assert tree[t][..|tree[t]| - 1] == tree[u];
    }
  }

  ghost predicate HasPath(tree: Tree, p: seq<nat>) {
    exists t :: t in tree && tree[t] == p
  }

  /** A well-formed space has a table at exactly the paths of its tree. */
  lemma TablesAreTree(E: Encoder, mem: Memory, root: nat, tree: Tree, p: seq<nat>)
    requires Wf(E, mem, root, tree)
    ensures HasTable(E, mem, root, p) <==> HasPath(tree, p)
  {
    hide TableAt, Wf;
    if HasTable(E, mem, root, p) {
      TableInTree(E, mem, root, tree, p);
    }
    if t :| t in tree && tree[t] == p {
      TreeHasTable(E, mem, root, tree, t);
    }
  }

  // ---- what an insertion adds ----------------------------------------------

  /** An insertion that succeeds adds exactly the tables of its path, and takes a frame for each. */
  lemma {:induction false} InsertAdds(E: Encoder, m: Machine, root: nat, tree: Tree,
                                      t: nat, target: nat, x: Path, w: Word, p: seq<nat>)
    requires InsertPre(E, m, root, tree, t, target, true, x, w)
    requires Insert(E, m, t, |tree[t]|, target, true, x, w).1.Mapped?
    ensures var m' := Insert(E, m, t, |tree[t]|, target, true, x, w).0;
            && (HasTable(E, m'.mem, root, p) <==>
                  HasTable(E, m.mem, root, p) || (|tree[t]| < |p| <= target && p == x[..|p|]))
            && FreeCount(m'.pool) == FreeCount(m.pool) - Missing(E, m.mem, t, |tree[t]|, target, x)
    decreases target - |tree[t]|
  {
    hide Consistent, AddTable, Lookup, Wf, HasTable, HasPath;
    var level := |tree[t]|;
    var e := Entry(m.mem, t, x[level]);
    if level == target {
      WriteAdds(E, m, root, tree, t, x, w, p);
    } else if E.isPresent(e) {
      DescendsTo(E, m, root, tree, t, target, true, x, w);
      InsertAdds(E, m, root, tree, E.entryFrame(e), target, x, w, p);
      OnTheWay(E, m.mem, root, tree, E.entryFrame(e), x, p);
    } else {
      var tree1 := NewTableReached(E, m, root, tree, t, target, true, x, w);
      var (m1, a) := AddTable(E, m, t, x[level]);
      InsertAdds(E, m1, root, tree1, a.index, target, x, w, p);
      HangAdds(E, m, m1, root, tree, tree1, t, a.index, x, p);
    }
  }

  lemma WriteAdds(E: Encoder, m: Machine, root: nat, tree: Tree, t: nat, x: Path, w: Word, p: seq<nat>)
    requires SpaceOk(E, m, root, tree) && LeafWrite(E, m.mem, root, tree, t, x, w)
    ensures HasTable(E, Store(m, t, x[|tree[t]|], w).mem, root, p) <==> HasTable(E, m.mem, root, p)
  {
    hide Wf, HasTable, Consistent, Lookup;
    WriteSlot(E, m, root, tree, t, x, w);
    TablesAreTree(E, m.mem, root, tree, p);
    TablesAreTree(E, Store(m, t, x[|tree[t]|], w).mem, root, tree, p);
  }

  lemma OnTheWay(E: Encoder, mem: Memory, root: nat, tree: Tree, c: nat, x: Path, p: seq<nat>)
    requires Wf(E, mem, root, tree) && c in tree && tree[c] == x[..|tree[c]|]
    ensures p == tree[c] ==> HasTable(E, mem, root, p)
  {
    hide Wf;
    TablesAreTree(E, mem, root, tree, p);
  }

  lemma HangAdds(E: Encoder, m: Machine, m1: Machine, root: nat, tree: Tree, tree1: Tree, t: nat, c: nat, x: Path,
                 p: seq<nat>)
    requires Wf(E, m.mem, root, tree) && Wf(E, m1.mem, root, tree1) && t in tree && |tree[t]| < LEVELS - 1
    requires tree[t] == x[..|tree[t]|] && c !in tree && tree1 == tree[c := tree[t] + [x[|tree[t]|]]]
    ensures HasTable(E, m1.mem, root, p) <==> HasTable(E, m.mem, root, p) || p == x[..|tree[t]| + 1]
  {
    hide Wf, HasTable;
    TablesAreTree(E, m.mem, root, tree, p);
    TablesAreTree(E, m1.mem, root, tree1, p);
    assert x[..|tree[t]| + 1] == tree[t] + [x[|tree[t]|]];
    assert HasPath(tree1, p) <==> HasPath(tree, p) || p == tree1[c] by {
      if HasPath(tree, p) {
        var u :| u in tree && tree[u] == p;
        assert tree1[u] == p;
      }
      if p == tree1[c] {
        assert c in tree1 && tree1[c] == p;
      }
    }
  }

  // ---- the tables a page lacks ---------------------------------------------

  /** The tables below `level` on the path `x` that do not exist, by their paths. */
  ghost function LackedFrom(E: Encoder, mem: Memory, root: nat, x: Path, level: nat): (s: set<seq<nat>>)
    requires level < LEVELS
    ensures forall p :: p in s ==> |p| > level
    decreases LEVELS - level
  {
    if level == LEVELS - 1 then {}
    else
      (if HasTable(E, mem, root, x[..level + 1]) then {} else {x[..level + 1]})
      + LackedFrom(E, mem, root, x, level + 1)
  }

  /** The tables on the way to the page at `v` that do not exist. */
  ghost function LackedBy(E: Encoder, mem: Memory, root: nat, v: nat): set<seq<nat>> {
    LackedFrom(E, mem, root, Indices(v), 0)
  }

  lemma {:induction false} InLacked(E: Encoder, mem: Memory, root: nat, x: Path, level: nat, p: seq<nat>)
    requires level < LEVELS
    ensures p in LackedFrom(E, mem, root, x, level) <==>
              level < |p| < LEVELS && p == x[..|p|] && !HasTable(E, mem, root, p)
    decreases LEVELS - level
  {
    hide HasTable;
    if level < LEVELS - 1 {
      InLacked(E, mem, root, x, level + 1, p);
    }
  }

  lemma LackedSize(E: Encoder, mem: Memory, root: nat, x: Path, level: nat)
    requires level < LEVELS - 1
    ensures |LackedFrom(E, mem, root, x, level)| ==
              (if HasTable(E, mem, root, x[..level + 1]) then 0 else 1) + |LackedFrom(E, mem, root, x, level + 1)|
  {
    hide HasTable;
    assert x[..level + 1] !in LackedFrom(E, mem, root, x, level + 1);
    assert HasTable(E, mem, root, x[..level + 1]) ==>
             LackedFrom(E, mem, root, x, level) == LackedFrom(E, mem, root, x, level + 1);
  }

  lemma NoTableBelow(E: Encoder, mem: Memory, root: nat, p: seq<nat>)
    requires p != [] && !HasTable(E, mem, root, p[..|p| - 1])
    ensures !HasTable(E, mem, root, p)
  {
  }

  lemma NothingBelow(E: Encoder, mem: Memory, root: nat, x: Path)
    ensures LackedFrom(E, mem, root, x, LEVELS - 1) == {}
  {
  }

  lemma {:induction false} AllLacking(E: Encoder, mem: Memory, root: nat, x: Path, level: nat)
    requires level < LEVELS - 1 && !HasTable(E, mem, root, x[..level + 1])
    ensures |LackedFrom(E, mem, root, x, level)| == LEVELS - 1 - level
    decreases LEVELS - level
  {
    hide HasTable, LackedFrom;
    LackedSize(E, mem, root, x, level);
    if level + 1 < LEVELS - 1 {
      assert x[..level + 2][..level + 1] == x[..level + 1];
      NoTableBelow(E, mem, root, x[..level + 2]);
      AllLacking(E, mem, root, x, level + 1);
    } else {
      NothingBelow(E, mem, root, x);
    }
  }

  lemma {:induction false} MissingLacks(E: Encoder, mem: Memory, root: nat, tree: Tree, t: nat, x: Path)
    requires Wf(E, mem, root, tree) && t in tree && |tree[t]| < LEVELS && tree[t] == x[..|tree[t]|]
    requires Lookup(E, mem, t, |tree[t]|, x).None?
    ensures Missing(E, mem, t, |tree[t]|, LEVELS - 1, x) == |LackedFrom(E, mem, root, x, |tree[t]|)|
    decreases LEVELS - |tree[t]|
  {
    hide Wf, LackedFrom;
    var level := |tree[t]|;
    var e := Entry(mem, t, x[level]);
    if level == LEVELS - 1 {
      NothingBelow(E, mem, root, x);
    } else {
      TreeHasTable(E, mem, root, tree, t);
      assert x[..level + 1][..level] == x[..level];
      if E.isPresent(e) {
        ChildOnPath(E, mem, root, tree, t, x);
        LackedSize(E, mem, root, x, level);
        MissingLacks(E, mem, root, tree, E.entryFrame(e), x);
      } else {
        AllLacking(E, mem, root, x, level);
      }
    }
  }

  lemma ChildOnPath(E: Encoder, mem: Memory, root: nat, tree: Tree, t: nat, x: Path)
    requires Wf(E, mem, root, tree) && t in tree && tree[t] == x[..|tree[t]|] && |tree[t]| < LEVELS - 1
    requires E.isPresent(Entry(mem, t, x[|tree[t]|])) && !E.isBlockLeaf(Entry(mem, t, x[|tree[t]|]), |tree[t]|)
    ensures var c := E.entryFrame(Entry(mem, t, x[|tree[t]|]));
            c in tree && |tree[c]| == |tree[t]| + 1 && tree[c] == x[..|tree[c]|]
  {
    assert SlotOk(E, mem, tree, t, x[|tree[t]|]);
    PathStep(x, |tree[t]|);
  }

  /** A page that is not mapped misses exactly the tables it lacks. */
  lemma MissingIsLacked(E: Encoder, mem: Memory, root: nat, tree: Tree, v: nat)
    requires Wf(E, mem, root, tree) && LookupAt(E, mem, root, v).None?
    ensures MissingTables(E, mem, root, v) == |LackedBy(E, mem, root, v)|
  {
    hide Lookup, Missing, LackedFrom;
    MissingLacks(E, mem, root, tree, root, Indices(v));
  }

  // ---- many pages ----------------------------------------------------------

  /** The pages to be mapped, one after the other: from an address on, or listed. */
  datatype PageList = From(virt: nat) | Listed(list: seq<nat>)

  function NthPage(ps: PageList, i: nat): nat {
    match ps
    case From(virt) => virt + i * FRAME_SIZE
    case Listed(list) => if i < |list| then list[i] else 0
  }

  /** The tables that the first `k` pages lack, each counted once. */
  ghost function Lacked(E: Encoder, mem: Memory, root: nat, ps: PageList, k: nat): set<seq<nat>> {
    if k == 0 then {} else Lacked(E, mem, root, ps, k - 1) + LackedBy(E, mem, root, NthPage(ps, k - 1))
  }

  /** Frames that the first `k` pages need: their own and those of the tables they lack. */
  ghost function Needs(E: Encoder, mem: Memory, root: nat, ps: PageList, k: nat): nat {
    k + |Lacked(E, mem, root, ps, k)|
  }

  lemma {:induction false} NeedsMore(E: Encoder, mem: Memory, root: nat, ps: PageList, j: nat, k: nat)
    requires j <= k
    ensures Lacked(E, mem, root, ps, j) <= Lacked(E, mem, root, ps, k)
    ensures Needs(E, mem, root, ps, j) + (k - j) <= Needs(E, mem, root, ps, k)
    decreases k - j
  {
    hide LackedBy, NthPage;
    if j < k {
      NeedsMore(E, mem, root, ps, j, k - 1);
    }
    Smaller(Lacked(E, mem, root, ps, j), Lacked(E, mem, root, ps, k));
  }

  lemma Smaller<T>(a: set<T>, b: set<T>)
    requires a <= b
    ensures |a| <= |b|
  {
    assert b == a + (b - a);
  }

  /** The first `k` pages are aligned, not mapped, and no two the same. */
  ghost predicate Open(E: Encoder, mem: Memory, root: nat, ps: PageList, k: nat) {
    forall j: nat {:trigger NthPage(ps, j)} :: j < k ==>
      && NthPage(ps, j) % FRAME_SIZE == 0 && LookupAt(E, mem, root, NthPage(ps, j)).None?
      && !Within(ps, j, NthPage(ps, j))
  }

  /** `q` lies on one of the first `i` pages. */
  ghost predicate Within(ps: PageList, i: nat, q: nat) {
    exists j: nat {:trigger NthPage(ps, j)} :: j < i && PageOf(NthPage(ps, j)) == PageOf(q)
  }

  /** `m` is the machine after mapping the first `i` pages: what has become of its free frames,
      its tables and its mapped addresses. */
  ghost predicate Mid(E: Encoder, m0: Machine, m: Machine, root: nat, ps: PageList, i: nat) {
    && FreeCount(m.pool) == FreeCount(m0.pool) - Needs(E, m0.mem, root, ps, i)
    && (forall p: seq<nat> :: HasTable(E, m.mem, root, p) <==>
          HasTable(E, m0.mem, root, p) || p in Lacked(E, m0.mem, root, ps, i))
    && (forall q: nat :: LookupAt(E, m.mem, root, q).Some? <==>
          LookupAt(E, m0.mem, root, q).Some? || Within(ps, i, q))
  }

  lemma MidStart(E: Encoder, m: Machine, root: nat, ps: PageList)
    ensures Mid(E, m, m, root, ps, 0)
  {
  }

  /** What page `i` still lacks is what the run through it lacks more than the run before it. */
  lemma LacksMore(E: Encoder, m0: Machine, m: Machine, root: nat, ps: PageList, i: nat)
    requires Mid(E, m0, m, root, ps, i)
    ensures var v := NthPage(ps, i);
            && LackedBy(E, m.mem, root, v) == LackedBy(E, m0.mem, root, v) - Lacked(E, m0.mem, root, ps, i)
            && Needs(E, m0.mem, root, ps, i + 1) ==
                 Needs(E, m0.mem, root, ps, i) + 1 + |LackedBy(E, m.mem, root, v)|
  {
    hide HasTable, LookupAt, Indices, LackedFrom, NthPage;
    var v, before := NthPage(ps, i), Lacked(E, m0.mem, root, ps, i);
    var now, more := LackedBy(E, m.mem, root, v), LackedBy(E, m0.mem, root, v);
    forall p
      ensures p in now <==> p in more - before
    {
      InLacked(E, m.mem, root, Indices(v), 0, p);
      InLacked(E, m0.mem, root, Indices(v), 0, p);
    }
    assert now == more - before;
    assert Lacked(E, m0.mem, root, ps, i + 1) == before + now;
  }

  /** Whether page `i` is refused, by the state before the run. */
  ghost predicate Stops(E: Encoder, m0: Machine, root: nat, ps: PageList, i: nat) {
    || NthPage(ps, i) % FRAME_SIZE != 0
    || LookupAt(E, m0.mem, root, NthPage(ps, i)).Some?
    || Within(ps, i, NthPage(ps, i))
    || Needs(E, m0.mem, root, ps, i + 1) > FreeCount(m0.pool)
  }

  /** A page that `map` would refuse with `left` frames left for its tables. */
  predicate Refused(E: Encoder, mem: Memory, root: nat, v: nat, left: int) {
    || v % FRAME_SIZE != 0
    || LookupAt(E, mem, root, v).Some?
    || MissingTables(E, mem, root, v) > left
  }

  lemma StopsIsRefused(E: Encoder, m0: Machine, m: Machine, root: nat, tree: Tree, ps: PageList, i: nat)
    requires Mid(E, m0, m, root, ps, i) && Wf(E, m.mem, root, tree)
    ensures Stops(E, m0, root, ps, i) <==> Refused(E, m.mem, root, NthPage(ps, i), FreeCount(m.pool) - 1)
  {
    hide Wf, LookupAt, HasTable, PageOf, Lacked, LackedBy, Within;
    var v := NthPage(ps, i);
    LacksMore(E, m0, m, root, ps, i);
    if LookupAt(E, m.mem, root, v).None? {
      MissingIsLacked(E, m.mem, root, tree, v);
    }
  }

  /** `m1` is `m` with one frame taken and filled: the space rooted at `root` is as before. */
  ghost predicate TookOne(E: Encoder, m: Machine, m1: Machine, root: nat, tree: Tree) {
    && SpaceOk(E, m, root, tree) && SpaceOk(E, m1, root, tree)
    && |m1.mem| == |m.mem| && (forall t :: t in tree ==> t < |m.mem| && m1.mem[t] == m.mem[t])
    && FreeCount(m1.pool) == FreeCount(m.pool) - 1
  }

  lemma SameTables(E: Encoder, m: Machine, m1: Machine, root: nat, tree: Tree, p: seq<nat>)
    requires TookOne(E, m, m1, root, tree)
    ensures HasTable(E, m1.mem, root, p) <==> HasTable(E, m.mem, root, p)
  {
    hide HasTable, Wf, Lawful, Consistent;
    TablesAreTree(E, m.mem, root, tree, p);
    TablesAreTree(E, m1.mem, root, tree, p);
  }

  /** The tables and free frames after a page was mapped. */
  lemma MapAdds(E: Encoder, m: Machine, m1: Machine, root: nat, tree: Tree, v: nat, f: nat, perms: Permissions,
                p: seq<nat>)
    requires TookOne(E, m, m1, root, tree) && f < FRAME_LIMIT && Map(E, m1, root, v, f, perms).1.Mapped?
    requires LookupAt(E, m.mem, root, v).None?
    ensures var m' := Map(E, m1, root, v, f, perms).0;
            && (HasTable(E, m'.mem, root, p) <==>
                  HasTable(E, m.mem, root, p) || (0 < |p| < LEVELS && p == Indices(v)[..|p|]))
            && FreeCount(m'.pool) == FreeCount(m.pool) - 1 - |LackedBy(E, m.mem, root, v)|
  {
    hide HasTable, Consistent, Insert, Missing, LackedBy, Lookup;
    InsertAdds(E, m1, root, tree, root, LEVELS - 1, Indices(v), E.encodeLeaf(f, perms), p);
    SameTables(E, m, m1, root, tree, p);
    SameMissing(E, m.mem, m1.mem, root, tree, v);
    MissingIsLacked(E, m.mem, root, tree, v);
  }

  /** A page now has the tables it lacked. */
  lemma LackedGrows(E: Encoder, m0: Machine, root: nat, ps: PageList, i: nat, p: seq<nat>)
    ensures p in Lacked(E, m0.mem, root, ps, i + 1) <==>
              || p in Lacked(E, m0.mem, root, ps, i)
              || (0 < |p| < LEVELS && p == Indices(NthPage(ps, i))[..|p|] && !HasTable(E, m0.mem, root, p))
  {
    hide HasTable, Indices, NthPage, LackedFrom;
    InLacked(E, m0.mem, root, Indices(NthPage(ps, i)), 0, p);
  }

  lemma TablesStep(E: Encoder, m0: Machine, m: Machine, m1: Machine, root: nat, tree: Tree, ps: PageList, i: nat,
                   f: nat, perms: Permissions)
    requires Mid(E, m0, m, root, ps, i) && TookOne(E, m, m1, root, tree) && f < FRAME_LIMIT
    requires Map(E, m1, root, NthPage(ps, i), f, perms).1.Mapped?
    requires LookupAt(E, m.mem, root, NthPage(ps, i)).None?
    ensures var m' := Map(E, m1, root, NthPage(ps, i), f, perms).0;
            && FreeCount(m'.pool) == FreeCount(m0.pool) - Needs(E, m0.mem, root, ps, i + 1)
            && forall p: seq<nat> :: HasTable(E, m'.mem, root, p) <==>
                 HasTable(E, m0.mem, root, p) || p in Lacked(E, m0.mem, root, ps, i + 1)
  {
    hide TookOne, Lookup, LookupAt, HasTable, Map, NthPage, Indices, Lacked, LackedBy, Within;
    LacksMore(E, m0, m, root, ps, i);
    forall p: seq<nat>
      ensures HasTable(E, Map(E, m1, root, NthPage(ps, i), f, perms).0.mem, root, p) <==>
                HasTable(E, m0.mem, root, p) || p in Lacked(E, m0.mem, root, ps, i + 1)
    {
      MapAdds(E, m, m1, root, tree, NthPage(ps, i), f, perms, p);
      LackedGrows(E, m0, root, ps, i, p);
    }
    MapAdds(E, m, m1, root, tree, NthPage(ps, i), f, perms, []);
  }

  lemma LookupsStep(E: Encoder, m: Machine, m1: Machine, root: nat, tree: Tree, ps: PageList, i: nat, f: nat,
                    perms: Permissions, q: nat)
    requires TookOne(E, m, m1, root, tree) && f < FRAME_LIMIT
    requires Map(E, m1, root, NthPage(ps, i), f, perms).1.Mapped?
    ensures LookupAt(E, m.mem, root, NthPage(ps, i)).None?
    ensures LookupAt(E, Map(E, m1, root, NthPage(ps, i), f, perms).0.mem, root, q).Some? <==>
              LookupAt(E, m.mem, root, q).Some? || PageOf(NthPage(ps, i)) == PageOf(q)
  {
    hide Wf, Lookup, LookupAt, Map, PageOf, NthPage, Consistent, Lawful, Missing;
    var tree' := MapCorrect(E, m1, root, tree, NthPage(ps, i), f, perms);
    ForeignSpace(E, m.mem, m1.mem, root, tree);
  }

  lemma WithinNext(ps: PageList, i: nat, q: nat)
    ensures Within(ps, i + 1, q) <==> Within(ps, i, q) || PageOf(NthPage(ps, i)) == PageOf(q)
  {
    hide PageOf, NthPage;
  }

  /** The page after the first `i`, mapped onto a fresh frame. */
  lemma MidStep(E: Encoder, m0: Machine, m: Machine, m1: Machine, root: nat, tree: Tree, ps: PageList, i: nat, f: nat,
                perms: Permissions)
    requires Mid(E, m0, m, root, ps, i) && TookOne(E, m, m1, root, tree) && f < FRAME_LIMIT
    requires Map(E, m1, root, NthPage(ps, i), f, perms).1.Mapped?
    ensures Mid(E, m0, Map(E, m1, root, NthPage(ps, i), f, perms).0, root, ps, i + 1)
  {
    hide TookOne, Lookup, LookupAt, HasTable, Map, PageOf, NthPage, Lacked, Within, Needs;
    LookupsStep(E, m, m1, root, tree, ps, i, f, perms, 0);
    TablesStep(E, m0, m, m1, root, tree, ps, i, f, perms);
    forall q: nat
      ensures LookupAt(E, Map(E, m1, root, NthPage(ps, i), f, perms).0.mem, root, q).Some? <==>
                LookupAt(E, m0.mem, root, q).Some? || Within(ps, i + 1, q)
    {
      LookupsStep(E, m, m1, root, tree, ps, i, f, perms, q);
      WithinNext(ps, i, q);
    }
  }

  /** No later page is reached once page `i` was refused or found no frame. */
  lemma NoneLater(E: Encoder, m: Machine, root: nat, ps: PageList, i: nat, k: nat)
    requires i < k
    requires Stops(E, m, root, ps, i) || Needs(E, m.mem, root, ps, i) >= FreeCount(m.pool)
    ensures !(Open(E, m.mem, root, ps, k) && Needs(E, m.mem, root, ps, k) <= FreeCount(m.pool))
  {
    hide Lacked, LookupAt;
    NeedsMore(E, m.mem, root, ps, i, k);
    NeedsMore(E, m.mem, root, ps, i + 1, k);
  }

  lemma OpenNext(E: Encoder, m0: Machine, root: nat, ps: PageList, i: nat)
    requires Open(E, m0.mem, root, ps, i) && !Stops(E, m0, root, ps, i)
    ensures Open(E, m0.mem, root, ps, i + 1)
  {
  }

  lemma FreeLeft(E: Encoder, m0: Machine, m: Machine, root: nat, ps: PageList, i: nat)
    requires MachineOk(m) && Mid(E, m0, m, root, ps, i)
    ensures FreeCount(m.pool) == FreeCount(m0.pool) - Needs(E, m0.mem, root, ps, i) >= 0
  {
    hide Lacked, LookupAt, HasTable;
    FreeCountIsExact(m.pool);
  }

  // ---- consecutive pages ---------------------------------------------------

  /** Pages of a 48-bit address space: a longer run comes back to its first page. */
  const PAGES: nat := 0x10_0000_0000

  lemma RepeatsAfter(virt: nat, j: nat, i: nat)
    requires j < i
    ensures i < PAGES ==> PageOf(virt + j * FRAME_SIZE) != PageOf(virt + i * FRAME_SIZE)
    ensures i - j == PAGES ==> PageOf(virt + j * FRAME_SIZE) == PageOf(virt + i * FRAME_SIZE)
  {
    var a := virt / FRAME_SIZE;
    DivMod(virt + j * FRAME_SIZE, FRAME_SIZE, a + j, virt % FRAME_SIZE);
    DivMod(virt + i * FRAME_SIZE, FRAME_SIZE, a + i, virt % FRAME_SIZE);
    ApartMod(a + j, a + i);
  }

  lemma ApartMod(a: nat, b: nat)
    requires a < b
    ensures b - a < PAGES ==> a % PAGES != b % PAGES
    ensures b - a == PAGES ==> a % PAGES == b % PAGES
  {
    var q, r := a / PAGES, a % PAGES;
    if r + (b - a) < PAGES {
      DivMod(b, PAGES, q, r + (b - a));
    } else if b - a <= PAGES {
      DivMod(b, PAGES, q + 1, r + (b - a) - PAGES);
    }
  }

  /** Consecutive pages repeat exactly after 2^36 of them. */
  lemma RunRepeats(virt: nat, i: nat)
    ensures Within(From(virt), i, NthPage(From(virt), i)) <==> i >= PAGES
  {
    hide PageOf;
    var ps := From(virt);
    if i >= PAGES {
      RepeatsAfter(virt, i - PAGES, i);
      assert PageOf(NthPage(ps, i - PAGES)) == PageOf(NthPage(ps, i));
    } else {
      forall j: nat | j < i
        ensures PageOf(NthPage(ps, j)) != PageOf(NthPage(ps, i))
      {
        RepeatsAfter(virt, j, i);
      }
    }
  }

  lemma AlignedRun(virt: nat, i: nat)
    ensures NthPage(From(virt), i) % FRAME_SIZE == virt % FRAME_SIZE
  {
    DivMod(virt + i * FRAME_SIZE, FRAME_SIZE, virt / FRAME_SIZE + i, virt % FRAME_SIZE);
  }

  /** So a run of `k` pages is open exactly when it is aligned, no longer than the address space,
      and none of its pages is mapped. */
  lemma RunIsOpen(E: Encoder, mem: Memory, root: nat, virt: nat, k: nat)
    ensures Open(E, mem, root, From(virt), k) <==>
              && k <= PAGES && (k > 0 ==> virt % FRAME_SIZE == 0)
              && forall j: nat :: j < k ==> LookupAt(E, mem, root, virt + j * FRAME_SIZE).None?
  {
    hide LookupAt, Within;
    forall j: nat
      ensures Within(From(virt), j, NthPage(From(virt), j)) <==> j >= PAGES
      ensures NthPage(From(virt), j) % FRAME_SIZE == virt % FRAME_SIZE
    {
      RunRepeats(virt, j);
      AlignedRun(virt, j);
    }
    if Open(E, mem, root, From(virt), k) {
      forall j: nat | j < k
        ensures LookupAt(E, mem, root, virt + j * FRAME_SIZE).None?
      {
        assert NthPage(From(virt), j) == virt + j * FRAME_SIZE;
      }
      if k > 0 {
        assert NthPage(From(virt), 0) % FRAME_SIZE == virt % FRAME_SIZE;
        assert k > PAGES ==> Within(From(virt), PAGES, NthPage(From(virt), PAGES));
      }
    }
  }
}
