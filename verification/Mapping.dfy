/** Mapping pages into a space (cibos-kernel/src/paging.rs): the walk-and-allocate
    insertion behind `map` and `map_block_2m`, `map_range` on top of it, and their
    exact effect on translation. */
module Mapping {
  import opened Division
  import opened LittleEndian
  import opened PageEncoding
  import opened Addressing
  import opened FramePool
  import opened PageTables
  import opened Options

  const BLOCK_2M: nat := 0x20_0000

  datatype MapResult =
    | Mapped
    | Unaligned
    | Covered             // an interior slot already holds a large block
    | Occupied            // the final slot is already present
    | NoFrame(why: AllocResult)

  // ---- what is assumed and what changes ------------------------------------

  ghost predicate MachineOk(m: Machine) {
    && Consistent(m.pool) && HintInside(m.pool)
    && m.pool.frameCount <= |m.mem| && m.pool.frameCount <= FRAME_LIMIT
  }

  ghost predicate Backed(m: Machine, frames: set<nat>) {
    forall f :: f in frames ==> f < m.pool.frameCount && Bit(m.pool.words, f)
  }

  /** A well-formed space all of whose tables are allocated frames. */
  ghost predicate SpaceOk(E: Encoder, m: Machine, root: nat, tree: Tree) {
    Lawful(E) && MachineOk(m) && Wf(E, m.mem, root, tree) && Backed(m, tree.Keys)
  }

  /** `m'` differs from `m` only by fresh tables: they were free, are now allocated
      and belong to `tree'`, and only table frames were written. */
  ghost predicate Grown(m: Machine, tree: Tree, m': Machine, tree': Tree) {
    && |m'.mem| == |m.mem| && m'.pool.frameCount == m.pool.frameCount
    && (forall t :: t in tree ==> t in tree' && tree'[t] == tree[t])
    && (forall t :: t in tree' && t !in tree ==> IsFree(m.pool, t))
    && (forall f: nat :: f < m.pool.frameCount ==> (Bit(m'.pool.words, f) <==> Bit(m.pool.words, f) || f in tree'))
    && (forall f: nat :: f < |m.mem| && f !in tree' ==> m'.mem[f] == m.mem[f])
  }

  lemma GrownTransitive(a: Machine, ta: Tree, b: Machine, tb: Tree, c: Machine, tc: Tree)
    requires Grown(a, ta, b, tb) && Grown(b, tb, c, tc)
    ensures Grown(a, ta, c, tc)
  {
  }

  // ---- insertion -----------------------------------------------------------

  function AllocateZeroed(m: Machine): (Machine, AllocResult) {
    var a := Allocate(m.pool);
    (Machine(if a.1.Frame? then SetPage(m.mem, a.1.index, ZeroPage()) else m.mem, a.0), a.1)
  }

  function Store(m: Machine, t: nat, i: nat, w: Word): Machine
    requires i < ENTRIES
  {
    Machine(SetEntry(m.mem, t, i, w), m.pool)
  }

  /** Allocate a zeroed frame and, if there is one, enter it as a table in slot `i` of `t`. */
  function AddTable(E: Encoder, m: Machine, t: nat, i: nat): (Machine, AllocResult)
    requires i < ENTRIES
  {
    var a := AllocateZeroed(m);
    if a.1.Frame? then (Store(a.0, t, i, E.encodeTable(a.1.index)), a.1) else a
  }

  /** From table `t` at `level`, descend to level `target`, allocating missing
      tables, and write `w` into the slot found there if it is empty. `checked` is
      whether an interior block stops the descent (`map`) or not (`map_block_2m`). */
  function Insert(E: Encoder, m: Machine, t: nat, level: nat, target: nat, checked: bool, x: Path, w: Word)
    : (Machine, MapResult)
    requires level <= target < LEVELS
    decreases target - level
  {
    var e := Entry(m.mem, t, x[level]);
    if level == target then
      if E.isPresent(e) then (m, Occupied)
      else (Store(m, t, x[level], w), Mapped)
    else if E.isPresent(e) then
      if checked && E.isBlockLeaf(e, level) then (m, Covered)
      else Insert(E, m, E.entryFrame(e), level + 1, target, checked, x, w)
    else
      match AddTable(E, m, t, x[level])
      case (m1, Frame(c)) => Insert(E, m1, c, level + 1, target, checked, x, w)
      case (m1, why) => (m1, NoFrame(why))
  }

  /** Number of tables an insertion has to allocate. */
  function Missing(E: Encoder, mem: Memory, t: nat, level: nat, target: nat, x: Path): nat
    requires level <= target < LEVELS
    decreases target - level
  {
    var e := Entry(mem, t, x[level]);
    if level == target then 0
    else if !E.isPresent(e) then target - level
    else if E.isBlockLeaf(e, level) then 0
    else Missing(E, mem, E.entryFrame(e), level + 1, target, x)
  }

  /** The slot of `x` at level `target` exists and is present: a page, a block, or a table,
      whether or not anything is mapped under it. */
  predicate SlotTaken(E: Encoder, mem: Memory, t: nat, level: nat, target: nat, x: Path)
    requires level <= target < LEVELS
    decreases target - level
  {
    var e := Entry(mem, t, x[level]);
    E.isPresent(e)
    && (level == target || (!E.isBlockLeaf(e, level) && SlotTaken(E, mem, E.entryFrame(e), level + 1, target, x)))
  }

  lemma AddTablePool(E: Encoder, m: Machine, t: nat, i: nat)
    requires MachineOk(m) && i < ENTRIES && AddTable(E, m, t, i).1.Frame?
    ensures var (m1, r) := AddTable(E, m, t, i);
            && MachineOk(m1) && m1.pool.frameCount == m.pool.frameCount && |m1.mem| == |m.mem|
            && IsFree(m.pool, r.index) && m1.mem == Hang(E, m.mem, t, i, r.index)
            && (forall f: nat :: f < m.pool.frameCount ==>
                  (Bit(m1.pool.words, f) <==> f == r.index || Bit(m.pool.words, f)))
            && FreeCount(m1.pool) == FreeCount(m.pool) - 1
  {
    hide Allocate;
    AllocateIsLowestFree(m.pool);
    FreeCountAfter(m.pool);
  }

  lemma AddTableStep(E: Encoder, m: Machine, root: nat, tree: Tree, t: nat, i: nat)
    requires SpaceOk(E, m, root, tree) && t in tree && i < ENTRIES && |tree[t]| < LEVELS - 1
    requires !E.isPresent(Entry(m.mem, t, i)) && AddTable(E, m, t, i).1.Frame?
    ensures var (m1, r) := AddTable(E, m, t, i);
            var tree1 := tree[r.index := tree[t] + [i]];
            && TableWrite(E, m.mem, root, tree, t, i, r.index)
            && SpaceOk(E, m1, root, tree1) && Grown(m, tree, m1, tree1)
  {
    hide AddTable, Consistent;
    AddTablePool(E, m, t, i);
    var (m1, r) := AddTable(E, m, t, i);
    assert TableWrite(E, m.mem, root, tree, t, i, r.index);
    TableWriteWf(E, m.mem, root, tree, t, i, r.index);
    assert t < |m.mem|;
  }

  lemma NoFrameLeft(E: Encoder, m: Machine, t: nat, i: nat)
    requires MachineOk(m) && i < ENTRIES
    ensures AddTable(E, m, t, i).1.Frame? <==> FreeCount(m.pool) > 0
    ensures !AddTable(E, m, t, i).1.Frame? ==> AddTable(E, m, t, i) == (m, LimitExceeded)
  {
    AllocateIsLowestFree(m.pool);
    AllocatePanicsExactly(m.pool);
    FreeCountIsExact(m.pool);
  }

  /** The effect of one insertion on every walk of the space: the paths through the
      slot find the new entry if it was written, and no other walk changes. */
  ghost predicate InsertEffect(E: Encoder, mem: Memory, mem': Memory, root: nat, target: nat, x: Path, w: Word,
                               r: MapResult)
    requires target < LEVELS
  {
    forall y: Path :: Lookup(E, mem', root, 0, y) ==
      if r.Mapped? && SameSlot(y, x, target) then Some(Hit(w, target)) else Lookup(E, mem, root, 0, y)
  }

  /** Which outcome an insertion has, read off the state before it. */
  ghost predicate InsertOutcome(E: Encoder, m: Machine, root: nat, t: nat, level: nat, target: nat, x: Path,
                                r: MapResult)
    requires level <= target < LEVELS
  {
    var before := Lookup(E, m.mem, root, 0, x);
    && (r.Mapped? ==> forall y: Path :: SameSlot(y, x, target) ==> Lookup(E, m.mem, root, 0, y) == None)
    && (r.Occupied? && target == LEVELS - 1 ==> before.Some? && before.value.level == LEVELS - 1)
    && (r.Covered? ==> before.Some? && before.value.level == LEVELS - 2 && target == LEVELS - 1)
    && (r.NoFrame? ==> before == None && r.why.LimitExceeded?)
    && (r.NoFrame? <==> Missing(E, m.mem, t, level, target, x) > FreeCount(m.pool))
    && !r.Unaligned?
  }

  ghost predicate InsertPre(E: Encoder, m: Machine, root: nat, tree: Tree, t: nat, target: nat, checked: bool,
                            x: Path, w: Word) {
    && SpaceOk(E, m, root, tree) && t in tree && |tree[t]| <= target < LEVELS && tree[t] == x[..|tree[t]|]
    && Terminal(E, w, target) && (checked || target == LEVELS - 2)
    && Lookup(E, m.mem, root, 0, x) == Lookup(E, m.mem, t, |tree[t]|, x)
  }

  lemma WriteSlot(E: Encoder, m: Machine, root: nat, tree: Tree, t: nat, x: Path, w: Word)
    requires SpaceOk(E, m, root, tree) && LeafWrite(E, m.mem, root, tree, t, x, w)
    ensures var l := |tree[t]|;
            var m' := Store(m, t, x[l], w);
            && SpaceOk(E, m', root, tree) && Grown(m, tree, m', tree)
            && InsertEffect(E, m.mem, m'.mem, root, l, x, w, Mapped)
            && forall y: Path :: SameSlot(y, x, l) ==> Lookup(E, m.mem, root, 0, y) == None
  {
    var l := |tree[t]|;
    LeafWriteWf(E, m.mem, root, tree, t, x, w);
    forall y: Path
      ensures Lookup(E, Store(m, t, x[l], w).mem, root, 0, y) ==
              if SameSlot(y, x, l) then Some(Hit(w, l)) else Lookup(E, m.mem, root, 0, y)
      ensures SameSlot(y, x, l) ==> Lookup(E, m.mem, root, 0, y) == None
    {
      if SameSlot(y, x, l) {
        LeafWriteHit(E, m.mem, root, tree, t, x, w, root, 0, y);
      } else {
        LeafWriteMiss(E, m.mem, root, tree, t, x, w, root, 0, y);
      }
    }
  }

  /** Everything an insertion from table `t` promises about its result. */
  ghost predicate InsertPost(E: Encoder, m: Machine, root: nat, tree: Tree, t: nat, target: nat, x: Path, w: Word,
                             res: (Machine, MapResult), tree': Tree)
    requires t in tree && |tree[t]| <= target < LEVELS
  {
    && SpaceOk(E, res.0, root, tree') && Grown(m, tree, res.0, tree')
    && InsertEffect(E, m.mem, res.0.mem, root, target, x, w, res.1)
    && InsertOutcome(E, m, root, t, |tree[t]|, target, x, res.1)
  }

  /** The path ends here: the slot at the target level, or a block above it. */
  lemma InsertStops(E: Encoder, m: Machine, root: nat, tree: Tree, t: nat, target: nat, checked: bool, x: Path, w: Word)
    requires InsertPre(E, m, root, tree, t, target, checked, x, w)
    requires |tree[t]| == target || E.isBlockLeaf(Entry(m.mem, t, x[|tree[t]|]), |tree[t]|)
    requires |tree[t]| == target || E.isPresent(Entry(m.mem, t, x[|tree[t]|]))
    ensures InsertPost(E, m, root, tree, t, target, x, w, Insert(E, m, t, |tree[t]|, target, checked, x, w), tree)
  {
    hide Consistent, AddTable;
    var level := |tree[t]|;
    FreeCountIsExact(m.pool);
    if level == target && !E.isPresent(Entry(m.mem, t, x[level])) {
      WriteSlot(E, m, root, tree, t, x, w);
    } else {
      assert SlotOk(E, m.mem, tree, t, x[level]);
    }
  }

  /** Insertion, from any table the path reaches: it keeps the space well formed,
      touches only table frames, and has exactly the stated effect and outcome. */
  lemma {:induction false} InsertCorrect(E: Encoder, m: Machine, root: nat, tree: Tree,
                                         t: nat, target: nat, checked: bool, x: Path, w: Word)
    returns (tree': Tree)
    requires InsertPre(E, m, root, tree, t, target, checked, x, w)
    ensures InsertPost(E, m, root, tree, t, target, x, w, Insert(E, m, t, |tree[t]|, target, checked, x, w), tree')
    decreases target - |tree[t]|
  {
    hide Consistent, AddTable;
    var level := |tree[t]|;
    var e := Entry(m.mem, t, x[level]);
    tree' := tree;
    if level == target || (E.isPresent(e) && E.isBlockLeaf(e, level)) {
      InsertStops(E, m, root, tree, t, target, checked, x, w);
    } else if E.isPresent(e) {
      assert SlotOk(E, m.mem, tree, t, x[level]);
      PathStep(x, level);
      assert Missing(E, m.mem, t, level, target, x) == Missing(E, m.mem, E.entryFrame(e), level + 1, target, x);
      tree' := InsertCorrect(E, m, root, tree, E.entryFrame(e), target, checked, x, w);
    } else {
      NoFrameLeft(E, m, t, x[level]);
      if AddTable(E, m, t, x[level]).1.Frame? {
        tree' := InsertThroughNewTable(E, m, root, tree, t, target, checked, x, w);
      }
    }
  }

  /** Behind a fresh table nothing is mapped yet, and one table less is missing. */
  lemma BehindNewTable(E: Encoder, mem: Memory, t: nat, level: nat, c: nat, target: nat, x: Path)
    requires Lawful(E) && level < target < LEVELS && t != c && t < |mem| && c < |mem|
    requires !E.isPresent(Entry(mem, t, x[level]))
    ensures var mem1 := Hang(E, mem, t, x[level], c);
            && Lookup(E, mem, t, level, x) == None && Lookup(E, mem1, c, level + 1, x) == None
            && Missing(E, mem1, c, level + 1, target, x) == Missing(E, mem, t, level, target, x) - 1
            && !SlotTaken(E, mem1, c, level + 1, target, x)
  {
    hide Hang;
    HangEntries(E, mem, t, x[level], c, c, x[level + 1]);
  }

  /** After hanging a new table the path reaches it and every walk is as before. */
  lemma NewTableReached(E: Encoder, m: Machine, root: nat, tree: Tree, t: nat, target: nat, checked: bool, x: Path,
                        w: Word)
    returns (tree1: Tree)
    requires InsertPre(E, m, root, tree, t, target, checked, x, w) && |tree[t]| < target
    requires !E.isPresent(Entry(m.mem, t, x[|tree[t]|])) && AddTable(E, m, t, x[|tree[t]|]).1.Frame?
    ensures var (m1, a) := AddTable(E, m, t, x[|tree[t]|]);
            && tree1 == tree[a.index := tree[t] + [x[|tree[t]|]]] && a.index !in tree
            && InsertPre(E, m1, root, tree1, a.index, target, checked, x, w) && Grown(m, tree, m1, tree1)
            && (forall y: Path :: Lookup(E, m1.mem, root, 0, y) == Lookup(E, m.mem, root, 0, y))
            && Missing(E, m1.mem, a.index, |tree[t]| + 1, target, x) == Missing(E, m.mem, t, |tree[t]|, target, x) - 1
            && FreeCount(m1.pool) == FreeCount(m.pool) - 1
            && !SlotTaken(E, m1.mem, a.index, |tree[t]| + 1, target, x)
  {
    hide Consistent, Insert, AddTable, Hang, Lookup, Missing, SlotTaken;
    var level := |tree[t]|;
    var i := x[level];
    AddTablePool(E, m, t, i);
    AddTableStep(E, m, root, tree, t, i);
    var (m1, a) := AddTable(E, m, t, i);
    var c := a.index;
    tree1 := tree[c := tree[t] + [i]];
    BehindNewTable(E, m.mem, t, level, c, target, x);
    forall y: Path
      ensures Lookup(E, m1.mem, root, 0, y) == Lookup(E, m.mem, root, 0, y)
    {
      TableWriteLookup(E, m.mem, root, tree, t, i, c, root, 0, y);
    }
    PathStep(x, level);
  }

  lemma SameWalks(E: Encoder, m: Machine, m1: Machine, m': Machine, root: nat, t: nat, level: nat, c: nat, target: nat,
                  x: Path, w: Word, r: MapResult)
    requires level < target < LEVELS
    requires forall y: Path :: Lookup(E, m1.mem, root, 0, y) == Lookup(E, m.mem, root, 0, y)
    requires Missing(E, m1.mem, c, level + 1, target, x) == Missing(E, m.mem, t, level, target, x) - 1
    requires FreeCount(m1.pool) == FreeCount(m.pool) - 1
    requires InsertEffect(E, m1.mem, m'.mem, root, target, x, w, r)
    requires InsertOutcome(E, m1, root, c, level + 1, target, x, r)
    ensures InsertEffect(E, m.mem, m'.mem, root, target, x, w, r)
    ensures InsertOutcome(E, m, root, t, level, target, x, r)
  {
  }

  lemma {:induction false} InsertThroughNewTable(E: Encoder, m: Machine, root: nat, tree: Tree,
                                                 t: nat, target: nat, checked: bool, x: Path, w: Word)
    returns (tree': Tree)
    requires InsertPre(E, m, root, tree, t, target, checked, x, w) && |tree[t]| < target
    requires !E.isPresent(Entry(m.mem, t, x[|tree[t]|])) && AddTable(E, m, t, x[|tree[t]|]).1.Frame?
    ensures InsertPost(E, m, root, tree, t, target, x, w, Insert(E, m, t, |tree[t]|, target, checked, x, w), tree')
    decreases target - |tree[t]|, 0
  {
    hide Lookup, AddTable, Missing, Grown, InsertEffect, InsertOutcome, Wf, Lawful, Consistent;
    var level := |tree[t]|;
    var tree1 := NewTableReached(E, m, root, tree, t, target, checked, x, w);
    var (m1, a) := AddTable(E, m, t, x[level]);
    tree' := InsertCorrect(E, m1, root, tree1, a.index, target, checked, x, w);
    var (m', r) := Insert(E, m1, a.index, level + 1, target, checked, x, w);
    assert Insert(E, m, t, level, target, checked, x, w) == (m', r);
    SameWalks(E, m, m1, m', root, t, level, a.index, target, x, w, r);
    GrownTransitive(m, tree, m1, tree1, m', tree');
  }

  /** An insertion finds its slot occupied exactly when the slot is present. */
  lemma {:induction false} InsertOccupied(E: Encoder, m: Machine, root: nat, tree: Tree,
                                          t: nat, target: nat, checked: bool, x: Path, w: Word)
    requires InsertPre(E, m, root, tree, t, target, checked, x, w)
    ensures Insert(E, m, t, |tree[t]|, target, checked, x, w).1.Occupied?
            <==> SlotTaken(E, m.mem, t, |tree[t]|, target, x)
    decreases target - |tree[t]|
  {
    hide Consistent, AddTable, Lookup, Missing, Wf, Grown, Lawful;
    var level := |tree[t]|;
    var e := Entry(m.mem, t, x[level]);
    if level < target && E.isPresent(e) {
      if !E.isBlockLeaf(e, level) {
        DescendsTo(E, m, root, tree, t, target, checked, x, w);
        InsertOccupied(E, m, root, tree, E.entryFrame(e), target, checked, x, w);
      } else {
        BlockAbove(E, m, root, tree, t, target, checked, x, w);
      }
    } else if level < target && AddTable(E, m, t, x[level]).1.Frame? {
      var tree1 := NewTableReached(E, m, root, tree, t, target, checked, x, w);
      var (m1, a) := AddTable(E, m, t, x[level]);
      InsertOccupied(E, m1, root, tree1, a.index, target, checked, x, w);
    }
  }

  /** A block above the target level stops a checked insertion; an unchecked one aims at the only
      level that has blocks. */
  lemma BlockAbove(E: Encoder, m: Machine, root: nat, tree: Tree, t: nat, target: nat, checked: bool, x: Path, w: Word)
    requires InsertPre(E, m, root, tree, t, target, checked, x, w) && |tree[t]| < target
    requires var e := Entry(m.mem, t, x[|tree[t]|]); E.isPresent(e) && E.isBlockLeaf(e, |tree[t]|)
    ensures checked
  {
    hide Consistent, Lookup;
    assert SlotOk(E, m.mem, tree, t, x[|tree[t]|]);
  }

  /** Below a table entry on the path the walk goes on in the child. */
  lemma DescendsTo(E: Encoder, m: Machine, root: nat, tree: Tree, t: nat, target: nat, checked: bool, x: Path, w: Word)
    requires InsertPre(E, m, root, tree, t, target, checked, x, w) && |tree[t]| < target
    requires var e := Entry(m.mem, t, x[|tree[t]|]); E.isPresent(e) && !E.isBlockLeaf(e, |tree[t]|)
    ensures var c := E.entryFrame(Entry(m.mem, t, x[|tree[t]|]));
            c in tree && |tree[c]| == |tree[t]| + 1 && InsertPre(E, m, root, tree, c, target, checked, x, w)
  {
    hide Consistent;
    assert SlotOk(E, m.mem, tree, t, x[|tree[t]|]);
    PathStep(x, |tree[t]|);
  }

  // ---- map and map_block_2m ------------------------------------------------

  function LookupAt(E: Encoder, mem: Memory, root: nat, v: nat): Option<Hit> {
    Lookup(E, mem, root, 0, Indices(v))
  }

  function Map(E: Encoder, m: Machine, root: nat, v: nat, f: nat, perms: Permissions): (Machine, MapResult) {
    if v % FRAME_SIZE != 0 then (m, Unaligned)
    else Insert(E, m, root, 0, LEVELS - 1, true, Indices(v), E.encodeLeaf(f, perms))
  }

  function MapBlock(E: Encoder, m: Machine, root: nat, v: nat, f: nat, perms: Permissions): (Machine, MapResult) {
    if v % BLOCK_2M != 0 || (f * FRAME_SIZE) % BLOCK_2M != 0 then (m, Unaligned)
    else Insert(E, m, root, 0, LEVELS - 2, false, Indices(v), E.encodeBlockLeaf(f, perms, LEVELS - 2))
  }

  /** `q` lies in the 4 KiB page (level 3) or 2 MiB block (level 2) of `v`. */
  predicate Near(q: nat, v: nat, level: nat) {
    if level == LEVELS - 1 then PageOf(q) == PageOf(v) else PageOf(q) / ENTRIES == PageOf(v) / ENTRIES
  }

  /** Every address near `v` is now decided by `h` if `done`, and all others as before. */
  ghost predicate OnlyNear(E: Encoder, mem: Memory, mem': Memory, root: nat, v: nat, h: Hit, done: bool) {
    forall q: nat :: LookupAt(E, mem', root, q) ==
                     if done && Near(q, v, h.level) then Some(h) else LookupAt(E, mem, root, q)
  }

  /** Interior tables that mapping the page of `v` still needs. */
  function MissingTables(E: Encoder, mem: Memory, root: nat, v: nat): nat {
    Missing(E, mem, root, 0, LEVELS - 1, Indices(v))
  }

  /** `map`: when each outcome occurs, and what it does to every address. */
  lemma MapCorrect(E: Encoder, m: Machine, root: nat, tree: Tree, v: nat, f: nat, perms: Permissions)
    returns (tree': Tree)
    requires SpaceOk(E, m, root, tree) && f < FRAME_LIMIT
    ensures var (m', r) := Map(E, m, root, v, f, perms);
            && SpaceOk(E, m', root, tree') && Grown(m, tree, m', tree')
            && OnlyNear(E, m.mem, m'.mem, root, v, Hit(E.encodeLeaf(f, perms), LEVELS - 1), r.Mapped?)
            && (r.Unaligned? <==> v % FRAME_SIZE != 0)
            && (!r.Unaligned? ==>
                  var before := LookupAt(E, m.mem, root, v);
                  && (r.Occupied? <==> before.Some? && before.value.level == LEVELS - 1)
                  && (r.Covered? <==> before.Some? && before.value.level == LEVELS - 2)
                  && (r.NoFrame? <==> before.None? && MissingTables(E, m.mem, root, v) > FreeCount(m.pool))
                  && (r.Mapped? <==> before.None? && MissingTables(E, m.mem, root, v) <= FreeCount(m.pool)))
  {
    hide Insert, Consistent;
    tree' := tree;
    if v % FRAME_SIZE == 0 {
      var w := E.encodeLeaf(f, perms);
      tree' := InsertCorrect(E, m, root, tree, root, LEVELS - 1, true, Indices(v), w);
      var (m', r) := Map(E, m, root, v, f, perms);
      forall q: nat
        ensures LookupAt(E, m'.mem, root, q) ==
                if r.Mapped? && Near(q, v, LEVELS - 1) then Some(Hit(w, LEVELS - 1)) else LookupAt(E, m.mem, root, q)
      {
        SameSlotIsSamePage(q, v);
      }
      assert r.Mapped? ==> SameSlot(Indices(v), Indices(v), LEVELS - 1);
    }
  }

  /** The addresses of a mapped page: offset `o` of the page reaches offset `o` of the frame. */
  lemma MapTranslates(E: Encoder, m: Machine, root: nat, tree: Tree, v: nat, f: nat, perms: Permissions, o: nat)
    requires SpaceOk(E, m, root, tree) && f < FRAME_LIMIT && o < FRAME_SIZE
    requires Map(E, m, root, v, f, perms).1.Mapped?
    ensures Translate(E, Map(E, m, root, v, f, perms).0.mem, root, v + o) == Some(f * FRAME_SIZE + o)
  {
    var tree' := MapCorrect(E, m, root, tree, v, f, perms);
    PageTranslates(E, m.mem, Map(E, m, root, v, f, perms).0.mem, root, v, f, Hit(E.encodeLeaf(f, perms), LEVELS - 1),
                   o);
  }

  lemma PageTranslates(E: Encoder, mem: Memory, mem': Memory, root: nat, v: nat, f: nat, h: Hit, o: nat)
    requires OnlyNear(E, mem, mem', root, v, h, true) && h.level == LEVELS - 1 && E.entryFrame(h.entry) == f
    requires v % FRAME_SIZE == 0 && o < FRAME_SIZE
    ensures Translate(E, mem', root, v + o) == Some(f * FRAME_SIZE + o)
  {
    PageOffset(v, o);
    assert Near(v + o, v, LEVELS - 1);
    assert LookupAt(E, mem', root, v + o) == Some(h);
    LeafTranslates(E, h, f, v + o);
  }

  lemma BlockPagesTranslate(E: Encoder, mem: Memory, mem': Memory, root: nat, v: nat, f: nat, h: Hit, o: nat)
    requires OnlyNear(E, mem, mem', root, v, h, true) && h.level == LEVELS - 2 && E.entryFrame(h.entry) == f
    requires v % BLOCK_2M == 0 && f % ENTRIES == 0 && o < BLOCK_2M
    ensures Translate(E, mem', root, v + o) == Some(f * FRAME_SIZE + o)
  {
    BlockOffset(v, o);
    assert Near(v + o, v, LEVELS - 2);
    assert LookupAt(E, mem', root, v + o) == Some(h);
    BlockTranslates(E, h, f, v + o);
  }

  lemma LeafTranslates(E: Encoder, h: Hit, f: nat, v: nat)
    requires h.level == LEVELS - 1 && E.entryFrame(h.entry) == f
    ensures PhysicalOf(E, h, v) == f * FRAME_SIZE + v % FRAME_SIZE
  {
    OffsetPowers();
    MultipleMod(f, FRAME_SIZE);
    OrIsAdd(f * FRAME_SIZE, v % FRAME_SIZE, 12);
  }

  lemma BlockTranslates(E: Encoder, h: Hit, f: nat, v: nat)
    requires h.level == LEVELS - 2 && E.entryFrame(h.entry) == f && f % ENTRIES == 0
    ensures PhysicalOf(E, h, v) == f * FRAME_SIZE + v % BLOCK_2M
  {
    OffsetPowers();
    assert f * FRAME_SIZE == (f / ENTRIES) * BLOCK_2M;
    MultipleMod(f / ENTRIES, BLOCK_2M);
    OrIsAdd(f * FRAME_SIZE, v % BLOCK_2M, 21);
  }

  lemma FrameAligned(f: nat)
    ensures (f * FRAME_SIZE) % BLOCK_2M == 0 <==> f % ENTRIES == 0
  {
    DivMod(f * FRAME_SIZE, BLOCK_2M, f / ENTRIES, (f % ENTRIES) * FRAME_SIZE);
  }

  /** `map_block_2m`: it may ignore interior blocks because a well-formed space has none
      above level LEVELS-2. A page table in the slot stops it even if that table maps
      nothing, as one left behind by a failed `map` does. */
  lemma MapBlockCorrect(E: Encoder, m: Machine, root: nat, tree: Tree, v: nat, f: nat, perms: Permissions)
    returns (tree': Tree)
    requires SpaceOk(E, m, root, tree) && f < FRAME_LIMIT
    ensures var (m', r) := MapBlock(E, m, root, v, f, perms);
            && SpaceOk(E, m', root, tree') && Grown(m, tree, m', tree')
            && OnlyNear(E, m.mem, m'.mem, root, v, Hit(E.encodeBlockLeaf(f, perms, LEVELS - 2), LEVELS - 2), r.Mapped?)
            && (r.Unaligned? <==> v % BLOCK_2M != 0 || f % ENTRIES != 0)
            && (!r.Unaligned? ==>
                  var taken := SlotTaken(E, m.mem, root, 0, LEVELS - 2, Indices(v));
                  var missing := Missing(E, m.mem, root, 0, LEVELS - 2, Indices(v));
                  && (r.NoFrame? <==> missing > FreeCount(m.pool))
                  && (r.Occupied? <==> taken)
                  && (r.Mapped? <==> !taken && missing <= FreeCount(m.pool)))
            && (r.Mapped? ==> forall q: nat :: Near(q, v, LEVELS - 2) ==> LookupAt(E, m.mem, root, q).None?)
            && !r.Covered?
  {
    hide Insert, Consistent, SlotTaken, Missing;
    tree' := tree;
    FrameAligned(f);
    if v % BLOCK_2M == 0 && f % ENTRIES == 0 {
      var w := E.encodeBlockLeaf(f, perms, LEVELS - 2);
      tree' := InsertCorrect(E, m, root, tree, root, LEVELS - 2, false, Indices(v), w);
      InsertOccupied(E, m, root, tree, root, LEVELS - 2, false, Indices(v), w);
      var (m', r) := MapBlock(E, m, root, v, f, perms);
      forall q: nat
        ensures LookupAt(E, m'.mem, root, q) ==
                if r.Mapped? && Near(q, v, LEVELS - 2) then Some(Hit(w, LEVELS - 2))
                else LookupAt(E, m.mem, root, q)
        ensures r.Mapped? && Near(q, v, LEVELS - 2) ==> LookupAt(E, m.mem, root, q).None?
      {
        SameSlotIsSamePage(q, v);
      }
    }
  }
}
