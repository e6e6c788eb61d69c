/** The address-space manager (cibos-kernel/src/address_space.rs): one page-table
    tree per boundary over one frame pool, and isolation over every run of its
    operations. */
module Boundaries {
  import opened PageEncoding
  import opened Addressing
  import opened FramePool
  import opened PageTables
  import opened Mapping
  import opened Ranges
  import opened Options
  import opened Sequences

  /** A boundary's root table and the data frames mapped for it. */
  datatype Space = Space(root: nat, mapped: seq<nat>)

  datatype Manager = Manager(m: Machine, spaces: map<nat, Space>)

  datatype Outcome =
    | Done
    | AlreadyHasSpace
    | UnknownContainer
    | AllocFailed(why: AllocResult)
    | MapFailed(how: MapResult)

  // ---- operations ----------------------------------------------------------

  function CreateSpace(g: Manager, b: nat): (Manager, Outcome) {
    if b in g.spaces then (g, AlreadyHasSpace)
    else
      var a := AllocateZeroed(g.m);
      if a.1.Frame? then (Manager(a.0, g.spaces[b := Space(a.1.index, [])]), Done)
      else (Manager(a.0, g.spaces), AllocFailed(a.1))
  }

  /** One page of `map_new_pages`: a zeroed frame, mapped at `v` and recorded. */
  function MapOne(E: Encoder, m: Machine, s: Space, v: nat, perms: Permissions): ((Machine, Space), Outcome) {
    var a := AllocateZeroed(m);
    if !a.1.Frame? then ((a.0, s), AllocFailed(a.1))
    else
      var r := Map(E, a.0, s.root, v, a.1.index, perms);
      if r.1.Mapped? then ((r.0, Space(s.root, s.mapped + [a.1.index])), Done) else ((r.0, s), MapFailed(r.1))
  }

  /** The loop of `map_new_pages` from page `i`; what was mapped stays on an error. */
  function MapNewFrom(E: Encoder, m: Machine, s: Space, virt: nat, count: nat, perms: Permissions, i: nat)
    : ((Machine, Space), Outcome)
    decreases count - i
  {
    if i >= count then ((m, s), Done)
    else
      var r := MapOne(E, m, s, virt + i * FRAME_SIZE, perms);
      if r.1.Done? then MapNewFrom(E, r.0.0, r.0.1, virt, count, perms, i + 1) else r
  }

  function MapNewPages(E: Encoder, g: Manager, b: nat, virt: nat, count: nat, perms: Permissions): (Manager, Outcome) {
    if b !in g.spaces then (g, UnknownContainer)
    else
      var r := MapNewFrom(E, g.m, g.spaces[b], virt, count, perms, 0);
      (Manager(r.0.0, g.spaces[b := r.0.1]), r.1)
  }

  function MapExisting(E: Encoder, g: Manager, b: nat, virt: nat, phys: nat, count: nat, perms: Permissions)
    : (Manager, Outcome)
  {
    if b !in g.spaces then (g, UnknownContainer)
    else
      var r := MapRange(E, g.m, g.spaces[b].root, virt, phys, count, perms);
      (Manager(r.0, g.spaces), if r.1.Mapped? then Done else MapFailed(r.1))
  }

  function ReleaseAll(p: Pool, frames: seq<nat>): Pool
    decreases |frames|
  {
    if frames == [] then p else ReleaseAll(Release(p, frames[0]), frames[1..])
  }

  function DestroySpace(g: Manager, b: nat): (Manager, Outcome) {
    if b !in g.spaces then (g, UnknownContainer)
    else (Manager(g.m.(pool := ReleaseAll(g.m.pool, g.spaces[b].mapped)), g.spaces - {b}), Done)
  }

  function TranslateIn(E: Encoder, g: Manager, b: nat, v: nat): Option<nat> {
    if b in g.spaces then Translate(E, g.m.mem, g.spaces[b].root, v) else None
  }

  // ---- the isolation invariant ---------------------------------------------

  /** Frame `f` is a table or a recorded data frame of boundary `b`. */
  ghost predicate Owns(spaces: map<nat, Space>, trees: map<nat, Tree>, b: nat, f: nat)
    requires b in spaces && b in trees
  {
    f in trees[b] || f in spaces[b].mapped
  }

  ghost predicate OneOwner(spaces: map<nat, Space>, trees: map<nat, Tree>)
    requires trees.Keys == spaces.Keys
  {
    forall b, c, f {:trigger Owns(spaces, trees, b, f), Owns(spaces, trees, c, f)} ::
      b in spaces && c in spaces && Owns(spaces, trees, b, f) && Owns(spaces, trees, c, f) ==> b == c
  }

  ghost predicate SpaceHeld(E: Encoder, m: Machine, s: Space, tree: Tree) {
    && Wf(E, m.mem, s.root, tree) && Backed(m, tree.Keys)
    && (forall f :: f in s.mapped ==> f < m.pool.frameCount && Bit(m.pool.words, f) && f !in tree)
    && Distinct(s.mapped)
  }

  /** Every live boundary has a well-formed space of allocated frames, and no frame
      belongs to two boundaries or to one boundary in two roles. */
  ghost predicate Isolated(E: Encoder, m: Machine, spaces: map<nat, Space>, trees: map<nat, Tree>) {
    && Lawful(E) && MachineOk(m) && trees.Keys == spaces.Keys
    && (forall b {:trigger spaces[b]} {:trigger trees[b]} :: b in spaces ==> SpaceHeld(E, m, spaces[b], trees[b]))
    && OneOwner(spaces, trees)
  }

  /** `f` belongs to no live boundary. */
  ghost predicate Unowned(spaces: map<nat, Space>, trees: map<nat, Tree>, f: nat)
    requires trees.Keys == spaces.Keys
  {
    forall b :: b in spaces ==> !Owns(spaces, trees, b, f)
  }

  /** The allocated frames that belong to no live boundary: nothing here ever returns them. */
  ghost function Strays(m: Machine, spaces: map<nat, Space>, trees: map<nat, Tree>): set<nat>
    requires trees.Keys == spaces.Keys
  {
    set f: nat | f < m.pool.frameCount && Bit(m.pool.words, f) && Unowned(spaces, trees, f)
  }

  /** `after` is `before` and `n` more. */
  ghost predicate Gains(before: set<nat>, after: set<nat>, n: nat) {
    before <= after && |after| == |before| + n
  }

  // ---- a space is unaffected by writes outside its tables ------------------

  lemma {:induction false} ForeignLookup(E: Encoder, mem: Memory, mem': Memory, root: nat, tree: Tree, u: nat, y: Path)
    requires Wf(E, mem, root, tree) && |mem'| == |mem| && (forall t :: t in tree ==> t < |mem| && mem'[t] == mem[t])
    requires u in tree && tree[u] == y[..|tree[u]|]
    ensures Lookup(E, mem', u, |tree[u]|, y) == Lookup(E, mem, u, |tree[u]|, y)
    decreases LEVELS - |tree[u]|
  {
    var k := |tree[u]|;
    var e := Entry(mem, u, y[k]);
    if E.isPresent(e) && k < LEVELS - 1 && !E.isBlockLeaf(e, k) {
      assert SlotOk(E, mem, tree, u, y[k]);
      PathStep(y, k);
      ForeignLookup(E, mem, mem', root, tree, E.entryFrame(e), y);
    }
  }

  lemma {:induction false} ForeignMissing(E: Encoder, mem: Memory, mem': Memory, root: nat, tree: Tree, u: nat, y: Path)
    requires Wf(E, mem, root, tree) && |mem'| == |mem| && (forall t :: t in tree ==> t < |mem| && mem'[t] == mem[t])
    requires u in tree && |tree[u]| < LEVELS && tree[u] == y[..|tree[u]|]
    ensures Missing(E, mem', u, |tree[u]|, LEVELS - 1, y) == Missing(E, mem, u, |tree[u]|, LEVELS - 1, y)
    decreases LEVELS - |tree[u]|
  {
    var k := |tree[u]|;
    var e := Entry(mem, u, y[k]);
    if E.isPresent(e) && k < LEVELS - 1 && !E.isBlockLeaf(e, k) {
      assert SlotOk(E, mem, tree, u, y[k]);
      PathStep(y, k);
      ForeignMissing(E, mem, mem', root, tree, E.entryFrame(e), y);
    }
  }

  lemma SameMissing(E: Encoder, mem: Memory, mem': Memory, root: nat, tree: Tree, v: nat)
    requires Wf(E, mem, root, tree) && |mem'| == |mem| && (forall t :: t in tree ==> t < |mem| && mem'[t] == mem[t])
    ensures MissingTables(E, mem', root, v) == MissingTables(E, mem, root, v)
  {
    ForeignMissing(E, mem, mem', root, tree, root, Indices(v));
  }

  lemma ForeignWf(E: Encoder, mem: Memory, mem': Memory, root: nat, tree: Tree)
    requires Wf(E, mem, root, tree) && |mem'| == |mem| && (forall t :: t in tree ==> t < |mem| && mem'[t] == mem[t])
    ensures Wf(E, mem', root, tree)
  {
    forall t, i: nat | t in tree && i < ENTRIES
      ensures SlotOk(E, mem', tree, t, i)
    {
      assert SlotOk(E, mem, tree, t, i);
    }
    forall c | c in tree && c != root
      ensures HasParent(E, mem', tree, c)
    {
      assert HasParent(E, mem, tree, c);
      var p, j: nat :| p in tree && j < ENTRIES && tree[c] == tree[p] + [j] && Points(E, mem, tree, p, j, c);
      assert Points(E, mem', tree, p, j, c);
    }
  }

  lemma ForeignSpace(E: Encoder, mem: Memory, mem': Memory, root: nat, tree: Tree)
    requires Wf(E, mem, root, tree) && |mem'| == |mem| && (forall t :: t in tree ==> t < |mem| && mem'[t] == mem[t])
    ensures Wf(E, mem', root, tree)
    ensures forall v: nat :: LookupAt(E, mem', root, v) == LookupAt(E, mem, root, v)
  {
    ForeignWf(E, mem, mem', root, tree);
    forall v: nat
      ensures LookupAt(E, mem', root, v) == LookupAt(E, mem, root, v)
    {
      ForeignLookup(E, mem, mem', root, tree, root, Indices(v));
    }
  }

  // ---- steps ---------------------------------------------------------------

  /** `m'` keeps every page of `frames`, every set bit, and the size of everything. */
  ghost predicate Keeps(m: Machine, m': Machine, frames: set<nat>) {
    && |m'.mem| == |m.mem| && m'.pool.frameCount == m.pool.frameCount
    && (forall t :: t in frames && t < |m.mem| ==> m'.mem[t] == m.mem[t])
    && (forall f: nat :: Bit(m.pool.words, f) ==> Bit(m'.pool.words, f))
  }

  lemma SpaceKept(E: Encoder, m: Machine, m': Machine, s: Space, tree: Tree)
    requires SpaceHeld(E, m, s, tree) && Keeps(m, m', tree.Keys)
    ensures SpaceHeld(E, m', s, tree)
    ensures forall v: nat :: LookupAt(E, m'.mem, s.root, v) == LookupAt(E, m.mem, s.root, v)
  {
    hide Lookup;
    ForeignSpace(E, m.mem, m'.mem, s.root, tree);
  }

  /** Same walks for every boundary other than `b`. */
  ghost predicate OthersSame(E: Encoder, mem: Memory, mem': Memory, spaces: map<nat, Space>, b: nat) {
    forall c, v: nat {:trigger LookupAt(E, mem', spaces[c].root, v)} :: c in spaces && c != b ==>
      LookupAt(E, mem', spaces[c].root, v) == LookupAt(E, mem, spaces[c].root, v)
  }

  lemma ReplaceOwner(spaces: map<nat, Space>, trees: map<nat, Tree>, b: nat, s': Space, tree': Tree)
    requires trees.Keys == spaces.Keys && OneOwner(spaces, trees)
    requires forall f :: (f in tree' || f in s'.mapped) && !(b in spaces && Owns(spaces, trees, b, f)) ==>
               Unowned(spaces, trees, f)
    ensures OneOwner(spaces[b := s'], trees[b := tree'])
  {
    var spaces', trees' := spaces[b := s'], trees[b := tree'];
    forall c, d, f | c in spaces' && d in spaces' && Owns(spaces', trees', c, f) && Owns(spaces', trees', d, f)
      ensures c == d
    {
      assert c != b ==> Owns(spaces, trees, c, f);
      assert d != b ==> Owns(spaces, trees, d, f);
    }
  }

  /** One boundary's space is replaced by a valid one that took only unowned frames;
      everyone else's pages and bits are kept. */
  lemma ReplaceSpace(E: Encoder, m: Machine, m': Machine, spaces: map<nat, Space>, trees: map<nat, Tree>,
                     b: nat, s': Space, tree': Tree)
    requires Isolated(E, m, spaces, trees) && MachineOk(m')
    requires SpaceHeld(E, m', s', tree')
    requires forall c :: c in spaces && c != b ==> Keeps(m, m', trees[c].Keys)
    requires forall f :: (f in tree' || f in s'.mapped) && !(b in spaces && Owns(spaces, trees, b, f)) ==>
               Unowned(spaces, trees, f)
    ensures Isolated(E, m', spaces[b := s'], trees[b := tree'])
    ensures OthersSame(E, m.mem, m'.mem, spaces, b)
  {
    hide Wf, Lookup, Consistent, Lawful, OneOwner, SpaceHeld, LookupAt, Keeps;
    forall c | c in spaces && c != b
      ensures SpaceHeld(E, m', spaces[c], trees[c])
      ensures forall v: nat :: LookupAt(E, m'.mem, spaces[c].root, v) == LookupAt(E, m.mem, spaces[c].root, v)
    {
      SpaceKept(E, m, m', spaces[c], trees[c]);
    }
    ReplaceOwner(spaces, trees, b, s', tree');
  }

  lemma AllocData(E: Encoder, m: Machine, spaces: map<nat, Space>, trees: map<nat, Tree>)
    requires Isolated(E, m, spaces, trees) && AllocateZeroed(m).1.Frame?
    ensures var (m1, a) := AllocateZeroed(m);
            && MachineOk(m1) && IsFree(m.pool, a.index) && Bit(m1.pool.words, a.index)
            && Unowned(spaces, trees, a.index) && m1.mem[a.index] == ZeroPage()
            && (forall c :: c in spaces ==> Keeps(m, m1, trees[c].Keys))
  {
    hide Wf, Lookup, Lawful, Allocate, OneOwner;
    AllocateIsLowestFree(m.pool);
    forall c, f: nat | c in spaces && Owns(spaces, trees, c, f)
      ensures Bit(m.pool.words, f) && f < m.pool.frameCount
    {
      assert SpaceHeld(E, m, spaces[c], trees[c]);
    }
    hide Consistent, SpaceHeld;
  }

  lemma AllocKeepsIsolation(E: Encoder, m: Machine, spaces: map<nat, Space>, trees: map<nat, Tree>)
    requires Isolated(E, m, spaces, trees)
    ensures var (m1, a) := AllocateZeroed(m);
            && Isolated(E, m1, spaces, trees) && (!a.Frame? ==> m1 == m)
            && (forall c, v: nat {:trigger LookupAt(E, m1.mem, spaces[c].root, v)} :: c in spaces ==>
                  LookupAt(E, m1.mem, spaces[c].root, v) == LookupAt(E, m.mem, spaces[c].root, v))
  {
    hide Wf, Lookup, Lawful, Consistent;
    var (m1, a) := AllocateZeroed(m);
    AllocateIsLowestFree(m.pool);
    if a.Frame? {
      AllocData(E, m, spaces, trees);
      forall c | c in spaces
        ensures SpaceHeld(E, m1, spaces[c], trees[c])
        ensures forall v: nat :: LookupAt(E, m1.mem, spaces[c].root, v) == LookupAt(E, m.mem, spaces[c].root, v)
      {
        SpaceKept(E, m, m1, spaces[c], trees[c]);
      }
    }
  }

  /** A fresh frame belongs to no one until it is recorded. */
  lemma AllocStrays(E: Encoder, m: Machine, spaces: map<nat, Space>, trees: map<nat, Tree>)
    requires Isolated(E, m, spaces, trees) && AllocateZeroed(m).1.Frame?
    ensures var (m1, a) := AllocateZeroed(m);
            && a.index !in Strays(m, spaces, trees)
            && Strays(m1, spaces, trees) == Strays(m, spaces, trees) + {a.index}
  {
    hide Wf, Lookup, Lawful, Allocate, SpaceHeld, OneOwner, Owns;
    AllocData(E, m, spaces, trees);
    AllocateIsLowestFree(m.pool);
  }

  lemma GrowStrays(m: Machine, m': Machine, spaces: map<nat, Space>, trees: map<nat, Tree>, b: nat, tree': Tree)
    requires trees.Keys == spaces.Keys && b in spaces && Grown(m, trees[b], m', tree')
    ensures Strays(m', spaces, trees[b := tree']) == Strays(m, spaces, trees)
  {
    GrowUnowned(m, m', spaces, trees, b, tree');
    forall f: nat | Unowned(spaces, trees[b := tree'], f)
      ensures Unowned(spaces, trees, f) && f !in tree'
    {
      assert !Owns(spaces, trees[b := tree'], b, f);
      forall c | c in spaces
        ensures !Owns(spaces, trees, c, f)
      {
        assert !Owns(spaces, trees[b := tree'], c, f);
      }
    }
  }

  lemma RecordStrays(m: Machine, spaces: map<nat, Space>, trees: map<nat, Tree>, b: nat, f: nat)
    requires trees.Keys == spaces.Keys && b in spaces
    ensures var spaces' := spaces[b := Space(spaces[b].root, spaces[b].mapped + [f])];
            Strays(m, spaces', trees) == Strays(m, spaces, trees) - {f}
  {
    var spaces' := spaces[b := Space(spaces[b].root, spaces[b].mapped + [f])];
    assert f in spaces'[b].mapped;
    forall g: nat
      ensures Unowned(spaces', trees, g) <==> Unowned(spaces, trees, g) && g != f
    {
      assert Owns(spaces', trees, b, g) <==> Owns(spaces, trees, b, g) || g == f;
      if Unowned(spaces', trees, g) {
        forall c | c in spaces
          ensures !Owns(spaces, trees, c, g)
        {
          assert !Owns(spaces', trees, c, g);
        }
      }
      if Unowned(spaces, trees, g) && g != f {
        forall c | c in spaces'
          ensures !Owns(spaces', trees, c, g)
        {
          assert !Owns(spaces, trees, c, g);
        }
      }
    }
  }

  /** Growing boundary `b`'s tree touches no other boundary. */
  lemma GrowSpace(E: Encoder, m: Machine, m': Machine, spaces: map<nat, Space>, trees: map<nat, Tree>, b: nat,
                  tree': Tree)
    requires Isolated(E, m, spaces, trees) && b in spaces
    requires SpaceOk(E, m', spaces[b].root, tree') && Grown(m, trees[b], m', tree')
    ensures Isolated(E, m', spaces, trees[b := tree'])
    ensures OthersSame(E, m.mem, m'.mem, spaces, b)
    ensures forall f :: Unowned(spaces, trees, f) && Bit(m.pool.words, f) ==> Unowned(spaces, trees[b := tree'], f)
    ensures Strays(m', spaces, trees[b := tree']) == Strays(m, spaces, trees)
  {
    hide Wf, Lookup, Lawful, Consistent, SpaceHeld, OneOwner, Keeps, Owns, Unowned, Grown, OthersSame, Backed, Strays;
    GrowKeeps(E, m, m', spaces, trees, b, tree');
    ReplaceSpace(E, m, m', spaces, trees, b, spaces[b], tree');
    assert spaces[b := spaces[b]] == spaces;
    GrowUnowned(m, m', spaces, trees, b, tree');
    GrowStrays(m, m', spaces, trees, b, tree');
  }

  lemma GrowUnowned(m: Machine, m': Machine, spaces: map<nat, Space>, trees: map<nat, Tree>, b: nat, tree': Tree)
    requires trees.Keys == spaces.Keys && b in spaces && Grown(m, trees[b], m', tree')
    ensures forall f :: Unowned(spaces, trees, f) && Bit(m.pool.words, f) ==> Unowned(spaces, trees[b := tree'], f)
  {
    forall f | Unowned(spaces, trees, f) && Bit(m.pool.words, f)
      ensures Unowned(spaces, trees[b := tree'], f)
    {
      forall c | c in spaces
        ensures !Owns(spaces, trees[b := tree'], c, f)
      {
        assert !Owns(spaces, trees, c, f);
      }
    }
  }

  lemma GrowKeeps(E: Encoder, m: Machine, m': Machine, spaces: map<nat, Space>, trees: map<nat, Tree>, b: nat,
                  tree': Tree)
    requires Isolated(E, m, spaces, trees) && b in spaces
    requires SpaceOk(E, m', spaces[b].root, tree') && Grown(m, trees[b], m', tree')
    ensures SpaceHeld(E, m', spaces[b], tree')
    ensures forall c :: c in spaces && c != b ==> Keeps(m, m', trees[c].Keys)
    ensures forall f :: (f in tree' || f in spaces[b].mapped) && !Owns(spaces, trees, b, f) ==>
              Unowned(spaces, trees, f)
  {
    hide Wf, Lookup, Lawful;
    forall c: nat, f: nat | c in spaces && Owns(spaces, trees, c, f)
      ensures Bit(m.pool.words, f) && f < m.pool.frameCount
    {
      assert SpaceHeld(E, m, spaces[c], trees[c]);
    }
    forall c | c in spaces && c != b
      ensures Keeps(m, m', trees[c].Keys)
    {
      forall t | t in trees[c].Keys && t < |m.mem|
        ensures m'.mem[t] == m.mem[t]
      {
        assert Owns(spaces, trees, c, t);
        assert !Owns(spaces, trees, b, t);
      }
    }
    assert SpaceHeld(E, m, spaces[b], trees[b]);
  }

  // ---- private pages -------------------------------------------------------

  /** Every address of the space is decided by a 4 KiB leaf onto one of its own data
      frames, and no two pages share a frame. */
  ghost predicate Private(E: Encoder, mem: Memory, s: Space) {
    && (forall q: nat :: LookupAt(E, mem, s.root, q).Some? ==>
          var h := LookupAt(E, mem, s.root, q).value; h.level == LEVELS - 1 && E.entryFrame(h.entry) in s.mapped)
    && (forall q: nat, r: nat {:trigger LookupAt(E, mem, s.root, q), LookupAt(E, mem, s.root, r)} ::
          LookupAt(E, mem, s.root, q).Some? && LookupAt(E, mem, s.root, r).Some?
          && E.entryFrame(LookupAt(E, mem, s.root, q).value.entry) ==
               E.entryFrame(LookupAt(E, mem, s.root, r).value.entry)
          ==> PageOf(q) == PageOf(r))
  }

  lemma PrivateKept(E: Encoder, mem: Memory, mem': Memory, s: Space)
    requires Private(E, mem, s) && forall q: nat :: LookupAt(E, mem', s.root, q) == LookupAt(E, mem, s.root, q)
    ensures Private(E, mem', s)
  {
    hide Lookup, LookupAt, PageOf;
  }

  lemma PrivateGrows(E: Encoder, mem: Memory, mem': Memory, s: Space, v: nat, f: nat, h: Hit)
    requires Private(E, mem, s) && OnlyNear(E, mem, mem', s.root, v, h, true)
    requires h.level == LEVELS - 1 && E.entryFrame(h.entry) == f && f !in s.mapped
    ensures Private(E, mem', Space(s.root, s.mapped + [f]))
  {
    hide Lookup, LookupAt, PageOf;
  }

  // ---- one page of map_new_pages -------------------------------------------

  /** What mapping one new page into boundary `b` does. */
  ghost predicate OnePage(E: Encoder, m: Machine, s: Space, v: nat, perms: Permissions, m': Machine, s': Space,
                          r: Outcome) {
    && s'.root == s.root
    && (!r.Done? ==> s' == s && forall q: nat :: LookupAt(E, m'.mem, s.root, q) == LookupAt(E, m.mem, s.root, q))
    && (r.Done? ==>
          && |s'.mapped| == |s.mapped| + 1 && s' == Space(s.root, s.mapped + [s'.mapped[|s.mapped|]])
          && var f := s'.mapped[|s.mapped|];
             && IsFree(m.pool, f) && f < |m'.mem| && m'.mem[f] == ZeroPage() && v % FRAME_SIZE == 0
             && LookupAt(E, m.mem, s.root, v).None? && f < FRAME_LIMIT
             && OnlyNear(E, m.mem, m'.mem, s.root, v, Hit(E.encodeLeaf(f, perms), LEVELS - 1), true))
  }

  lemma RecordFrame(E: Encoder, m: Machine, spaces: map<nat, Space>, trees: map<nat, Tree>, b: nat, f: nat)
    requires Isolated(E, m, spaces, trees) && b in spaces && Unowned(spaces, trees, f)
    requires f < m.pool.frameCount && Bit(m.pool.words, f)
    ensures Isolated(E, m, spaces[b := Space(spaces[b].root, spaces[b].mapped + [f])], trees)
  {
    hide Wf, Lookup, Lawful, Consistent, LookupAt, OneOwner;
    var s, s' := spaces[b], Space(spaces[b].root, spaces[b].mapped + [f]);
    assert !Owns(spaces, trees, b, f);
    assert SpaceHeld(E, m, s, trees[b]);
    assert SpaceHeld(E, m, s', trees[b]);
    forall g | (g in trees[b] || g in s'.mapped) && !Owns(spaces, trees, b, g)
      ensures Unowned(spaces, trees, g)
    {
      assert g == f;
    }
    ReplaceSpace(E, m, m, spaces, trees, b, s', trees[b]);
    assert trees[b := trees[b]] == trees;
  }

  /** Mapping a fresh unowned frame `f` into boundary `b`. */
  lemma MapFresh(E: Encoder, m: Machine, spaces: map<nat, Space>, trees: map<nat, Tree>, b: nat, v: nat, f: nat,
                 perms: Permissions)
    returns (trees': map<nat, Tree>)
    requires Isolated(E, m, spaces, trees) && b in spaces && Unowned(spaces, trees, f)
    requires f < m.pool.frameCount && Bit(m.pool.words, f)
    ensures var (m', r) := Map(E, m, spaces[b].root, v, f, perms);
            var s' := if r.Mapped? then Space(spaces[b].root, spaces[b].mapped + [f]) else spaces[b];
            && Isolated(E, m', spaces[b := s'], trees') && OthersSame(E, m.mem, m'.mem, spaces, b)
            && |m'.mem| == |m.mem| && m'.pool.frameCount == m.pool.frameCount && m'.mem[f] == m.mem[f]
            && OnlyNear(E, m.mem, m'.mem, spaces[b].root, v, Hit(E.encodeLeaf(f, perms), LEVELS - 1), r.Mapped?)
            && (r.Mapped? ==> v % FRAME_SIZE == 0 && LookupAt(E, m.mem, spaces[b].root, v).None?)
            && Strays(m', spaces[b := s'], trees') == Strays(m, spaces, trees) - (if r.Mapped? then {f} else {})
  {
    hide Wf, Lookup, Consistent, LookupAt, OneOwner, OthersSame, Map, Insert, OnlyNear, Missing, Strays;
    assert SpaceHeld(E, m, spaces[b], trees[b]);
    var tree' := MapCorrect(E, m, spaces[b].root, trees[b], v, f, perms);
    var (m', r) := Map(E, m, spaces[b].root, v, f, perms);
    GrowSpace(E, m, m', spaces, trees, b, tree');
    trees' := trees[b := tree'];
    assert Unowned(spaces, trees', f);
    assert !Owns(spaces, trees', b, f);
    if r.Mapped? {
      RecordFrame(E, m', spaces, trees', b, f);
      RecordStrays(m', spaces, trees', b, f);
    } else {
      assert spaces[b := spaces[b]] == spaces;
    }
  }

  lemma MapOneCorrect(E: Encoder, m: Machine, spaces: map<nat, Space>, trees: map<nat, Tree>, b: nat, v: nat,
                      perms: Permissions)
    returns (trees': map<nat, Tree>)
    requires Isolated(E, m, spaces, trees) && b in spaces
    ensures var ((m', s'), r) := MapOne(E, m, spaces[b], v, perms);
            && Isolated(E, m', spaces[b := s'], trees') && OthersSame(E, m.mem, m'.mem, spaces, b)
            && OnePage(E, m, spaces[b], v, perms, m', s', r)
            && Gains(Strays(m, spaces, trees), Strays(m', spaces[b := s'], trees'), if r.MapFailed? then 1 else 0)
  {
    hide Wf, Lookup, Consistent, LookupAt, Map, Insert, Missing, SpaceHeld, OneOwner, Lawful, AllocateZeroed, Backed,
         Strays;
    var (m1, a) := AllocateZeroed(m);
    AllocKeepsIsolation(E, m, spaces, trees);
    trees' := trees;
    if a.Frame? {
      var f := a.index;
      AllocData(E, m, spaces, trees);
      AllocStrays(E, m, spaces, trees);
      trees' := MapFresh(E, m1, spaces, trees, b, v, f, perms);
    } else {
      assert spaces[b := spaces[b]] == spaces;
    }
  }

  // ---- map_new_pages -------------------------------------------------------

  /** The page at `v` is a leaf onto frame `f` with these permissions. */
  predicate PageIs(E: Encoder, mem: Memory, root: nat, v: nat, f: nat, perms: Permissions) {
    v % FRAME_SIZE == 0 && f < FRAME_LIMIT && LookupAt(E, mem, root, v) == Some(Hit(E.encodeLeaf(f, perms), LEVELS - 1))
  }

  /** Such a page translates offset for offset. */
  lemma PageIsTranslates(E: Encoder, mem: Memory, root: nat, v: nat, f: nat, perms: Permissions, o: nat)
    requires Lawful(E) && PageIs(E, mem, root, v, f, perms) && o < FRAME_SIZE
    ensures Translate(E, mem, root, v + o) == Some(f * FRAME_SIZE + o)
  {
    hide Lookup;
    PageOffset(v, o);
    SamePageSameLookup(E, mem, root, v + o, v);
    LeafTranslates(E, Hit(E.encodeLeaf(f, perms), LEVELS - 1), f, v + o);
  }

  lemma PageIsKept(E: Encoder, mem: Memory, mem': Memory, root: nat, v: nat, h: Hit, p: nat, f: nat, perms: Permissions)
    requires PageIs(E, mem, root, p, f, perms) && LookupAt(E, mem, root, v).None? && h.level == LEVELS - 1
    requires OnlyNear(E, mem, mem', root, v, h, true)
    ensures PageIs(E, mem', root, p, f, perms)
  {
    hide Lookup, PageOf;
    if PageOf(p) == PageOf(v) {
      SamePageSameLookup(E, mem, root, p, v);
    }
  }

  /** The first `n` pages from `virt` are leaves onto the data frames recorded from index `base` on. */
  ghost predicate PagesDone(E: Encoder, mem: Memory, s: Space, virt: nat, base: nat, n: nat, perms: Permissions) {
    && base + n <= |s.mapped|
    && forall k: nat :: base <= k < base + n ==>
         PageIs(E, mem, s.root, virt + (k - base) * FRAME_SIZE, s.mapped[k], perms)
  }

  lemma PagesDoneStep(E: Encoder, m: Machine, m': Machine, s: Space, s': Space, virt: nat, base: nat, n: nat,
                      perms: Permissions)
    requires PagesDone(E, m.mem, s, virt, base, n, perms) && base + n == |s.mapped|
    requires OnePage(E, m, s, virt + n * FRAME_SIZE, perms, m', s', Done)
    ensures PagesDone(E, m'.mem, s', virt, base, n + 1, perms)
  {
    hide Lookup, LookupAt, PageOf, PageIs, OnlyNear;
    var f := s'.mapped[base + n];
    var h := Hit(E.encodeLeaf(f, perms), LEVELS - 1);
    forall k: nat | base <= k < base + n + 1
      ensures PageIs(E, m'.mem, s.root, virt + (k - base) * FRAME_SIZE, s'.mapped[k], perms)
    {
      if k < base + n {
        assert s'.mapped[k] == s.mapped[k];
        PageIsKept(E, m.mem, m'.mem, s.root, virt + n * FRAME_SIZE, h, virt + (k - base) * FRAME_SIZE, s.mapped[k],
                   perms);
      } else {
        NewPageIs(E, m.mem, m'.mem, s.root, virt + n * FRAME_SIZE, f, perms);
      }
    }
  }

  lemma NewPageIs(E: Encoder, mem: Memory, mem': Memory, root: nat, v: nat, f: nat, perms: Permissions)
    requires OnlyNear(E, mem, mem', root, v, Hit(E.encodeLeaf(f, perms), LEVELS - 1), true)
    requires v % FRAME_SIZE == 0 && f < FRAME_LIMIT
    ensures PageIs(E, mem', root, v, f, perms)
  {
    assert Near(v, v, LEVELS - 1);
  }

  lemma PrivateStep(E: Encoder, m: Machine, m': Machine, s: Space, s': Space, v: nat, perms: Permissions, r: Outcome)
    requires Lawful(E) && Private(E, m.mem, s) && OnePage(E, m, s, v, perms, m', s', r)
    requires forall f :: f in s.mapped ==> Bit(m.pool.words, f)
    ensures Private(E, m'.mem, s')
  {
    hide Lookup, LookupAt, PageOf, OnlyNear, Private;
    if r.Done? {
      PrivateGrows(E, m.mem, m'.mem, s, v, s'.mapped[|s.mapped|],
                   Hit(E.encodeLeaf(s'.mapped[|s.mapped|], perms), LEVELS - 1));
    } else {
      PrivateKept(E, m.mem, m'.mem, s);
    }
  }

  lemma MappedAllocated(E: Encoder, m: Machine, spaces: map<nat, Space>, trees: map<nat, Tree>, b: nat)
    requires Isolated(E, m, spaces, trees) && b in spaces
    ensures forall f :: f in spaces[b].mapped ==> Bit(m.pool.words, f)
  {
    assert SpaceHeld(E, m, spaces[b], trees[b]);
  }

  /** `map_new_pages` from page `i` on, for boundary `b`: isolation is kept, other
      boundaries see no change, the pages mapped so far are leaves onto frames
      recorded in order, and a private space stays private. */
  lemma {:induction false} MapNewFromCorrect(E: Encoder, m: Machine, spaces: map<nat, Space>, trees: map<nat, Tree>,
                                             b: nat, virt: nat, count: nat, perms: Permissions, i: nat, base: nat)
    returns (trees': map<nat, Tree>, done: nat)
    requires Isolated(E, m, spaces, trees) && b in spaces && i <= count
    requires PagesDone(E, m.mem, spaces[b], virt, base, i, perms) && base + i == |spaces[b].mapped|
    ensures var ((m', s'), r) := MapNewFrom(E, m, spaces[b], virt, count, perms, i);
            && Isolated(E, m', spaces[b := s'], trees') && OthersSame(E, m.mem, m'.mem, spaces, b)
            && i <= done <= count && (r.Done? <==> done == count)
            && s'.root == spaces[b].root && |s'.mapped| == base + done
            && s'.mapped[..|spaces[b].mapped|] == spaces[b].mapped
            && PagesDone(E, m'.mem, s', virt, base, done, perms)
            && (Private(E, m.mem, spaces[b]) ==> Private(E, m'.mem, s'))
            && Gains(Strays(m, spaces, trees), Strays(m', spaces[b := s'], trees'), if r.MapFailed? then 1 else 0)
    decreases count - i
  {
    hide Wf, Lookup, Consistent, LookupAt, MapOne, OneOwner, PageIs, Private, SpaceHeld, OthersSame, PagesDone, Strays;
    trees', done := trees, i;
    var s := spaces[b];
    if i < count {
      var v := virt + i * FRAME_SIZE;
      var ((m1, s1), r) := MapOne(E, m, s, v, perms);
      var trees1 := MapOneCorrect(E, m, spaces, trees, b, v, perms);
      MappedAllocated(E, m, spaces, trees, b);
      if Private(E, m.mem, s) {
        PrivateStep(E, m, m1, s, s1, v, perms, r);
      }
      trees' := trees1;
      if r.Done? {
        PagesDoneStep(E, m, m1, s, s1, virt, base, i, perms);
        trees', done := MapNewFromCorrect(E, m1, spaces[b := s1], trees1, b, virt, count, perms, i + 1, base);
        OthersSameTwice(E, m.mem, m1.mem, MapNewFrom(E, m1, s1, virt, count, perms, i + 1).0.0.mem, spaces, b, s1);
        assert spaces[b := s1][b := MapNewFrom(E, m1, s1, virt, count, perms, i + 1).0.1]
            == spaces[b := MapNewFrom(E, m1, s1, virt, count, perms, i + 1).0.1];
      } else {
        PagesKept(E, m, m1, s, v, virt, base, i, perms, r);
      }
    } else {
      assert spaces[b := s] == spaces;
      OthersSameAgain(E, m.mem, spaces, b);
    }
  }

  lemma OthersSameAgain(E: Encoder, mem: Memory, spaces: map<nat, Space>, b: nat)
    ensures OthersSame(E, mem, mem, spaces, b)
  {
  }

  lemma OthersSameTwice(E: Encoder, mem: Memory, mem1: Memory, mem2: Memory, spaces: map<nat, Space>, b: nat, s1: Space)
    requires OthersSame(E, mem, mem1, spaces, b) && OthersSame(E, mem1, mem2, spaces[b := s1], b)
    ensures OthersSame(E, mem, mem2, spaces, b)
  {
    hide LookupAt;
    forall c, v: nat | c in spaces && c != b
      ensures LookupAt(E, mem2, spaces[c].root, v) == LookupAt(E, mem, spaces[c].root, v)
    {
      assert spaces[b := s1][c] == spaces[c];
    }
  }

  lemma PagesKept(E: Encoder, m: Machine, m': Machine, s: Space, v: nat, virt: nat, base: nat, n: nat,
                  perms: Permissions, r: Outcome)
    requires PagesDone(E, m.mem, s, virt, base, n, perms) && OnePage(E, m, s, v, perms, m', s, r) && !r.Done?
    ensures PagesDone(E, m'.mem, s, virt, base, n, perms)
  {
    hide Lookup, LookupAt;
    forall k: nat | base <= k < base + n
      ensures PageIs(E, m'.mem, s.root, virt + (k - base) * FRAME_SIZE, s.mapped[k], perms)
    {
      assert PageIs(E, m.mem, s.root, virt + (k - base) * FRAME_SIZE, s.mapped[k], perms);
    }
  }

  // ---- create_space and destroy_space --------------------------------------

  function RootOnly(root: nat): Tree {
    map[root := []]
  }

  /** A zeroed root table is a well-formed space that maps nothing. */
  lemma EmptySpace(E: Encoder, mem: Memory, root: nat)
    requires Lawful(E) && root < |mem| && root < FRAME_LIMIT && mem[root] == ZeroPage()
    ensures Wf(E, mem, root, map[root := []])
    ensures forall v: nat :: LookupAt(E, mem, root, v).None?
  {
  }

  lemma CreateCorrect(E: Encoder, g: Manager, trees: map<nat, Tree>, b: nat) returns (trees': map<nat, Tree>)
    requires Isolated(E, g.m, g.spaces, trees)
    ensures var (g', r) := CreateSpace(g, b);
            && Isolated(E, g'.m, g'.spaces, trees') && OthersSame(E, g.m.mem, g'.m.mem, g.spaces, b)
            && (!r.Done? ==> g' == g)
            && (r.Done? ==> b !in g.spaces && g'.spaces == g.spaces[b := Space(g'.spaces[b].root, [])]
                            && (forall v: nat :: LookupAt(E, g'.m.mem, g'.spaces[b].root, v).None?))
            && trees' == if r.Done? then trees[b := RootOnly(g'.spaces[b].root)] else trees
  {
    hide Wf, Lookup, LookupAt, Consistent, OneOwner;
    trees' := trees;
    var (m1, a) := AllocateZeroed(g.m);
    AllocKeepsIsolation(E, g.m, g.spaces, trees);
    if b !in g.spaces && a.Frame? {
      AllocData(E, g.m, g.spaces, trees);
      EmptySpace(E, m1.mem, a.index);
      var tree := RootOnly(a.index);
      trees' := trees[b := tree];
      ReplaceSpace(E, g.m, m1, g.spaces, trees, b, Space(a.index, []), tree);
    }
  }

  lemma CreateStrays(E: Encoder, g: Manager, trees: map<nat, Tree>, b: nat)
    requires trees.Keys == g.spaces.Keys && Isolated(E, g.m, g.spaces, trees) && CreateSpace(g, b).1.Done?
    ensures var g' := CreateSpace(g, b).0;
            Strays(g'.m, g'.spaces, trees[b := RootOnly(g'.spaces[b].root)]) == Strays(g.m, g.spaces, trees)
  {
    hide Isolated, Strays;
    var (m1, a) := AllocateZeroed(g.m);
    AllocStrays(E, g.m, g.spaces, trees);
    NewSpaceStrays(m1, g.spaces, trees, b, a.index, RootOnly(a.index));
  }

  lemma NewSpaceStrays(m: Machine, spaces: map<nat, Space>, trees: map<nat, Tree>, b: nat, root: nat, tree: Tree)
    requires trees.Keys == spaces.Keys && b !in spaces && tree.Keys == {root}
    ensures Strays(m, spaces[b := Space(root, [])], trees[b := tree]) == Strays(m, spaces, trees) - {root}
  {
    var spaces', trees' := spaces[b := Space(root, [])], trees[b := tree];
    forall f: nat
      ensures Unowned(spaces', trees', f) <==> Unowned(spaces, trees, f) && f != root
    {
      assert Owns(spaces', trees', b, f) <==> f == root;
      assert forall c :: c in spaces ==> (Owns(spaces', trees', c, f) <==> Owns(spaces, trees, c, f));
    }
  }

  lemma {:induction false} ReleaseAllCorrect(p: Pool, frames: seq<nat>)
    requires Consistent(p) && HintInside(p)
    requires forall f :: f in frames ==> f < p.frameCount && Bit(p.words, f)
    requires Distinct(frames)
    ensures var q := ReleaseAll(p, frames);
            && Consistent(q) && HintInside(q) && q.frameCount == p.frameCount
            && (forall g: nat :: g < p.frameCount ==> Bit(q.words, g) == (Bit(p.words, g) && g !in frames))
            && FreeCount(q) == FreeCount(p) + |frames|
    decreases |frames|
  {
    if frames != [] {
      ReleaseKeepsConsistent(p, frames[0]);
      assert forall g :: g in frames <==> g == frames[0] || g in frames[1..];
      assert frames[0] !in frames[1..];
      hide Consistent;
      ReleaseAllCorrect(Release(p, frames[0]), frames[1..]);
    }
  }

  lemma UnownedWithout(spaces: map<nat, Space>, trees: map<nat, Tree>, b: nat, f: nat)
    requires trees.Keys == spaces.Keys && b in spaces
    ensures Unowned(spaces, trees, f) <==> Unowned(spaces - {b}, trees - {b}, f) && !Owns(spaces, trees, b, f)
  {
    forall c | c in spaces && c != b
      ensures Owns(spaces - {b}, trees - {b}, c, f) <==> Owns(spaces, trees, c, f)
    {
    }
  }

  lemma OwnedByOne(spaces: map<nat, Space>, trees: map<nat, Tree>, b: nat, f: nat)
    requires trees.Keys == spaces.Keys && b in spaces && OneOwner(spaces, trees) && Owns(spaces, trees, b, f)
    ensures Unowned(spaces - {b}, trees - {b}, f)
  {
    forall c | c in spaces - {b}
      ensures !Owns(spaces - {b}, trees - {b}, c, f)
    {
      assert !Owns(spaces, trees, c, f);
    }
  }

  lemma TablesStray(m: Machine, m': Machine, spaces: map<nat, Space>, trees: map<nat, Tree>, b: nat)
    requires trees.Keys == spaces.Keys && b in spaces && OneOwner(spaces, trees)
    requires Backed(m, trees[b].Keys) && (forall f :: f in spaces[b].mapped ==> f !in trees[b])
    requires m'.pool.frameCount == m.pool.frameCount
    requires forall f: nat :: f < m.pool.frameCount ==>
               Bit(m'.pool.words, f) == (Bit(m.pool.words, f) && f !in spaces[b].mapped)
    ensures Strays(m', spaces - {b}, trees - {b}) == Strays(m, spaces, trees) + trees[b].Keys
    ensures Strays(m, spaces, trees) !! trees[b].Keys
  {
    hide OneOwner, Unowned, Bit;
    forall f: nat
      ensures f in Strays(m', spaces - {b}, trees - {b}) <==> f in Strays(m, spaces, trees) || f in trees[b].Keys
      ensures f in Strays(m, spaces, trees) ==> f !in trees[b].Keys
    {
      UnownedWithout(spaces, trees, b, f);
      if f in trees[b].Keys {
        OwnedByOne(spaces, trees, b, f);
      }
    }
  }

  ghost function StraysWithout(m: Machine, spaces: map<nat, Space>, trees: map<nat, Tree>, b: nat): set<nat>
    requires trees.Keys == spaces.Keys
  {
    Strays(m, spaces - {b}, trees - {b})
  }

  /** The tables of a destroyed space stay allocated and belong to no one. */
  lemma DestroyStrays(E: Encoder, g: Manager, trees: map<nat, Tree>, b: nat)
    requires trees.Keys == g.spaces.Keys && b in g.spaces && Isolated(E, g.m, g.spaces, trees)
    ensures Gains(Strays(g.m, g.spaces, trees), StraysWithout(DestroySpace(g, b).0.m, g.spaces, trees, b), |trees[b]|)
  {
    hide Wf, Lawful, Strays, OneOwner;
    assert SpaceHeld(E, g.m, g.spaces[b], trees[b]);
    ReleaseAllCorrect(g.m.pool, g.spaces[b].mapped);
    TablesStray(g.m, DestroySpace(g, b).0.m, g.spaces, trees, b);
    assert |trees[b]| == |trees[b].Keys|;
  }

  lemma OneOwnerWithout(spaces: map<nat, Space>, trees: map<nat, Tree>, b: nat)
    requires trees.Keys == spaces.Keys && OneOwner(spaces, trees)
    ensures OneOwner(spaces - {b}, trees - {b})
  {
    forall c, d, f | c in spaces - {b} && d in spaces - {b}
                     && Owns(spaces - {b}, trees - {b}, c, f) && Owns(spaces - {b}, trees - {b}, d, f)
      ensures c == d
    {
      assert Owns(spaces, trees, c, f) && Owns(spaces, trees, d, f);
    }
  }

  /** Clearing the bits of boundary `b`'s data frames leaves boundary `c` as it was. */
  lemma OtherHeld(E: Encoder, m: Machine, m': Machine, spaces: map<nat, Space>, trees: map<nat, Tree>, b: nat, c: nat)
    requires trees.Keys == spaces.Keys && OneOwner(spaces, trees) && b in spaces && c in spaces && c != b
    requires SpaceHeld(E, m, spaces[c], trees[c]) && m'.mem == m.mem && m'.pool.frameCount == m.pool.frameCount
    requires forall f: nat :: f < m.pool.frameCount ==>
               Bit(m'.pool.words, f) == (Bit(m.pool.words, f) && f !in spaces[b].mapped)
    ensures SpaceHeld(E, m', spaces[c], trees[c])
  {
    hide Wf;
    forall f | f in trees[c] || f in spaces[c].mapped
      ensures Bit(m'.pool.words, f)
    {
      assert Owns(spaces, trees, c, f);
      assert !Owns(spaces, trees, b, f);
    }
  }

  /** `destroy_space` returns exactly the recorded data frames and disturbs no one. */
  lemma DestroyCorrect(E: Encoder, g: Manager, trees: map<nat, Tree>, b: nat)
    requires Isolated(E, g.m, g.spaces, trees)
    ensures var (g', r) := DestroySpace(g, b);
            && Isolated(E, g'.m, g'.spaces, trees - {b})
            && g'.m.mem == g.m.mem && g'.spaces == g.spaces - {b} && (r.Done? <==> b in g.spaces)
            && FreeCount(g'.m.pool) == FreeCount(g.m.pool) + (if r.Done? then |g.spaces[b].mapped| else 0)
            && (r.Done? ==> forall f: nat :: f in g.spaces[b].mapped ==> IsFree(g'.m.pool, f))
  {
    hide Wf, Lookup, LookupAt, Lawful, OneOwner;
    if b in g.spaces {
      assert SpaceHeld(E, g.m, g.spaces[b], trees[b]);
      ReleaseAllCorrect(g.m.pool, g.spaces[b].mapped);
      forall c | c in g.spaces && c != b
        ensures SpaceHeld(E, DestroySpace(g, b).0.m, g.spaces[c], trees[c])
      {
        OtherHeld(E, g.m, DestroySpace(g, b).0.m, g.spaces, trees, b, c);
      }
      OneOwnerWithout(g.spaces, trees, b);
    } else {
      assert g.spaces - {b} == g.spaces && trees - {b} == trees;
    }
  }
}
