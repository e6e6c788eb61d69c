/** Isolation over whole runs: whatever sequence of manager operations is executed,
    failed ones included, boundaries stay apart (cibos-kernel/src/address_space.rs). */
module Isolation {
  import opened Division
  import opened PageEncoding
  import opened Addressing
  import opened FramePool
  import opened PageTables
  import opened Mapping
  import opened Ranges
  import opened Boundaries
  import opened Options

  datatype Op =
    | Create(b: nat)
    | MapNew(b: nat, virt: nat, count: nat, perms: Permissions)
    | Share(b: nat, virt: nat, phys: nat, count: nat, perms: Permissions)
    | Destroy(b: nat)

  /** `map_existing` demands that `phys` names real physical memory. */
  predicate Callable(op: Op) {
    op.Share? ==> op.phys / FRAME_SIZE + op.count <= FRAME_LIMIT
  }

  function Apply(E: Encoder, g: Manager, op: Op): Manager {
    match op
    case Create(b) => CreateSpace(g, b).0
    case MapNew(b, virt, count, perms) => MapNewPages(E, g, b, virt, count, perms).0
    case Share(b, virt, phys, count, perms) => MapExisting(E, g, b, virt, phys, count, perms).0
    case Destroy(b) => DestroySpace(g, b).0
  }

  /** The state after a sequence of operations on a machine without spaces. */
  function Run(E: Encoder, m: Machine, ops: seq<Op>): Manager {
    if ops == [] then Manager(m, map[]) else Apply(E, Run(E, m, ops[..|ops| - 1]), ops[|ops| - 1])
  }

  ghost predicate Runnable(E: Encoder, m: Machine, ops: seq<Op>) {
    Lawful(E) && MachineOk(m) && forall op :: op in ops ==> Callable(op)
  }

  predicate Sharing(ops: seq<Op>) {
    exists op :: op in ops && op.Share?
  }

  ghost predicate AllPrivate(E: Encoder, g: Manager) {
    forall b :: b in g.spaces ==> Private(E, g.m.mem, g.spaces[b])
  }

  // ---- one step ------------------------------------------------------------

  /** The effect of one operation on everyone but its target. */
  ghost predicate OthersKept(E: Encoder, g: Manager, g': Manager, b: nat) {
    && (forall c :: c != b ==> (c in g.spaces <==> c in g'.spaces))
    && (forall c :: c != b && c in g.spaces ==> g'.spaces[c] == g.spaces[c])
    && OthersSame(E, g.m.mem, g'.m.mem, g.spaces, b)
  }

  lemma ShareCorrect(E: Encoder, g: Manager, trees: map<nat, Tree>, op: Op) returns (trees': map<nat, Tree>)
    requires Isolated(E, g.m, g.spaces, trees) && op.Share? && Callable(op)
    ensures var g' := Apply(E, g, op);
            && Isolated(E, g'.m, g'.spaces, trees') && OthersKept(E, g, g', op.b)
            && Strays(g'.m, g'.spaces, trees') == Strays(g.m, g.spaces, trees)
  {
    hide Wf, Lookup, LookupAt, Consistent, OneOwner, MapRange, RangeDone, Lawful, Strays;
    trees' := trees;
    if op.b in g.spaces {
      assert SpaceHeld(E, g.m, g.spaces[op.b], trees[op.b]);
      var root := g.spaces[op.b].root;
      var tree', done := MapRangeCorrect(E, g.m, root, trees[op.b], op.virt, op.phys, op.count, op.perms);
      GrowSpace(E, g.m, MapRange(E, g.m, root, op.virt, op.phys, op.count, op.perms).0, g.spaces, trees, op.b, tree');
      trees' := trees[op.b := tree'];
    }
  }

  /** What `map_existing` does in its own boundary: it is done exactly when the whole range is
      mapped, offset for offset and with the permissions asked for; otherwise a prefix is. No other
      address changes, and no frame is recorded. */
  lemma ShareMaps(E: Encoder, g: Manager, trees: map<nat, Tree>, b: nat, virt: nat, phys: nat, count: nat,
                  perms: Permissions)
    returns (done: nat)
    requires Isolated(E, g.m, g.spaces, trees) && phys / FRAME_SIZE + count <= FRAME_LIMIT
    ensures var (g', r) := MapExisting(E, g, b, virt, phys, count, perms);
            && (b !in g.spaces ==> g' == g && r == UnknownContainer)
            && (b in g.spaces ==>
                  && done <= count && (r.Done? <==> done == count) && (!r.Done? ==> r.MapFailed?)
                  && g'.spaces == g.spaces
                  && (forall o: nat :: o < done * FRAME_SIZE ==> Linear(E, g'.m.mem, g.spaces[b].root, virt, phys, o))
                  && RangeEntries(E, g'.m.mem, g.spaces[b].root, virt, phys, count, perms, true, done)
                  && (forall q: nat :: Outside(q, virt, done) ==>
                        LookupAt(E, g'.m.mem, g.spaces[b].root, q) == LookupAt(E, g.m.mem, g.spaces[b].root, q)))
  {
    hide Wf, Lookup, LookupAt, Consistent, OneOwner, MapRange, Lawful, RangeEntries, Linear, Outside;
    done := 0;
    if b in g.spaces {
      assert SpaceHeld(E, g.m, g.spaces[b], trees[b]);
      done := MapRangeEntries(E, g.m, g.spaces[b].root, trees[b], virt, phys, count, perms);
    }
  }

  lemma MapNewCorrect(E: Encoder, g: Manager, trees: map<nat, Tree>, b: nat, virt: nat, count: nat, perms: Permissions)
    returns (trees': map<nat, Tree>, done: nat)
    requires Isolated(E, g.m, g.spaces, trees)
    ensures var (g', r) := MapNewPages(E, g, b, virt, count, perms);
            && Isolated(E, g'.m, g'.spaces, trees') && OthersKept(E, g, g', b)
            && (b !in g.spaces ==> g' == g && r == UnknownContainer)
            && (b in g.spaces ==>
                  var s, s' := g.spaces[b], g'.spaces[b];
                  && b in g'.spaces && done <= count && (r.Done? <==> done == count)
                  && s'.root == s.root && |s'.mapped| == |s.mapped| + done && s'.mapped[..|s.mapped|] == s.mapped
                  && PagesDone(E, g'.m.mem, s', virt, |s.mapped|, done, perms)
                  && (Private(E, g.m.mem, s) ==> Private(E, g'.m.mem, s')))
            && Gains(Strays(g.m, g.spaces, trees), Strays(g'.m, g'.spaces, trees'), if r.MapFailed? then 1 else 0)
  {
    hide Wf, Lookup, LookupAt, Consistent, OneOwner, MapNewFrom, Lawful, Private, Strays;
    trees', done := trees, 0;
    if b in g.spaces {
      trees', done := MapNewFromCorrect(E, g.m, g.spaces, trees, b, virt, count, perms, 0, |g.spaces[b].mapped|);
    }
  }

  /** How many frames an operation takes out of reach: the fresh frame of a page that could
      not be mapped, and all the tables of a destroyed space. */
  ghost function LostBy(E: Encoder, g: Manager, trees: map<nat, Tree>, op: Op): nat
    requires trees.Keys == g.spaces.Keys
  {
    match op
    case Create(_) => 0
    case MapNew(b, virt, count, perms) => if MapNewPages(E, g, b, virt, count, perms).1.MapFailed? then 1 else 0
    case Share(_, _, _, _, _) => 0
    case Destroy(b) => if b in g.spaces then |trees[b]| else 0
  }

  lemma StepIsolated(E: Encoder, g: Manager, trees: map<nat, Tree>, op: Op) returns (trees': map<nat, Tree>)
    requires Isolated(E, g.m, g.spaces, trees) && Callable(op)
    ensures var g' := Apply(E, g, op);
            && Isolated(E, g'.m, g'.spaces, trees') && OthersKept(E, g, g', op.b)
            && Gains(Strays(g.m, g.spaces, trees), Strays(g'.m, g'.spaces, trees'), LostBy(E, g, trees, op))
  {
    hide Wf, Lookup, LookupAt, Consistent, OneOwner, MapNewPages, MapExisting, Lawful, SpaceHeld, Strays;
    match op {
      case Create(b) =>
        trees' := CreateCorrect(E, g, trees, b);
        if CreateSpace(g, b).1.Done? {
          CreateStrays(E, g, trees, b);
        }
      case MapNew(b, virt, count, perms) =>
        var done;
        trees', done := MapNewCorrect(E, g, trees, b, virt, count, perms);
      case Share(b, virt, phys, count, perms) => trees' := ShareCorrect(E, g, trees, op);
      case Destroy(b) =>
        DestroyCorrect(E, g, trees, b);
        trees' := trees - {b};
        if b in g.spaces {
          DestroyStrays(E, g, trees, b);
        } else {
          assert trees - {b} == trees;
        }
    }
  }

  lemma StepPrivate(E: Encoder, g: Manager, trees: map<nat, Tree>, op: Op)
    requires Isolated(E, g.m, g.spaces, trees) && Callable(op) && !op.Share? && AllPrivate(E, g)
    ensures AllPrivate(E, Apply(E, g, op))
  {
    hide Wf, Lookup, LookupAt, Consistent, OneOwner, MapNewPages, MapExisting, Lawful, SpaceHeld, Private;
    var g' := Apply(E, g, op);
    var t' := StepIsolated(E, g, trees, op);
    forall c | c in g'.spaces
      ensures Private(E, g'.m.mem, g'.spaces[c])
    {
      if c != op.b {
        PrivateKept(E, g.m.mem, g'.m.mem, g.spaces[c]);
      } else {
        TargetPrivate(E, g, trees, op);
      }
    }
  }

  lemma TargetPrivate(E: Encoder, g: Manager, trees: map<nat, Tree>, op: Op)
    requires Isolated(E, g.m, g.spaces, trees) && Callable(op) && !op.Share? && AllPrivate(E, g)
    requires op.b in Apply(E, g, op).spaces
    ensures Private(E, Apply(E, g, op).m.mem, Apply(E, g, op).spaces[op.b])
  {
    hide Wf, Lookup, LookupAt, Consistent, OneOwner, MapNewPages, MapExisting, Lawful, SpaceHeld;
    match op {
      case Create(b) => var t1 := CreateCorrect(E, g, trees, b);
      case MapNew(b, virt, count, perms) =>
        var t2, done := MapNewCorrect(E, g, trees, b, virt, count, perms);
      case Destroy(b) => DestroyCorrect(E, g, trees, b);
    }
  }

  // ---- whole runs ----------------------------------------------------------

  lemma {:induction false} RunIsolated(E: Encoder, m: Machine, ops: seq<Op>) returns (trees: map<nat, Tree>)
    requires Runnable(E, m, ops)
    ensures var g := Run(E, m, ops);
            Isolated(E, g.m, g.spaces, trees) && (!Sharing(ops) ==> AllPrivate(E, g))
    decreases |ops|
  {
    hide Lookup, LookupAt, Consistent, Lawful, Apply;
    if ops == [] {
      trees := map[];
    } else {
      var before, op := ops[..|ops| - 1], ops[|ops| - 1];
      assert op in ops && forall o :: o in before ==> o in ops;
      var trees0 := RunIsolated(E, m, before);
      trees := StepIsolated(E, Run(E, m, before), trees0, op);
      if !Sharing(ops) {
        assert !Sharing(before);
        StepPrivate(E, Run(E, m, before), trees0, op);
      }
    }
  }

  // ---- main results --------------------------------------------------------

  /** In every reachable state, an operation on one boundary leaves every address of
      every other boundary translating as before, whether or not it succeeds. */
  lemma OneBoundaryAtATime(E: Encoder, m: Machine, ops: seq<Op>, op: Op, c: nat, v: nat)
    requires Runnable(E, m, ops) && Callable(op) && c != op.b
    ensures TranslateIn(E, Apply(E, Run(E, m, ops), op), c, v) == TranslateIn(E, Run(E, m, ops), c, v)
  {
    hide Lookup, Consistent, OneOwner, Lawful, Apply, Wf, SpaceHeld;
    var g := Run(E, m, ops);
    var trees := RunIsolated(E, m, ops);
    var t' := StepIsolated(E, g, trees, op);
    var g' := Apply(E, g, op);
    if c in g.spaces {
      assert LookupAt(E, g'.m.mem, g.spaces[c].root, v) == LookupAt(E, g.m.mem, g.spaces[c].root, v);
    }
  }

  lemma PrivateFrame(E: Encoder, mem: Memory, s: Space, v: nat)
    requires Private(E, mem, s) && Translate(E, mem, s.root, v).Some?
    ensures LookupAt(E, mem, s.root, v).Some?
    ensures Translate(E, mem, s.root, v).value / FRAME_SIZE == E.entryFrame(LookupAt(E, mem, s.root, v).value.entry)
    ensures Translate(E, mem, s.root, v).value / FRAME_SIZE in s.mapped
  {
    hide Lookup, PhysicalOf;
    var h := LookupAt(E, mem, s.root, v).value;
    var f := E.entryFrame(h.entry);
    LeafTranslates(E, h, f, v);
    DivMod(f * FRAME_SIZE + v % FRAME_SIZE, FRAME_SIZE, f, v % FRAME_SIZE);
  }

  /** In every state reached without `map_existing`, two addresses that translate
      into the same physical frame are the same page of the same boundary, and that
      frame is allocated. */
  lemma NoSharedFrames(E: Encoder, m: Machine, ops: seq<Op>, b: nat, v: nat, c: nat, w: nat)
    requires Runnable(E, m, ops) && !Sharing(ops)
    requires TranslateIn(E, Run(E, m, ops), b, v).Some? && TranslateIn(E, Run(E, m, ops), c, w).Some?
    requires TranslateIn(E, Run(E, m, ops), b, v).value / FRAME_SIZE ==
               TranslateIn(E, Run(E, m, ops), c, w).value / FRAME_SIZE
    ensures b == c && PageOf(v) == PageOf(w)
    ensures Bit(Run(E, m, ops).m.pool.words, TranslateIn(E, Run(E, m, ops), b, v).value / FRAME_SIZE)
  {
    hide Lookup, Consistent, Lawful, Apply, Wf, LookupAt, PageOf, Run;
    var g := Run(E, m, ops);
    var trees := RunIsolated(E, m, ops);
    PrivateFrame(E, g.m.mem, g.spaces[b], v);
    PrivateFrame(E, g.m.mem, g.spaces[c], w);
    var f := TranslateIn(E, g, b, v).value / FRAME_SIZE;
    assert SpaceHeld(E, g.m, g.spaces[b], trees[b]);
    assert Owns(g.spaces, trees, b, f) && Owns(g.spaces, trees, c, f);
  }

  /** The table a walk along `y` stands in after `k` levels, if it gets that far. */
  function TableOnWalk(E: Encoder, mem: Memory, t: nat, level: nat, k: nat, y: Path): Option<nat>
    requires level <= k < LEVELS
    decreases k - level
  {
    if level == k then Some(t)
    else
      var e := Entry(mem, t, y[level]);
      if !E.isPresent(e) || E.isBlockLeaf(e, level) then None
      else TableOnWalk(E, mem, E.entryFrame(e), level + 1, k, y)
  }

  lemma {:induction false} WalkStaysInTree(E: Encoder, mem: Memory, root: nat, tree: Tree, t: nat, k: nat, y: Path)
    requires Wf(E, mem, root, tree) && t in tree && |tree[t]| <= k < LEVELS && tree[t] == y[..|tree[t]|]
    ensures var r := TableOnWalk(E, mem, t, |tree[t]|, k, y);
            r.Some? ==> r.value in tree
    decreases k - |tree[t]|
  {
    var level := |tree[t]|;
    if level < k {
      assert SlotOk(E, mem, tree, t, y[level]);
      var e := Entry(mem, t, y[level]);
      if E.isPresent(e) && !E.isBlockLeaf(e, level) {
        PathStep(y, level);
        WalkStaysInTree(E, mem, root, tree, E.entryFrame(e), k, y);
      }
    }
  }

  /** In every state reached without `map_existing`, no address of any boundary translates
      into a page table of any boundary. (`map_existing` may name a table frame.) */
  lemma TablesAreUnreachable(E: Encoder, m: Machine, ops: seq<Op>, b: nat, v: nat, c: nat, k: nat, y: Path)
    requires Runnable(E, m, ops) && !Sharing(ops) && k < LEVELS
    requires TranslateIn(E, Run(E, m, ops), b, v).Some? && c in Run(E, m, ops).spaces
    ensures var g := Run(E, m, ops);
            TableOnWalk(E, g.m.mem, g.spaces[c].root, 0, k, y) != Some(TranslateIn(E, g, b, v).value / FRAME_SIZE)
  {
    hide Lookup, Consistent, Lawful, Apply, LookupAt, Run, TableOnWalk;
    var g := Run(E, m, ops);
    var trees := RunIsolated(E, m, ops);
    PrivateFrame(E, g.m.mem, g.spaces[b], v);
    var f := TranslateIn(E, g, b, v).value / FRAME_SIZE;
    assert SpaceHeld(E, g.m, g.spaces[b], trees[b]) && SpaceHeld(E, g.m, g.spaces[c], trees[c]);
    WalkStaysInTree(E, g.m.mem, g.spaces[c].root, trees[c], g.spaces[c].root, k, y);
    assert Owns(g.spaces, trees, b, f);
    assert f in trees[c] ==> Owns(g.spaces, trees, c, f);
  }

  /** With `map_existing` it can: a boundary's root table shared into the boundary itself. */
  lemma SharedTableIsReachable(E: Encoder, g: Manager, trees: map<nat, Tree>, b: nat, v: nat, perms: Permissions)
    requires Isolated(E, g.m, g.spaces, trees) && b in g.spaces && v % FRAME_SIZE == 0
    requires LookupAt(E, g.m.mem, g.spaces[b].root, v).None?
    requires MissingTables(E, g.m.mem, g.spaces[b].root, v) <= FreeCount(g.m.pool)
    ensures var root := g.spaces[b].root;
            var (g', r) := MapExisting(E, g, b, v, root * FRAME_SIZE, 1, perms);
            && r.Done? && TranslateIn(E, g', b, v) == Some(root * FRAME_SIZE)
            && TableOnWalk(E, g'.m.mem, root, 0, 0, Indices(v)) == Some(root)
  {
    hide Wf, Lookup, Consistent, OneOwner, Lawful, Map, Missing, Translate, LookupAt;
    var root := g.spaces[b].root;
    assert SpaceHeld(E, g.m, g.spaces[b], trees[b]);
    RootFrame(E, g.m.mem, root, trees[b]);
    var tree' := MapCorrect(E, g.m, root, trees[b], v, root, perms);
    MapTranslates(E, g.m, root, trees[b], v, root, perms, 0);
    assert !UsesBlock(v, root * FRAME_SIZE, 1);
    assert MapFrom(E, g.m, root, v, root * FRAME_SIZE, 1, perms, true, 0) == Map(E, g.m, root, v, root, perms);
  }

  lemma RootFrame(E: Encoder, mem: Memory, root: nat, tree: Tree)
    requires Wf(E, mem, root, tree)
    ensures root in tree
  {
  }
}
