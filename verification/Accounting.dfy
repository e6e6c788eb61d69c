/** Where every frame is, over whole runs of the address-space manager: which operations take
    frames out of reach, how many, and when (cibos-kernel/src/address_space.rs). */
module Accounting {
  import opened LittleEndian
  import opened PageEncoding
  import opened Addressing
  import opened FramePool
  import opened PageTables
  import opened Mapping
  import opened Ranges
  import opened Boundaries
  import opened Demand
  import opened Isolation
  import opened Options

  // ---- one page of map_new_pages -------------------------------------------

  /** One page of `map_new_pages`: the frame comes first, so a page that cannot be mapped
      leaves a frame allocated and unrecorded. */
  lemma PageOutcome(E: Encoder, m: Machine, spaces: map<nat, Space>, trees: map<nat, Tree>, b: nat, v: nat,
                    perms: Permissions)
    requires Isolated(E, m, spaces, trees) && b in spaces
    ensures var r := MapOne(E, m, spaces[b], v, perms).1;
            && (r.AllocFailed? <==> FreeCount(m.pool) == 0)
            && (r.MapFailed? <==> FreeCount(m.pool) > 0 && Refused(E, m.mem, spaces[b].root, v, FreeCount(m.pool) - 1))
            && (r.Done? <==> FreeCount(m.pool) > 0 && !Refused(E, m.mem, spaces[b].root, v, FreeCount(m.pool) - 1))
  {
    hide Wf, Lookup, Consistent, Map, Insert, Missing, OneOwner, Lawful, Allocate;
    var (m1, a) := AllocateZeroed(m);
    AllocateIsLowestFree(m.pool);
    FreeCountIsExact(m.pool);
    FreeCountAfter(m.pool);
    if a.Frame? {
      AllocData(E, m, spaces, trees);
      AllocKeepsIsolation(E, m, spaces, trees);
      assert SpaceHeld(E, m, spaces[b], trees[b]);
      assert SpaceHeld(E, m1, spaces[b], trees[b]);
      SameMissing(E, m.mem, m1.mem, spaces[b].root, trees[b], v);
      var tree' := MapCorrect(E, m1, spaces[b].root, trees[b], v, a.index, perms);
    }
  }

  /** The state in which page `i` has its frame but is not mapped yet. */
  lemma TakesOne(E: Encoder, m: Machine, spaces: map<nat, Space>, trees: map<nat, Tree>, b: nat)
    requires Isolated(E, m, spaces, trees) && b in spaces && AllocateZeroed(m).1.Frame?
    ensures var (m1, a) := AllocateZeroed(m);
            TookOne(E, m, m1, spaces[b].root, trees[b]) && a.index < FRAME_LIMIT
  {
    hide Wf, Lookup, Lawful, OneOwner, Allocate;
    AllocData(E, m, spaces, trees);
    AllocKeepsIsolation(E, m, spaces, trees);
    assert SpaceHeld(E, m, spaces[b], trees[b]);
    assert SpaceHeld(E, AllocateZeroed(m).0, spaces[b], trees[b]);
    FreeCountAfter(m.pool);
  }

  // ---- map_new_pages by the state before it --------------------------------

  /** Page `k` is reached with a free frame and then refused. */
  ghost predicate LosesAt(E: Encoder, m: Machine, root: nat, virt: nat, k: nat) {
    && Open(E, m.mem, root, From(virt), k) && Needs(E, m.mem, root, From(virt), k) < FreeCount(m.pool)
    && Stops(E, m, root, From(virt), k)
  }

  /** Page `k` is reached with no frame left. */
  ghost predicate DriesAt(E: Encoder, m: Machine, root: nat, virt: nat, k: nat) {
    Open(E, m.mem, root, From(virt), k) && Needs(E, m.mem, root, From(virt), k) == FreeCount(m.pool)
  }

  /** How the page loop ends from page `i` on, by the machine `m0` before the call. */
  ghost predicate EndsBy(E: Encoder, m0: Machine, root: nat, virt: nat, count: nat, i: nat, r: Outcome) {
    && (r.Done? <==>
          Open(E, m0.mem, root, From(virt), count) && Needs(E, m0.mem, root, From(virt), count) <= FreeCount(m0.pool))
    && (r.MapFailed? <==> exists k: nat :: i <= k < count && LosesAt(E, m0, root, virt, k))
    && (r.AllocFailed? <==> exists k: nat :: i <= k < count && DriesAt(E, m0, root, virt, k))
  }

  lemma EndsHere(E: Encoder, m0: Machine, root: nat, virt: nat, count: nat, i: nat, r: Outcome)
    requires i < count && Open(E, m0.mem, root, From(virt), i)
    requires Needs(E, m0.mem, root, From(virt), i) <= FreeCount(m0.pool)
    requires var left := FreeCount(m0.pool) - Needs(E, m0.mem, root, From(virt), i);
             || (r.AllocFailed? && left == 0)
             || (r.MapFailed? && left > 0 && Stops(E, m0, root, From(virt), i))
    ensures EndsBy(E, m0, root, virt, count, i, r)
  {
    hide Needs, Open, Stops;
    forall k: nat | i < k
      ensures !(Open(E, m0.mem, root, From(virt), k) && Needs(E, m0.mem, root, From(virt), k) <= FreeCount(m0.pool))
    {
      NoneLater(E, m0, root, From(virt), i, k);
    }
    assert r.MapFailed? ==> LosesAt(E, m0, root, virt, i);
    assert r.AllocFailed? ==> DriesAt(E, m0, root, virt, i);
  }

  lemma GoesOn(E: Encoder, m0: Machine, root: nat, virt: nat, count: nat, i: nat, r: Outcome)
    requires i < count && Open(E, m0.mem, root, From(virt), i)
    requires Needs(E, m0.mem, root, From(virt), i) < FreeCount(m0.pool)
    requires !Stops(E, m0, root, From(virt), i) && EndsBy(E, m0, root, virt, count, i + 1, r)
    ensures EndsBy(E, m0, root, virt, count, i, r)
  {
    hide Needs, Open, Stops;
    assert !LosesAt(E, m0, root, virt, i) && !DriesAt(E, m0, root, virt, i);
  }

  lemma {:induction false} MapNewEnds(E: Encoder, m0: Machine, m: Machine, spaces: map<nat, Space>,
                                      trees: map<nat, Tree>, b: nat, virt: nat, count: nat, perms: Permissions, i: nat)
    requires Isolated(E, m, spaces, trees) && b in spaces && i <= count
    requires Mid(E, m0, m, spaces[b].root, From(virt), i) && Open(E, m0.mem, spaces[b].root, From(virt), i)
    ensures EndsBy(E, m0, spaces[b].root, virt, count, i, MapNewFrom(E, m, spaces[b], virt, count, perms, i).1)
    decreases count - i
  {
    hide SpaceHeld, OneOwner, MachineOk, Lawful, MapOne, Refused, OthersSame, OnePage, Strays, Lacked, Needs,
         Open, Stops, Mid, EndsBy;
    var root := spaces[b].root;
    FreeLeft(E, m0, m, root, From(virt), i);
    if i < count {
      var v := NthPage(From(virt), i);
      PageStops(E, m0, m, spaces, trees, b, virt, i, perms);
      var ((m1, s1), r) := MapOne(E, m, spaces[b], v, perms);
      assert v == virt + i * FRAME_SIZE;
      if r.Done? {
        var trees1 := MapOneCorrect(E, m, spaces, trees, b, v, perms);
        PageMid(E, m0, m, spaces, trees, b, virt, i, perms);
        OpenNext(E, m0, root, From(virt), i);
        MapNewEnds(E, m0, m1, spaces[b := s1], trees1, b, virt, count, perms, i + 1);
        GoesOn(E, m0, root, virt, count, i, MapNewFrom(E, m1, s1, virt, count, perms, i + 1).1);
      } else {
        EndsHere(E, m0, root, virt, count, i, r);
      }
    } else {
      EndsBefore(E, m0, root, virt, count);
    }
  }

  lemma EndsBefore(E: Encoder, m0: Machine, root: nat, virt: nat, count: nat)
    requires Open(E, m0.mem, root, From(virt), count) && Needs(E, m0.mem, root, From(virt), count) <= FreeCount(m0.pool)
    ensures EndsBy(E, m0, root, virt, count, count, Done)
  {
  }

  /** The end of page `i`, by the machine before the call. */
  lemma PageStops(E: Encoder, m0: Machine, m: Machine, spaces: map<nat, Space>, trees: map<nat, Tree>, b: nat,
                  virt: nat, i: nat, perms: Permissions)
    requires Isolated(E, m, spaces, trees) && b in spaces && Mid(E, m0, m, spaces[b].root, From(virt), i)
    ensures var r := MapOne(E, m, spaces[b], NthPage(From(virt), i), perms).1;
            && (r.AllocFailed? <==> FreeCount(m.pool) == 0)
            && (r.MapFailed? <==> FreeCount(m.pool) > 0 && Stops(E, m0, spaces[b].root, From(virt), i))
            && (r.Done? <==> FreeCount(m.pool) > 0 && !Stops(E, m0, spaces[b].root, From(virt), i))
  {
    hide Refused, Stops, Mid, MapOne, Wf, OneOwner, Lawful, Consistent, NthPage;
    PageOutcome(E, m, spaces, trees, b, NthPage(From(virt), i), perms);
    assert SpaceHeld(E, m, spaces[b], trees[b]);
    StopsIsRefused(E, m0, m, spaces[b].root, trees[b], From(virt), i);
  }

  lemma PageMid(E: Encoder, m0: Machine, m: Machine, spaces: map<nat, Space>, trees: map<nat, Tree>, b: nat,
                virt: nat, i: nat, perms: Permissions)
    requires Isolated(E, m, spaces, trees) && b in spaces && Mid(E, m0, m, spaces[b].root, From(virt), i)
    requires MapOne(E, m, spaces[b], NthPage(From(virt), i), perms).1.Done?
    ensures Mid(E, m0, MapOne(E, m, spaces[b], NthPage(From(virt), i), perms).0.0, spaces[b].root, From(virt), i + 1)
    ensures MapOne(E, m, spaces[b], NthPage(From(virt), i), perms).0.1.root == spaces[b].root
  {
    hide SpaceHeld, OneOwner, MachineOk, Lawful, TookOne, Mid, Map, Allocate, NthPage;
    TakesOne(E, m, spaces, trees, b);
    var (m1, a) := AllocateZeroed(m);
    MidStep(E, m0, m, m1, spaces[b].root, trees[b], From(virt), i, a.index, perms);
  }

  /** How `map_new_pages` ends, by the machine before the call: it succeeds exactly when the pages
      are aligned, different and unmapped and there are frames for them and for the tables they
      lack, and it loses a frame exactly when it comes to a page it cannot map with a frame in
      hand; running out between pages loses nothing. */
  lemma MapNewExactly(E: Encoder, g: Manager, trees: map<nat, Tree>, b: nat, virt: nat, count: nat, perms: Permissions)
    requires Isolated(E, g.m, g.spaces, trees) && b in g.spaces
    ensures EndsBy(E, g.m, g.spaces[b].root, virt, count, 0, MapNewPages(E, g, b, virt, count, perms).1)
  {
    hide Isolated, MapNewFrom, EndsBy, Mid;
    MidStart(E, g.m, g.spaces[b].root, From(virt));
    MapNewEnds(E, g.m, g.m, g.spaces, trees, b, virt, count, perms, 0);
  }

  /** An operation loses frames exactly when it comes to a page it cannot map with a free frame
      in hand, or destroys a live space. */
  ghost predicate Loses(E: Encoder, g: Manager, op: Isolation.Op) {
    match op
    case Create(_) => false
    case MapNew(b, virt, count, _) =>
      b in g.spaces && exists k: nat :: k < count && LosesAt(E, g.m, g.spaces[b].root, virt, k)
    case Share(_, _, _, _, _) => false
    case Destroy(b) => b in g.spaces
  }

  lemma LosesExactly(E: Encoder, g: Manager, trees: map<nat, Tree>, op: Isolation.Op)
    requires Isolated(E, g.m, g.spaces, trees)
    ensures Loses(E, g, op) <==> LostBy(E, g, trees, op) > 0
  {
    hide LosesAt, DriesAt, MapNewFrom, Lawful, Wf, OneOwner, Consistent;
    if op.MapNew? && op.b in g.spaces {
      MapNewExactly(E, g, trees, op.b, op.virt, op.count, op.perms);
    } else if op.Destroy? && op.b in g.spaces {
      assert SpaceHeld(E, g.m, g.spaces[op.b], trees[op.b]);
      RootFrame(E, g.m.mem, g.spaces[op.b].root, trees[op.b]);
      assert g.spaces[op.b].root in trees[op.b].Keys;
    }
  }

  // ---- losing a frame ------------------------------------------------------

  lemma {:induction false} InsertRefused(E: Encoder, m: Machine, t: nat, level: nat, x: Path, w: Word)
    requires level < LEVELS && Lookup(E, m.mem, t, level, x).Some?
    ensures Insert(E, m, t, level, LEVELS - 1, true, x, w).0 == m
    decreases LEVELS - level
  {
    var e := Entry(m.mem, t, x[level]);
    if level < LEVELS - 1 && !E.isBlockLeaf(e, level) {
      InsertRefused(E, m, E.entryFrame(e), level + 1, x, w);
    }
  }

  /** A first page that is misaligned or mapped already costs a frame each time. */
  lemma FirstPageLoses(E: Encoder, g: Manager, trees: map<nat, Tree>, b: nat, virt: nat, count: nat, perms: Permissions)
    requires Isolated(E, g.m, g.spaces, trees) && b in g.spaces && count > 0 && FreeCount(g.m.pool) > 0
    requires virt % FRAME_SIZE != 0 || LookupAt(E, g.m.mem, g.spaces[b].root, virt).Some?
    ensures var (g', r) := MapNewPages(E, g, b, virt, count, perms);
            && r.MapFailed? && g'.spaces == g.spaces && FreeCount(g'.m.pool) == FreeCount(g.m.pool) - 1
            && Loses(E, g, MapNew(b, virt, count, perms))
  {
    hide SpaceHeld, OneOwner, Lawful, Consistent, Lookup, Insert, Allocate;
    var (m1, a) := AllocateZeroed(g.m);
    PageOutcome(E, g.m, g.spaces, trees, b, virt, perms);
    FreeCountAfter(g.m.pool);
    AllocKeepsIsolation(E, g.m, g.spaces, trees);
    if virt % FRAME_SIZE == 0 {
      assert LookupAt(E, m1.mem, g.spaces[b].root, virt).Some?;
      InsertRefused(E, m1, g.spaces[b].root, 0, Indices(virt), E.encodeLeaf(a.index, perms));
    }
    assert MapNewFrom(E, g.m, g.spaces[b], virt, count, perms, 0) == MapOne(E, g.m, g.spaces[b], virt, perms);
    assert g.spaces[b := g.spaces[b]] == g.spaces;
    assert NthPage(From(virt), 0) == virt && LosesAt(E, g.m, g.spaces[b].root, virt, 0);
  }

  /** Creating a space, asking for a page at address 1, and destroying the space again, on a
      machine with two free frames: both are lost. */
  lemma LossExample(E: Encoder, m: Machine, b: nat, perms: Permissions)
    requires Lawful(E) && MachineOk(m) && FreeCount(m.pool) >= 2
    ensures var ops := [Create(b), MapNew(b, 1, 1, perms), Destroy(b)];
            Runnable(E, m, ops) && FreeCount(Isolation.Run(E, m, ops).m.pool) == FreeCount(m.pool) - 2
  {
    hide Isolated, Allocate, MapNewPages, Consistent, Lawful;
    var ops := [Create(b), MapNew(b, 1, 1, perms), Destroy(b)];
    var g0 := Manager(m, map[]);
    NoSpaces(E, m);
    AllocateIsLowestFree(m.pool);
    FreeCountIsExact(m.pool);
    FreeCountAfter(m.pool);
    var g1 := CreateSpace(g0, b).0;
    var trees1 := CreateCorrect(E, g0, map[], b);
    FirstPageLoses(E, g1, trees1, b, 1, 1, perms);
    var g2 := MapNewPages(E, g1, b, 1, 1, perms).0;
    assert ops[..2] == [Create(b), MapNew(b, 1, 1, perms)] && ops[..2][..1] == [Create(b)] && ops[..2][..1][..0] == [];
    assert Isolation.Run(E, m, ops[..2][..1]) == g1;
    assert Isolation.Run(E, m, ops[..2]) == g2;
    assert Isolation.Run(E, m, ops) == DestroySpace(g2, b).0;
  }

  // ---- conservation --------------------------------------------------------

  ghost function AllocatedFrames(words: seq<BitWord>, n: nat): set<nat> {
    set f: nat | f < n && Bit(words, f)
  }

  lemma {:induction false} CountIsSize(words: seq<BitWord>, n: nat)
    requires n <= 64 * |words|
    ensures |AllocatedFrames(words, n)| == CountSet(words, n)
  {
    if n == 0 {
      assert AllocatedFrames(words, 0) == {};
    } else {
      CountIsSize(words, n - 1);
      assert AllocatedFrames(words, n) == AllocatedFrames(words, n - 1) + (if Bit(words, n - 1) then {n - 1} else {});
    }
  }

  /** The frames of the live boundaries: tables and data. */
  ghost function OwnedFrames(m: Machine, spaces: map<nat, Space>, trees: map<nat, Tree>): set<nat>
    requires trees.Keys == spaces.Keys
  {
    set f: nat | f < m.pool.frameCount && !Unowned(spaces, trees, f)
  }

  /** Every frame is free, owned by a boundary, or stray. */
  lemma Conservation(E: Encoder, m: Machine, spaces: map<nat, Space>, trees: map<nat, Tree>)
    requires Isolated(E, m, spaces, trees)
    ensures FreeCount(m.pool) + |OwnedFrames(m, spaces, trees)| + |Strays(m, spaces, trees)| == m.pool.frameCount
  {
    hide Wf, Lawful;
    var owned, strays := OwnedFrames(m, spaces, trees), Strays(m, spaces, trees);
    forall f | f in owned
      ensures Bit(m.pool.words, f)
    {
      var b :| b in spaces && Owns(spaces, trees, b, f);
      assert SpaceHeld(E, m, spaces[b], trees[b]);
    }
    assert AllocatedFrames(m.pool.words, m.pool.frameCount) == owned + strays;
    CountIsSize(m.pool.words, m.pool.frameCount);
  }

  // ---- whole runs ----------------------------------------------------------

  /** A history of a run: the tables of every boundary before each operation. */
  ghost predicate Witnessed(E: Encoder, m: Machine, ops: seq<Isolation.Op>, history: seq<map<nat, Tree>>) {
    && |history| == |ops|
    && forall k: nat :: k < |ops| ==>
         var g := Isolation.Run(E, m, ops[..k]); Isolated(E, g.m, g.spaces, history[k])
  }

  ghost function TotalLost(E: Encoder, m: Machine, ops: seq<Isolation.Op>, history: seq<map<nat, Tree>>): nat
    requires Witnessed(E, m, ops, history)
  {
    if ops == [] then 0
    else
      var n := |ops| - 1;
      WitnessedBefore(E, m, ops, history);
      TotalLost(E, m, ops[..n], history[..n]) + LostBy(E, Isolation.Run(E, m, ops[..n]), history[n], ops[n])
  }

  lemma WitnessedBefore(E: Encoder, m: Machine, ops: seq<Isolation.Op>, history: seq<map<nat, Tree>>)
    requires Witnessed(E, m, ops, history) && ops != []
    ensures Witnessed(E, m, ops[..|ops| - 1], history[..|ops| - 1])
  {
    hide Isolation.Run, Isolated;
    var n := |ops| - 1;
    forall k: nat | k < n
      ensures ops[..n][..k] == ops[..k]
    {
    }
  }

  /** What every run loses: the stray frames are those allocated at the start and the losses of
      each operation, so the free frames are what neither the live boundaries nor the losses took. */
  lemma {:induction false} RunAccounts(E: Encoder, m: Machine, ops: seq<Isolation.Op>)
    returns (history: seq<map<nat, Tree>>, trees: map<nat, Tree>)
    requires Runnable(E, m, ops)
    ensures Witnessed(E, m, ops, history)
    ensures var g := Isolation.Run(E, m, ops);
            && Isolated(E, g.m, g.spaces, trees)
            && Gains(Strays(m, map[], map[]), Strays(g.m, g.spaces, trees), TotalLost(E, m, ops, history))
    decreases |ops|
  {
    hide Isolated, Apply, Strays, LostBy;
    if ops == [] {
      history, trees := [], map[];
      NoSpaces(E, m);
    } else {
      var n := |ops| - 1;
      var before, op := ops[..n], ops[n];
      assert op in ops && forall o :: o in before ==> o in ops;
      var h0, trees0 := RunAccounts(E, m, before);
      history := h0 + [trees0];
      trees := StepIsolated(E, Isolation.Run(E, m, before), trees0, op);
      WitnessedAfter(E, m, ops, h0, trees0);
      assert history[..n] == h0;
    }
  }

  lemma NoSpaces(E: Encoder, m: Machine)
    requires Lawful(E) && MachineOk(m)
    ensures Isolated(E, m, map[], map[])
  {
  }

  lemma WitnessedAfter(E: Encoder, m: Machine, ops: seq<Isolation.Op>, h0: seq<map<nat, Tree>>, trees0: map<nat, Tree>)
    requires ops != [] && Witnessed(E, m, ops[..|ops| - 1], h0)
    requires var g := Isolation.Run(E, m, ops[..|ops| - 1]); Isolated(E, g.m, g.spaces, trees0)
    ensures Witnessed(E, m, ops, h0 + [trees0])
  {
    hide Isolation.Run, Isolated;
    var n := |ops| - 1;
    forall k: nat | k < |ops|
      ensures var g := Isolation.Run(E, m, ops[..k]); Isolated(E, g.m, g.spaces, (h0 + [trees0])[k])
    {
      if k < n {
        assert ops[..n][..k] == ops[..k];
      }
    }
  }

  // The number of frames of the machine never changes.

  lemma {:induction false} InsertCount(E: Encoder, m: Machine, t: nat, level: nat, target: nat, checked: bool,
                                       x: Path, w: Word)
    requires level <= target < LEVELS
    ensures Insert(E, m, t, level, target, checked, x, w).0.pool.frameCount == m.pool.frameCount
    decreases target - level
  {
    var e := Entry(m.mem, t, x[level]);
    if level < target {
      if E.isPresent(e) {
        InsertCount(E, m, E.entryFrame(e), level + 1, target, checked, x, w);
      } else {
        var (m1, a) := AddTable(E, m, t, x[level]);
        if a.Frame? {
          InsertCount(E, m1, a.index, level + 1, target, checked, x, w);
        }
      }
    }
  }

  lemma {:induction false} MapFromCount(E: Encoder, m: Machine, root: nat, virt: nat, phys: nat, count: nat,
                                        perms: Permissions, blocks: bool, i: nat)
    ensures MapFrom(E, m, root, virt, phys, count, perms, blocks, i).0.pool.frameCount == m.pool.frameCount
    decreases count - i
  {
    hide Insert;
    if i < count {
      var v, f := virt + i * FRAME_SIZE, (phys + i * FRAME_SIZE) / FRAME_SIZE;
      InsertCount(E, m, root, 0, LEVELS - 1, true, Indices(v), E.encodeLeaf(f, perms));
      InsertCount(E, m, root, 0, LEVELS - 2, false, Indices(v), E.encodeBlockLeaf(f, perms, LEVELS - 2));
      var s := MapStep(E, m, root, virt, phys, count, perms, blocks, i);
      MapFromCount(E, s.0.0, root, virt, phys, count, perms, blocks, s.1);
    }
  }

  lemma MapOneCount(E: Encoder, m: Machine, s: Space, v: nat, perms: Permissions)
    ensures MapOne(E, m, s, v, perms).0.0.pool.frameCount == m.pool.frameCount
  {
    hide Insert, Scan;
    var (m1, a) := AllocateZeroed(m);
    if a.Frame? {
      InsertCount(E, m1, s.root, 0, LEVELS - 1, true, Indices(v), E.encodeLeaf(a.index, perms));
    }
  }

  lemma {:induction false} MapNewCount(E: Encoder, m: Machine, s: Space, virt: nat, count: nat, perms: Permissions,
                                       i: nat)
    ensures MapNewFrom(E, m, s, virt, count, perms, i).0.0.pool.frameCount == m.pool.frameCount
    decreases count - i
  {
    hide MapOne;
    if i < count {
      var v := virt + i * FRAME_SIZE;
      MapOneCount(E, m, s, v, perms);
      var r := MapOne(E, m, s, v, perms);
      MapNewCount(E, r.0.0, r.0.1, virt, count, perms, i + 1);
    }
  }

  lemma {:induction false} ReleaseAllCount(p: Pool, frames: seq<nat>)
    ensures ReleaseAll(p, frames).frameCount == p.frameCount
    decreases |frames|
  {
    if frames != [] {
      ReleaseAllCount(Release(p, frames[0]), frames[1..]);
    }
  }

  lemma {:induction false} RunCount(E: Encoder, m: Machine, ops: seq<Isolation.Op>)
    ensures Isolation.Run(E, m, ops).m.pool.frameCount == m.pool.frameCount
    decreases |ops|
  {
    hide MapFrom, MapNewFrom, ReleaseAll;
    if ops != [] {
      RunCount(E, m, ops[..|ops| - 1]);
      var g := Isolation.Run(E, m, ops[..|ops| - 1]);
      match ops[|ops| - 1] {
        case Create(_) =>
        case MapNew(b, virt, count, perms) =>
          if b in g.spaces {
            MapNewCount(E, g.m, g.spaces[b], virt, count, perms, 0);
          }
        case Share(b, virt, phys, count, perms) =>
          if b in g.spaces {
            MapFromCount(E, g.m, g.spaces[b].root, virt, phys, count, perms, true, 0);
          }
        case Destroy(b) =>
          if b in g.spaces {
            ReleaseAllCount(g.m.pool, g.spaces[b].mapped);
          }
      }
    }
  }

  /** The free frames after a run, for a machine that started without spaces. */
  lemma FreeAfterRun(E: Encoder, m: Machine, ops: seq<Isolation.Op>)
    returns (history: seq<map<nat, Tree>>, trees: map<nat, Tree>)
    requires Runnable(E, m, ops)
    ensures Witnessed(E, m, ops, history)
    ensures var g := Isolation.Run(E, m, ops);
            && Isolated(E, g.m, g.spaces, trees)
            && FreeCount(g.m.pool)
               == FreeCount(m.pool) - |OwnedFrames(g.m, g.spaces, trees)| - TotalLost(E, m, ops, history)
  {
    hide Isolated, Apply, Strays, LostBy;
    history, trees := RunAccounts(E, m, ops);
    var g := Isolation.Run(E, m, ops);
    NoSpaces(E, m);
    Conservation(E, m, map[], map[]);
    Conservation(E, g.m, g.spaces, trees);
    assert OwnedFrames(m, map[], map[]) == {};
    RunCount(E, m, ops);
  }

  /** Nothing is lost over a run exactly when no operation of it loses anything. */
  lemma {:induction false} TotalLostZero(E: Encoder, m: Machine, ops: seq<Isolation.Op>, history: seq<map<nat, Tree>>)
    requires Witnessed(E, m, ops, history)
    ensures TotalLost(E, m, ops, history) == 0
       <==> forall k: nat :: k < |ops| ==> !Loses(E, Isolation.Run(E, m, ops[..k]), ops[k])
    decreases |ops|
  {
    hide Isolated, Apply, LostBy, Loses, Isolation.Run;
    if ops != [] {
      var n := |ops| - 1;
      WitnessedBefore(E, m, ops, history);
      TotalLostZero(E, m, ops[..n], history[..n]);
      LosesExactly(E, Isolation.Run(E, m, ops[..n]), history[n], ops[n]);
      forall k: nat | k < n
        ensures ops[..n][..k] == ops[..k]
      {
      }
    }
  }

  /** A boundary that is created and destroyed again never gives back its root table. */
  lemma DestroyedSpaceKeepsTables(E: Encoder, m: Machine, ops: seq<Isolation.Op>, b: nat)
    requires Runnable(E, m, ops) && CreateSpace(Isolation.Run(E, m, ops), b).1.Done?
    ensures var g := Isolation.Run(E, m, ops);
            FreeCount(DestroySpace(CreateSpace(g, b).0, b).0.m.pool) == FreeCount(g.m.pool) - 1
  {
    hide Isolated, Isolation.Run, Strays, Allocate;
    var g := Isolation.Run(E, m, ops);
    var trees := RunIsolated(E, m, ops);
    var trees1 := CreateCorrect(E, g, trees, b);
    DestroyCorrect(E, CreateSpace(g, b).0, trees1, b);
    FreeCountAfter(g.m.pool);
  }
}
